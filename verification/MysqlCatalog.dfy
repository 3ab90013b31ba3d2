/** Index and foreign-key snapshots built from the rows of the MySQL catalogue. */
module MysqlCatalog {
  import opened JsText
  import opened SeqFacts

  // ---------- the key join ----------

  function JoinKey(schema: string, table: string, name: string): string {
    schema + "." + table + "." + name
  }

  /** Index of the last dot, -1 without one. */
  function LastDot(s: string): int {
    if s == "" then -1
    else if s[|s| - 1] == '.' then |s| - 1
    else LastDot(s[..|s| - 1])
  }

  lemma {:induction false} LastDotSpec(s: string)
    ensures -1 <= LastDot(s) < |s|
    ensures LastDot(s) >= 0 ==> s[LastDot(s)] == '.'
    ensures forall i :: LastDot(s) < i < |s| ==> s[i] != '.'
  {
    if s != "" { LastDotSpec(s[..|s| - 1]); }
  }

  predicate HasTwoDots(key: string) {
    LastDotSpec(key);
    LastDot(key) >= 0 && LastDot(key[..LastDot(key)]) >= 0
  }

  /** Splits on the rightmost two dots. */
  function SplitKey3(key: string): (string, string, string)
    requires HasTwoDots(key)
  {
    LastDotSpec(key);
    var idx2 := LastDot(key);
    LastDotSpec(key[..idx2]);
    var idx1 := LastDot(key[..idx2]);
    (key[..idx1], key[idx1 + 1..idx2], key[idx2 + 1..])
  }

  lemma DotBefore(prefix: string, tail: string)
    requires '.' !in tail
    ensures LastDot(prefix + "." + tail) == |prefix|
  {
    hide LastDot;
    var s := prefix + "." + tail;
    LastDotSpec(s);
    assert s[|prefix|] == '.';
    assert forall i :: |prefix| < i < |s| ==> s[i] == tail[i - |prefix| - 1];
  }

  lemma JoinHasTwoDots(schema: string, table: string, name: string)
    ensures HasTwoDots(JoinKey(schema, table, name))
  {
    var s := JoinKey(schema, table, name);
    LastDotSpec(s);
    assert s[|schema|] == '.' && s[|schema| + 1 + |table|] == '.';
    var cut := s[..LastDot(s)];
    LastDotSpec(cut);
    assert cut[|schema|] == '.';
  }

  /** Whatever the schema name, the split inverts the join exactly when the table and index names are dot-free. */
  lemma SplitInvertsJoin(schema: string, table: string, name: string)
    ensures HasTwoDots(JoinKey(schema, table, name))
    ensures SplitKey3(JoinKey(schema, table, name)) == (schema, table, name) <==> '.' !in table && '.' !in name
  {
    hide LastDot;
    JoinHasTwoDots(schema, table, name);
    var s := JoinKey(schema, table, name);
    SplitPiecesAreDotFree(s);
    if '.' !in table && '.' !in name {
      var front := schema + "." + table;
      DotBefore(front, name);
      DotBefore(schema, table);
      assert s == front + "." + name && |front| == |schema| + 1 + |table|;
      assert s[..|front|] == front && s[|front| + 1..] == name;
      assert s[..|schema|] == schema && s[|schema| + 1..|front|] == table;
    }
  }

  lemma SplitPiecesAreDotFree(key: string)
    requires HasTwoDots(key)
    ensures '.' !in SplitKey3(key).1 && '.' !in SplitKey3(key).2
  {
    hide LastDot;
    LastDotSpec(key);
    var idx2 := LastDot(key);
    var front := key[..idx2];
    LastDotSpec(front);
    var idx1 := LastDot(front);
    assert SplitKey3(key).1 == front[idx1 + 1..];
  }

  lemma JoinIsInjective(s1: string, t1: string, n1: string, s2: string, t2: string, n2: string)
    requires '.' !in t1 && '.' !in n1 && '.' !in t2 && '.' !in n2
    requires JoinKey(s1, t1, n1) == JoinKey(s2, t2, n2)
    ensures s1 == s2 && t1 == t2 && n1 == n2
  {
    SplitInvertsJoin(s1, t1, n1);
    SplitInvertsJoin(s2, t2, n2);
  }

  /** A dotted name can be taken apart differently from how it was put together. */
  lemma DottedNamesCollide()
    ensures JoinKey("a", "b.c", "d") == JoinKey("a.b", "c", "d")
  {
  }

  // ---------- columns in sequence order ----------

  function Insert<T>(x: (int, T), s: seq<(int, T)>): seq<(int, T)> {
    if s == [] || x.0 < s[0].0 then [x] + s else [s[0]] + Insert(x, s[1..])
  }

  /** Array.prototype.sort by the first component, keeping the order of equal ones. */
  function SortBySeq<T>(s: seq<(int, T)>): seq<(int, T)> {
    if s == [] then [] else Insert(s[|s| - 1], SortBySeq(s[..|s| - 1]))
  }

  ghost predicate DistinctSeq<T>(s: seq<(int, T)>) {
    forall i, j :: 0 <= i < j < |s| ==> s[i].0 != s[j].0
  }

  ghost predicate Ascending<T>(s: seq<(int, T)>) {
    forall i, j :: 0 <= i < j < |s| ==> s[i].0 < s[j].0
  }

  lemma {:induction false} InsertPermutes<T>(x: (int, T), s: seq<(int, T)>)
    ensures multiset(Insert(x, s)) == multiset{x} + multiset(s)
  {
    if s != [] && x.0 >= s[0].0 {
      InsertPermutes(x, s[1..]);
      assert s == [s[0]] + s[1..];
    }
  }

  lemma {:induction false} InsertAscends<T>(x: (int, T), s: seq<(int, T)>)
    requires Ascending(s)
    requires forall i :: 0 <= i < |s| ==> s[i].0 != x.0
    ensures Ascending(Insert(x, s))
    ensures Insert(x, s)[0].0 == if s == [] || x.0 < s[0].0 then x.0 else s[0].0
  {
    if s != [] && x.0 >= s[0].0 {
      InsertAscends(x, s[1..]);
      var rest := Insert(x, s[1..]);
      assert s[0].0 < rest[0].0;
      forall i | 0 <= i < |rest| ensures s[0].0 < rest[i].0 {
        assert i == 0 || rest[0].0 < rest[i].0;
      }
    }
  }

  lemma {:induction false} SortPermutes<T>(s: seq<(int, T)>)
    ensures multiset(SortBySeq(s)) == multiset(s)
  {
    if s != [] {
      var init, x := s[..|s| - 1], s[|s| - 1];
      SortPermutes(init);
      InsertPermutes(x, SortBySeq(init));
      assert s == init + [x];
    }
  }

  /** Sorting strictly orders columns with distinct sequence numbers. */
  lemma {:induction false} SortAscends<T>(s: seq<(int, T)>)
    requires DistinctSeq(s)
    ensures Ascending(SortBySeq(s))
  {
    if s != [] {
      var init, x := s[..|s| - 1], s[|s| - 1];
      var sorted := SortBySeq(init);
      SortAscends(init);
      SortPermutes(init);
      forall i | 0 <= i < |sorted| ensures sorted[i].0 != x.0 {
        assert sorted[i] in multiset(init);
        var j :| 0 <= j < |init| && init[j] == sorted[i];
      }
      InsertAscends(x, sorted);
    }
  }

  lemma SameLeast<T>(a: seq<(int, T)>, b: seq<(int, T)>)
    requires Ascending(a) && Ascending(b) && multiset(a) == multiset(b) && a != [] && b != []
    ensures a[0] == b[0]
  {
    assert a[0] in multiset(b) && b[0] in multiset(a);
    var i :| 0 <= i < |b| && b[i] == a[0];
    var j :| 0 <= j < |a| && a[j] == b[0];
  }

  /** Strictly ascending sequences of the same elements are equal. */
  lemma {:induction false} AscendingIsUnique<T>(a: seq<(int, T)>, b: seq<(int, T)>)
    requires Ascending(a) && Ascending(b) && multiset(a) == multiset(b)
    ensures a == b
  {
    assert |multiset(a)| == |a| && |multiset(b)| == |b|;
    if a != [] {
      SameLeast(a, b);
      WithoutFirst(a);
      WithoutFirst(b);
      AscendingIsUnique(a[1..], b[1..]);
      assert a == [a[0]] + a[1..] && b == [b[0]] + b[1..];
    }
  }

  lemma WithoutFirst<T>(s: seq<(int, T)>)
    requires s != []
    ensures multiset(s[1..]) == multiset(s) - multiset{s[0]}
    ensures Ascending(s) ==> Ascending(s[1..])
  {
    assert s == [s[0]] + s[1..];
    assert multiset(s) == multiset{s[0]} + multiset(s[1..]);
  }

  lemma SortForgetsOrder<T>(a: seq<(int, T)>, b: seq<(int, T)>)
    requires DistinctSeq(a) && DistinctSeq(b) && multiset(a) == multiset(b)
    ensures SortBySeq(a) == SortBySeq(b)
  {
    SortPermutes(a);
    SortPermutes(b);
    SortAscends(a);
    SortAscends(b);
    AscendingIsUnique(SortBySeq(a), SortBySeq(b));
  }

  // ---------- rows grouped by key, in insertion order ----------

  function Group<R>(rows: seq<R>, key: R -> string, k: string): seq<R> {
    if rows == [] then []
    else Group(rows[..|rows| - 1], key, k) + (if key(rows[|rows| - 1]) == k then [rows[|rows| - 1]] else [])
  }

  /** Keys in order of first occurrence: the iteration order of the accumulating Map. */
  function KeysInOrder<R>(rows: seq<R>, key: R -> string): seq<string> {
    if rows == [] then []
    else
      var before, k := KeysInOrder(rows[..|rows| - 1], key), key(rows[|rows| - 1]);
      if k in before then before else before + [k]
  }

  lemma {:induction false} GroupSpec<R>(rows: seq<R>, key: R -> string, k: string)
    ensures forall i :: 0 <= i < |Group(rows, key, k)| ==> Group(rows, key, k)[i] in rows && key(Group(rows, key, k)[i]) == k
    ensures forall r :: r in rows && key(r) == k ==> r in Group(rows, key, k)
  {
    if rows != [] {
      var init, last := rows[..|rows| - 1], rows[|rows| - 1];
      GroupSpec(init, key, k);
      assert rows == init + [last];
    }
  }

  lemma {:induction false} GroupCount<R>(rows: seq<R>, key: R -> string, k: string, r: R)
    ensures multiset(Group(rows, key, k))[r] == if key(r) == k then multiset(rows)[r] else 0
  {
    if rows != [] {
      var init, last := rows[..|rows| - 1], rows[|rows| - 1];
      GroupCount(init, key, k, r);
      assert rows == init + [last];
    }
  }

  lemma {:induction false} KeysSpec<R>(rows: seq<R>, key: R -> string)
    ensures forall k :: k in KeysInOrder(rows, key) <==> exists r :: r in rows && key(r) == k
    ensures forall i, j :: 0 <= i < j < |KeysInOrder(rows, key)| ==> KeysInOrder(rows, key)[i] != KeysInOrder(rows, key)[j]
  {
    if rows != [] {
      var init, last := rows[..|rows| - 1], rows[|rows| - 1];
      KeysSpec(init, key);
      assert rows == init + [last];
      forall k ensures k in KeysInOrder(rows, key) <==> k in KeysInOrder(init, key) || k == key(last) {}
      assert last in rows;
    }
  }

  lemma NothingGrouped<R>(key: R -> string)
    ensures KeysInOrder([], key) == []
  {
  }

  lemma GroupIsEmpty<R>(rows: seq<R>, key: R -> string, k: string)
    ensures Group(rows, key, k) == [] <==> k !in KeysInOrder(rows, key)
  {
    GroupSpec(rows, key, k);
    KeysSpec(rows, key);
    var g := Group(rows, key, k);
    if g != [] { assert g[0] in g; }
  }

  /** One more row joins the group of its key, and its key the end of the list when it is new. */
  lemma OneMoreRow<R>(rows: seq<R>, row: R, key: R -> string)
    ensures forall k :: Group(rows + [row], key, k) == if k == key(row) then Group(rows, key, k) + [row] else Group(rows, key, k)
    ensures KeysInOrder(rows + [row], key) ==
            if key(row) in KeysInOrder(rows, key) then KeysInOrder(rows, key) else KeysInOrder(rows, key) + [key(row)]
  {
    assert (rows + [row])[..|rows|] == rows;
    forall k ensures Group(rows + [row], key, k) == if k == key(row) then Group(rows, key, k) + [row] else Group(rows, key, k) {
      assert Group(rows, key, k) + [] == Group(rows, key, k);
    }
  }

  lemma {:induction false} GroupConcat<R>(a: seq<R>, b: seq<R>, key: R -> string, k: string)
    ensures Group(a + b, key, k) == Group(a, key, k) + Group(b, key, k)
    decreases |b|
  {
    if b == [] {
      assert a + b == a;
    } else {
      assert (a + b)[..|a + b| - 1] == a + b[..|b| - 1];
      GroupConcat(a, b[..|b| - 1], key, k);
    }
  }

  lemma {:induction false} GroupsPermute<R>(a: seq<R>, b: seq<R>, key: R -> string, k: string)
    requires multiset(a) == multiset(b)
    ensures multiset(Group(a, key, k)) == multiset(Group(b, key, k))
    decreases |a|
  {
    hide Group;
    if a == [] {
      assert |multiset(b)| == |b|;
      assert b == a;
    } else {
      var j := RemoveFromBoth(a, b);
      var rest, front, back := a[1..], b[..j], b[j + 1..];
      GroupsPermute(rest, front + back, key, k);
      GroupMoves(a[0], rest, front, back, key, k);
      assert a == [a[0]] + rest && b == front + ([a[0]] + back);
    }
  }

  lemma GroupMoves<R>(x: R, rest: seq<R>, front: seq<R>, back: seq<R>, key: R -> string, k: string)
    requires multiset(Group(rest, key, k)) == multiset(Group(front + back, key, k))
    ensures multiset(Group([x] + rest, key, k)) == multiset(Group(front + ([x] + back), key, k))
  {
    hide Group;
    GroupConcat([x], rest, key, k);
    GroupConcat(front, [x] + back, key, k);
    GroupConcat([x], back, key, k);
    GroupConcat(front, back, key, k);
  }

  /** The (sequence number, payload) pairs of a group. */
  function Pairs<R, T>(rows: seq<R>, pair: R -> (int, T)): (p: seq<(int, T)>)
    ensures |p| == |rows|
  {
    seq(|rows|, i requires 0 <= i < |rows| => pair(rows[i]))
  }

  lemma RemoveAt<R, T>(b: seq<R>, j: nat, pair: R -> (int, T)) returns (rest: seq<R>)
    requires j < |b|
    ensures rest == b[..j] + b[j + 1..]
    ensures multiset(Pairs(b, pair)) == multiset{pair(b[j])} + multiset(Pairs(rest, pair))
  {
    var front, back := b[..j], b[j + 1..];
    rest := front + back;
    assert b == front + [b[j]] + back;
    assert Pairs(b, pair) == Pairs(front, pair) + [pair(b[j])] + Pairs(back, pair);
    assert Pairs(rest, pair) == Pairs(front, pair) + Pairs(back, pair);
  }

  lemma {:induction false} PairsPermute<R, T>(a: seq<R>, b: seq<R>, pair: R -> (int, T))
    requires multiset(a) == multiset(b)
    ensures multiset(Pairs(a, pair)) == multiset(Pairs(b, pair))
    decreases |a|
  {
    hide Pairs;
    if a == [] {
      assert |multiset(b)| == |b|;
    } else {
      var j := RemoveFromBoth(a, b);
      var a' := RemoveAt(a, 0, pair);
      assert a[..0] + a[1..] == a[1..];
      var b' := RemoveAt(b, j, pair);
      PairsPermute(a', b', pair);
    }
  }

  /** Rows that are all different, and differ in sequence number whenever they share a key. */
  ghost predicate DistinctInKey<R, T>(rows: seq<R>, key: R -> string, pair: R -> (int, T)) {
    && (forall r :: r in rows ==> multiset(rows)[r] == 1)
    && (forall r, s :: r in rows && s in rows && key(r) == key(s) && pair(r).0 == pair(s).0 ==> r == s)
  }

  lemma GroupPairsDistinct<R, T>(rows: seq<R>, key: R -> string, pair: R -> (int, T), k: string)
    requires DistinctInKey(rows, key, pair)
    ensures DistinctSeq(Pairs(Group(rows, key, k), pair))
  {
    var g := Group(rows, key, k);
    GroupSpec(rows, key, k);
    forall i, j | 0 <= i < j < |g| ensures pair(g[i]).0 != pair(g[j]).0 {
      assert g[i] in rows && g[j] in rows && key(g[i]) == key(g[j]);
      GroupCount(rows, key, k, g[i]);
      if g[i] == g[j] { CountAt(g, i, j); }
      assert g[i] != g[j];
    }
    assert forall i :: 0 <= i < |g| ==> Pairs(g, pair)[i] == pair(g[i]);
  }

  /** The sorted pairs of a group do not depend on the order of the rows. */
  lemma SortedGroupForgetsOrder<R, T>(a: seq<R>, b: seq<R>, key: R -> string, pair: R -> (int, T), k: string)
    requires multiset(a) == multiset(b) && DistinctInKey(a, key, pair)
    ensures SortBySeq(Pairs(Group(a, key, k), pair)) == SortBySeq(Pairs(Group(b, key, k), pair))
  {
    SameElements(a, b);
    assert DistinctInKey(b, key, pair);
    GroupPairsDistinct(a, key, pair, k);
    GroupPairsDistinct(b, key, pair, k);
    GroupsPermute(a, b, key, k);
    PairsPermute(Group(a, key, k), Group(b, key, k), pair);
    SortForgetsOrder(Pairs(Group(a, key, k), pair), Pairs(Group(b, key, k), pair));
  }

  // ---------- tables ----------

  datatype Index = Index(columns: seq<string>, unique: bool, method_: string)

  datatype ForeignKey = ForeignKey(
    columns: seq<string>, referencedSchema: string, referencedTable: string, referencedColumns: seq<string>,
    onUpdate: string, onDelete: string)

  datatype Table = Table(
    primaryKey: Option<seq<string>>,
    uniqueConstraints: map<string, seq<string>>,
    indexes: map<string, Index>,
    foreignKeys: map<string, ForeignKey>)

  // Tables of the snapshot by schema and table name.
  type Tables = map<(string, string), Table>

  // ---------- index rows ----------

  datatype IndexRow = IndexRow(
    schema: string, table: string, index: string, nonUnique: bool, indexType: string, seqInIndex: int, column: string)

  datatype IndexAggregate = IndexAggregate(unique: bool, method_: string, columns: seq<(int, string)>)

  function IndexKey(r: IndexRow): string {
    JoinKey(r.schema, r.table, r.index)
  }

  function IndexPair(r: IndexRow): (int, string) {
    (r.seqInIndex, r.column)
  }

  // The accumulating Map: keys in insertion order, and their aggregates.
  class Accumulator<A> {
    var order: seq<string>
    var aggregates: map<string, A>

    constructor ()
      ensures order == [] && aggregates == map[]
    {
      order, aggregates := [], map[];
    }
  }

  /** The aggregate of the rows of one key: attributes of the first row, columns of all. */
  function IndexAggregateOf(group: seq<IndexRow>): IndexAggregate
    requires group != []
  {
    IndexAggregate(!group[0].nonUnique, group[0].indexType, Pairs(group, IndexPair))
  }

  ghost predicate HoldsIndexes(order: seq<string>, aggregates: map<string, IndexAggregate>, rows: seq<IndexRow>) {
    && order == KeysInOrder(rows, IndexKey)
    && (forall k :: k in aggregates <==> k in order)
    && forall k :: k in order ==>
         Group(rows, IndexKey, k) != [] && aggregates[k] == IndexAggregateOf(Group(rows, IndexKey, k))
  }

  lemma IndexAggregateSnoc(group: seq<IndexRow>, row: IndexRow)
    ensures IndexAggregateOf(group + [row]) ==
            if group == [] then IndexAggregate(!row.nonUnique, row.indexType, [IndexPair(row)])
            else IndexAggregateOf(group).(columns := IndexAggregateOf(group).columns + [IndexPair(row)])
  {
    assert Pairs(group + [row], IndexPair) == Pairs(group, IndexPair) + [IndexPair(row)];
  }

  method AccumulateIndexRow(row: IndexRow, accum: Accumulator<IndexAggregate>, ghost rows: seq<IndexRow>)
    requires HoldsIndexes(accum.order, accum.aggregates, rows)
    modifies accum
    ensures HoldsIndexes(accum.order, accum.aggregates, rows + [row])
  {
    hide Group, KeysInOrder, Pairs, JoinKey, IndexAggregateOf;
    var key := JoinKey(row.schema, row.table, row.index);
    GroupIsEmpty(rows, IndexKey, key);
    OneMoreRow(rows, row, IndexKey);
    IndexAggregateSnoc(Group(rows, IndexKey, key), row);
    var agg;
    if key in accum.aggregates {
      agg := accum.aggregates[key];
    } else {
      agg := IndexAggregate(!row.nonUnique, row.indexType, []);
      accum.order := accum.order + [key];
    }
    agg := agg.(columns := agg.columns + [(row.seqInIndex, row.column)]);
    accum.aggregates := accum.aggregates[key := agg];
  }

  function Names(pairs: seq<(int, string)>): seq<string> {
    seq(|pairs|, i requires 0 <= i < |pairs| => pairs[i].1)
  }

  function ApplyIndexAggregate(table: Table, name: string, agg: IndexAggregate): Table {
    var columns := Names(SortBySeq(agg.columns));
    if name == "PRIMARY" then table.(primaryKey := Some(columns))
    else
      table.(
        uniqueConstraints := if agg.unique then table.uniqueConstraints[name := columns] else table.uniqueConstraints,
        indexes := table.indexes[name := Index(columns, agg.unique, agg.method_)])
  }

  /** One entry of the apply loop; rows of unknown tables are skipped. */
  function ApplyIndexKey(tables: Tables, key: string, agg: IndexAggregate): Tables
    requires HasTwoDots(key)
  {
    var (schema, table, name) := SplitKey3(key);
    if (schema, table) in tables then
      tables[(schema, table) := ApplyIndexAggregate(tables[(schema, table)], name, agg)]
    else tables
  }

  ghost predicate AreIndexKeys(keys: seq<string>, rows: seq<IndexRow>) {
    forall k :: k in keys ==> HasTwoDots(k) && Group(rows, IndexKey, k) != []
  }

  function ApplyIndexKeys(tables: Tables, keys: seq<string>, rows: seq<IndexRow>): Tables
    requires AreIndexKeys(keys, rows)
  {
    if keys == [] then tables
    else
      var k := keys[|keys| - 1];
      ApplyIndexKey(ApplyIndexKeys(tables, keys[..|keys| - 1], rows), k, IndexAggregateOf(Group(rows, IndexKey, k)))
  }

  lemma ApplyIndexKeysSnoc(tables: Tables, keys: seq<string>, k: string, rows: seq<IndexRow>)
    requires AreIndexKeys(keys + [k], rows)
    ensures AreIndexKeys(keys, rows) && HasTwoDots(k) && Group(rows, IndexKey, k) != []
    ensures ApplyIndexKeys(tables, keys + [k], rows)
            == ApplyIndexKey(ApplyIndexKeys(tables, keys, rows), k, IndexAggregateOf(Group(rows, IndexKey, k)))
  {
    hide Group, IndexAggregateOf, ApplyIndexKey, HasTwoDots;
    assert k in keys + [k];
    assert (keys + [k])[..|keys|] == keys;
  }

  lemma OrderedKeysAreIndexKeys(rows: seq<IndexRow>)
    ensures AreIndexKeys(KeysInOrder(rows, IndexKey), rows)
  {
    KeysSpec(rows, IndexKey);
    forall k | k in KeysInOrder(rows, IndexKey) ensures HasTwoDots(k) && Group(rows, IndexKey, k) != [] {
      GroupIsEmpty(rows, IndexKey, k);
      var r :| r in rows && IndexKey(r) == k;
      JoinHasTwoDots(r.schema, r.table, r.index);
    }
  }

  /** The tables after loading all index rows, in the order the rows arrive. */
  function LoadedIndexes(tables: Tables, rows: seq<IndexRow>): Tables {
    OrderedKeysAreIndexKeys(rows);
    ApplyIndexKeys(tables, KeysInOrder(rows, IndexKey), rows)
  }

  method LoadIndexesAndKeys(rows: seq<IndexRow>, tables: Tables) returns (loaded: Tables)
    ensures loaded == LoadedIndexes(tables, rows)
  {
    hide Group, KeysInOrder, IndexAggregateOf, ApplyIndexKey, HasTwoDots;
    NothingGrouped(IndexKey);
    var accum := new Accumulator<IndexAggregate>();
    for i := 0 to |rows|
      invariant HoldsIndexes(accum.order, accum.aggregates, rows[..i])
    {
      AccumulateIndexRow(rows[i], accum, rows[..i]);
      assert rows[..i + 1] == rows[..i] + [rows[i]];
    }
    assert rows[..|rows|] == rows;
    OrderedKeysAreIndexKeys(rows);
    loaded := tables;
    var order, aggregates := accum.order, accum.aggregates;
    for i := 0 to |order|
      invariant AreIndexKeys(order[..i], rows)
      invariant loaded == ApplyIndexKeys(tables, order[..i], rows)
    {
      var key := order[i];
      assert key in order;
      assert order[..i + 1] == order[..i] + [key];
      ApplyIndexKeysSnoc(tables, order[..i], key, rows);
      loaded := ApplyIndexKey(loaded, key, aggregates[key]);
    }
    assert order[..|order|] == order;
  }

  // ---------- independence of row order ----------

  // What a table says under one index name.
  datatype Slot = Slot(primaryKey: Option<seq<string>>, uniqueConstraint: Option<seq<string>>, index: Option<Index>)

  function SlotOf(table: Table, name: string): Slot {
    Slot(
      if name == "PRIMARY" then table.primaryKey else None,
      if name in table.uniqueConstraints then Some(table.uniqueConstraints[name]) else None,
      if name in table.indexes then Some(table.indexes[name]) else None)
  }

  /** What loading makes of one slot, from the columns of the index in sequence order. */
  function FilledSlot(before: Slot, name: string, columns: seq<string>, unique: bool, method_: string): Slot {
    if name == "PRIMARY" then before.(primaryKey := Some(columns))
    else before.(
      uniqueConstraint := if unique then Some(columns) else before.uniqueConstraint,
      index := Some(Index(columns, unique, method_)))
  }

  ghost predicate DotFree(rows: seq<IndexRow>) {
    forall r :: r in rows ==> '.' !in r.table && '.' !in r.index
  }

  ghost predicate ConstantPerIndex(rows: seq<IndexRow>) {
    forall r, s :: r in rows && s in rows && IndexKey(r) == IndexKey(s) ==>
      r.nonUnique == s.nonUnique && r.indexType == s.indexType
  }

  /** The slot a key fills, seen from one table and index name. */
  function SlotAfter(before: Slot, name: string, agg: IndexAggregate): Slot {
    FilledSlot(before, name, Names(SortBySeq(agg.columns)), agg.unique, agg.method_)
  }

  lemma ApplyAggregateSlots(table: Table, applied: string, agg: IndexAggregate, name: string)
    ensures SlotOf(ApplyIndexAggregate(table, applied, agg), name) ==
            if name == applied then SlotAfter(SlotOf(table, name), name, agg) else SlotOf(table, name)
    ensures ApplyIndexAggregate(table, applied, agg).foreignKeys == table.foreignKeys
  {
  }

  /**
   * The loaded slot of a table under an index name depends only on the rows of that very index; the
   * fold over the keys touches nothing else.
   */
  lemma {:induction false} KeysFillSlots(tables: Tables, keys: seq<string>, rows: seq<IndexRow>, schema: string, table: string, name: string)
    requires AreIndexKeys(keys, rows) && DotFree(rows) && (schema, table) in tables
    requires forall i, j :: 0 <= i < j < |keys| ==> keys[i] != keys[j]
    ensures ApplyIndexKeys(tables, keys, rows).Keys == tables.Keys
    ensures ApplyIndexKeys(tables, keys, rows)[(schema, table)].foreignKeys == tables[(schema, table)].foreignKeys
    ensures SlotOf(ApplyIndexKeys(tables, keys, rows)[(schema, table)], name) ==
            if '.' !in table && '.' !in name && JoinKey(schema, table, name) in keys
            then SlotAfter(SlotOf(tables[(schema, table)], name), name, IndexAggregateOf(Group(rows, IndexKey, JoinKey(schema, table, name))))
            else SlotOf(tables[(schema, table)], name)
    decreases |keys|
  {
    if keys != [] {
      var init, k := keys[..|keys| - 1], keys[|keys| - 1];
      assert keys == init + [k];
      KeysFillSlots(tables, init, rows, schema, table, name);
      var before := ApplyIndexKeys(tables, init, rows);
      var agg := IndexAggregateOf(Group(rows, IndexKey, k));
      GroupSpec(rows, IndexKey, k);
      var r := Group(rows, IndexKey, k)[0];
      assert r in Group(rows, IndexKey, k);
      SplitInvertsJoin(r.schema, r.table, r.index);
      KeyTouchesOneSlot(before, r, agg, schema, table, name);
      if '.' !in table && '.' !in name && JoinKey(schema, table, name) == k {
        JoinIsInjective(schema, table, name, r.schema, r.table, r.index);
      }
      assert k !in init;
    }
  }

  lemma KeyTouchesOneSlot(before: Tables, r: IndexRow, agg: IndexAggregate, schema: string, table: string, name: string)
    requires '.' !in r.table && '.' !in r.index && (schema, table) in before
    ensures HasTwoDots(IndexKey(r))
    ensures var after := ApplyIndexKey(before, IndexKey(r), agg);
            && after.Keys == before.Keys
            && after[(schema, table)].foreignKeys == before[(schema, table)].foreignKeys
            && SlotOf(after[(schema, table)], name) ==
               if schema == r.schema && table == r.table && name == r.index
               then SlotAfter(SlotOf(before[(schema, table)], name), name, agg)
               else SlotOf(before[(schema, table)], name)
  {
    SplitInvertsJoin(r.schema, r.table, r.index);
    if (r.schema, r.table) in before {
      ApplyAggregateSlots(before[(r.schema, r.table)], r.index, agg, name);
    }
  }

  lemma SlotsDetermineTable(a: Table, b: Table)
    requires a.foreignKeys == b.foreignKeys && forall name :: SlotOf(a, name) == SlotOf(b, name)
    ensures a == b
  {
    assert SlotOf(a, "PRIMARY").primaryKey == SlotOf(b, "PRIMARY").primaryKey;
    forall name
      ensures name in a.uniqueConstraints <==> name in b.uniqueConstraints
      ensures name in a.indexes <==> name in b.indexes
      ensures name in a.uniqueConstraints ==> a.uniqueConstraints[name] == b.uniqueConstraints[name]
      ensures name in a.indexes ==> a.indexes[name] == b.indexes[name]
    {
      assert SlotOf(a, name) == SlotOf(b, name);
    }
    assert a.uniqueConstraints == b.uniqueConstraints;
    assert a.indexes == b.indexes;
  }

  /** The assumptions under which the order of the rows must not matter. */
  ghost predicate WellFormedIndexRows(rows: seq<IndexRow>) {
    DotFree(rows) && ConstantPerIndex(rows) && DistinctInKey(rows, IndexKey, IndexPair)
  }

  lemma AggregateForgetsOrder(a: seq<IndexRow>, b: seq<IndexRow>, k: string, before: Slot, name: string)
    requires multiset(a) == multiset(b) && WellFormedIndexRows(a)
    requires Group(a, IndexKey, k) != []
    ensures Group(b, IndexKey, k) != []
    ensures SlotAfter(before, name, IndexAggregateOf(Group(a, IndexKey, k)))
            == SlotAfter(before, name, IndexAggregateOf(Group(b, IndexKey, k)))
  {
    hide Group, SortBySeq, DotFree;
    var ga, gb := Group(a, IndexKey, k), Group(b, IndexKey, k);
    GroupsPermute(a, b, IndexKey, k);
    SameElements(ga, gb);
    SameElements(a, b);
    SortedGroupForgetsOrder(a, b, IndexKey, IndexPair, k);
    GroupSpec(a, IndexKey, k);
    GroupSpec(b, IndexKey, k);
    assert ga[0] in a && gb[0] in a && IndexKey(ga[0]) == IndexKey(gb[0]);
  }

  /** The index snapshot is the same for every order of the catalogue rows. */
  lemma IndexSnapshotForgetsOrder(tables: Tables, a: seq<IndexRow>, b: seq<IndexRow>)
    requires multiset(a) == multiset(b) && WellFormedIndexRows(a)
    ensures LoadedIndexes(tables, a) == LoadedIndexes(tables, b)
  {
    hide ApplyIndexKeys, KeysInOrder, Group, SlotAfter, ConstantPerIndex, DistinctInKey;
    SameElements(a, b);
    var ka, kb := KeysInOrder(a, IndexKey), KeysInOrder(b, IndexKey);
    KeysSpec(a, IndexKey);
    KeysSpec(b, IndexKey);
    OrderedKeysAreIndexKeys(a);
    OrderedKeysAreIndexKeys(b);
    var la, lb := ApplyIndexKeys(tables, ka, a), ApplyIndexKeys(tables, kb, b);
    TablesStay(tables, ka, a);
    TablesStay(tables, kb, b);
    forall t | t in tables ensures la[t] == lb[t] {
      forall name ensures SlotOf(la[t], name) == SlotOf(lb[t], name) {
        KeysFillSlots(tables, ka, a, t.0, t.1, name);
        KeysFillSlots(tables, kb, b, t.0, t.1, name);
        var k := JoinKey(t.0, t.1, name);
        if k in ka { AggregateForgetsOrder(a, b, k, SlotOf(tables[t], name), name); }
      }
      KeysFillSlots(tables, ka, a, t.0, t.1, "");
      KeysFillSlots(tables, kb, b, t.0, t.1, "");
      SlotsDetermineTable(la[t], lb[t]);
    }
    assert la == lb;
  }

  lemma {:induction false} TablesStay(tables: Tables, keys: seq<string>, rows: seq<IndexRow>)
    requires AreIndexKeys(keys, rows)
    ensures ApplyIndexKeys(tables, keys, rows).Keys == tables.Keys
    decreases |keys|
  {
    if keys != [] { TablesStay(tables, keys[..|keys| - 1], rows); }
  }

  /** Each index lists its columns strictly by sequence number, all of them and nothing else. */
  lemma ColumnsInSequenceOrder(tables: Tables, rows: seq<IndexRow>, schema: string, table: string, name: string)
    returns (columns: seq<(int, string)>)
    requires WellFormedIndexRows(rows) && (schema, table) in tables && '.' !in table && '.' !in name
    requires Group(rows, IndexKey, JoinKey(schema, table, name)) != []
    ensures Ascending(columns)
    ensures multiset(columns) == multiset(Pairs(Group(rows, IndexKey, JoinKey(schema, table, name)), IndexPair))
    ensures (schema, table) in LoadedIndexes(tables, rows)
    ensures var t := LoadedIndexes(tables, rows)[(schema, table)];
            var first := Group(rows, IndexKey, JoinKey(schema, table, name))[0];
            && |Names(columns)| == |columns| && (forall i :: 0 <= i < |columns| ==> Names(columns)[i] == columns[i].1)
            &&
            var unique := !first.nonUnique;
            if name == "PRIMARY" then t.primaryKey == Some(Names(columns))
            else
              && name in t.indexes && t.indexes[name] == Index(Names(columns), unique, first.indexType)
              && (unique ==> name in t.uniqueConstraints && t.uniqueConstraints[name] == Names(columns))
              && (!unique && name in t.uniqueConstraints ==>
                    name in tables[(schema, table)].uniqueConstraints
                    && t.uniqueConstraints[name] == tables[(schema, table)].uniqueConstraints[name])
  {
    hide ApplyIndexKeys, KeysInOrder, Group, SortBySeq;
    var k := JoinKey(schema, table, name);
    var pairs := Pairs(Group(rows, IndexKey, k), IndexPair);
    columns := SortBySeq(pairs);
    GroupPairsDistinct(rows, IndexKey, IndexPair, k);
    SortAscends(pairs);
    SortPermutes(pairs);
    GroupIsEmpty(rows, IndexKey, k);
    KeysSpec(rows, IndexKey);
    OrderedKeysAreIndexKeys(rows);
    KeysFillSlots(tables, KeysInOrder(rows, IndexKey), rows, schema, table, name);
    var filled := SlotOf(LoadedIndexes(tables, rows)[(schema, table)], name);
    assert if name == "PRIMARY" then filled.primaryKey == Some(Names(columns)) else filled.index.Some?;
  }

  // ---------- foreign keys ----------

  datatype FkRow = FkRow(
    schema: string, table: string, name: string, refSchema: string, refTable: string,
    updateRule: string, deleteRule: string, ord: int, column: string, refColumn: string)

  datatype FkAggregate = FkAggregate(
    schema: string, table: string, name: string, refSchema: string, refTable: string,
    onUpdate: string, onDelete: string, columns: seq<(int, (string, string))>)

  function Upper(s: string): string {
    seq(|s|, i requires 0 <= i < |s| => if 'a' <= s[i] <= 'z' then (s[i] as int - 32) as char else s[i])
  }

  function NormalizeAction(action: string): string {
    if Upper(action) in {"NO ACTION", "RESTRICT", "CASCADE", "SET NULL", "SET DEFAULT"} then Upper(action) else "NO ACTION"
  }

  /** The same letters, whatever their case. */
  predicate SameLetters(s: string, upper: string) {
    |s| == |upper| && forall i :: 0 <= i < |s| ==> s[i] == upper[i] || ('A' <= upper[i] <= 'Z' && s[i] as int == upper[i] as int + 32)
  }

  /** An action is one of the five, recognised in any letter case; anything else counts as NO ACTION. */
  lemma ActionIs(action: string)
    ensures forall name :: name in {"NO ACTION", "RESTRICT", "CASCADE", "SET NULL", "SET DEFAULT"} && SameLetters(action, name) ==>
              NormalizeAction(action) == name
    ensures (forall name :: name in {"NO ACTION", "RESTRICT", "CASCADE", "SET NULL", "SET DEFAULT"} ==> !SameLetters(action, name)) ==>
              NormalizeAction(action) == "NO ACTION"
  {
    var names := {"NO ACTION", "RESTRICT", "CASCADE", "SET NULL", "SET DEFAULT"};
    forall name | name in names ensures SameLetters(action, name) <==> Upper(action) == name {
      UpperSpaces(name);
      SameLettersIff(action, name);
    }
    hide SameLetters, Upper;
  }

  lemma UpperSpaces(name: string)
    requires name in {"NO ACTION", "RESTRICT", "CASCADE", "SET NULL", "SET DEFAULT"}
    ensures forall i :: 0 <= i < |name| ==> 'A' <= name[i] <= 'Z' || name[i] == ' '
  {
  }

  lemma SameLettersIff(s: string, upper: string)
    requires forall i :: 0 <= i < |upper| ==> 'A' <= upper[i] <= 'Z' || upper[i] == ' '
    ensures SameLetters(s, upper) <==> Upper(s) == upper
  {
    if |s| == |upper| {
      forall i | 0 <= i < |s|
        ensures Upper(s)[i] == upper[i] <==> s[i] == upper[i] || ('A' <= upper[i] <= 'Z' && s[i] as int == upper[i] as int + 32)
      {}
      if Upper(s) == upper { assert SameLetters(s, upper) by { assert forall i :: 0 <= i < |s| ==> Upper(s)[i] == upper[i]; } }
    }
  }

  function FkKey(r: FkRow): string {
    JoinKey(r.schema, r.table, r.name)
  }

  function FkPair(r: FkRow): (int, (string, string)) {
    (r.ord, (r.column, r.refColumn))
  }

  function FkAggregateOf(group: seq<FkRow>): FkAggregate
    requires group != []
  {
    var r := group[0];
    FkAggregate(r.schema, r.table, r.name, r.refSchema, r.refTable,
      NormalizeAction(r.updateRule), NormalizeAction(r.deleteRule), Pairs(group, FkPair))
  }

  ghost predicate HoldsFks(order: seq<string>, aggregates: map<string, FkAggregate>, rows: seq<FkRow>) {
    && order == KeysInOrder(rows, FkKey)
    && (forall k :: k in aggregates <==> k in order)
    && forall k :: k in order ==>
         Group(rows, FkKey, k) != [] && aggregates[k] == FkAggregateOf(Group(rows, FkKey, k))
  }

  lemma FkAggregateSnoc(group: seq<FkRow>, row: FkRow)
    ensures FkAggregateOf(group + [row]) ==
            if group == [] then
              FkAggregate(row.schema, row.table, row.name, row.refSchema, row.refTable,
                NormalizeAction(row.updateRule), NormalizeAction(row.deleteRule), [FkPair(row)])
            else FkAggregateOf(group).(columns := FkAggregateOf(group).columns + [FkPair(row)])
  {
    hide NormalizeAction;
    assert Pairs(group + [row], FkPair) == Pairs(group, FkPair) + [FkPair(row)];
  }

  method AccumulateFkRow(row: FkRow, accum: Accumulator<FkAggregate>, ghost rows: seq<FkRow>)
    requires HoldsFks(accum.order, accum.aggregates, rows)
    modifies accum
    ensures HoldsFks(accum.order, accum.aggregates, rows + [row])
  {
    hide Group, KeysInOrder, Pairs, JoinKey, FkAggregateOf, NormalizeAction;
    var key := JoinKey(row.schema, row.table, row.name);
    GroupIsEmpty(rows, FkKey, key);
    OneMoreRow(rows, row, FkKey);
    FkAggregateSnoc(Group(rows, FkKey, key), row);
    var agg;
    if key in accum.aggregates {
      agg := accum.aggregates[key];
    } else {
      agg := FkAggregate(row.schema, row.table, row.name, row.refSchema, row.refTable,
        NormalizeAction(row.updateRule), NormalizeAction(row.deleteRule), []);
      accum.order := accum.order + [key];
    }
    agg := agg.(columns := agg.columns + [(row.ord, (row.column, row.refColumn))]);
    accum.aggregates := accum.aggregates[key := agg];
  }

  function ToForeignKey(agg: FkAggregate): ForeignKey {
    var sorted := SortBySeq(agg.columns);
    ForeignKey(
      seq(|sorted|, i requires 0 <= i < |sorted| => sorted[i].1.0), agg.refSchema, agg.refTable,
      seq(|sorted|, i requires 0 <= i < |sorted| => sorted[i].1.1), agg.onUpdate, agg.onDelete)
  }

  function ApplyFk(tables: Tables, agg: FkAggregate): Tables {
    if (agg.schema, agg.table) in tables then
      var table := tables[(agg.schema, agg.table)];
      tables[(agg.schema, agg.table) := table.(foreignKeys := table.foreignKeys[agg.name := ToForeignKey(agg)])]
    else tables
  }

  ghost predicate AreFkKeys(keys: seq<string>, rows: seq<FkRow>) {
    forall k :: k in keys ==> Group(rows, FkKey, k) != []
  }

  function ApplyFks(tables: Tables, keys: seq<string>, rows: seq<FkRow>): Tables
    requires AreFkKeys(keys, rows)
  {
    if keys == [] then tables
    else ApplyFk(ApplyFks(tables, keys[..|keys| - 1], rows), FkAggregateOf(Group(rows, FkKey, keys[|keys| - 1])))
  }

  lemma ApplyFksSnoc(tables: Tables, keys: seq<string>, k: string, rows: seq<FkRow>)
    requires AreFkKeys(keys + [k], rows)
    ensures AreFkKeys(keys, rows) && Group(rows, FkKey, k) != []
    ensures ApplyFks(tables, keys + [k], rows) == ApplyFk(ApplyFks(tables, keys, rows), FkAggregateOf(Group(rows, FkKey, k)))
  {
    hide Group, FkAggregateOf, ApplyFk;
    assert k in keys + [k];
    assert (keys + [k])[..|keys|] == keys;
  }

  lemma OrderedKeysAreFkKeys(rows: seq<FkRow>)
    ensures AreFkKeys(KeysInOrder(rows, FkKey), rows)
  {
    forall k | k in KeysInOrder(rows, FkKey) ensures Group(rows, FkKey, k) != [] { GroupIsEmpty(rows, FkKey, k); }
  }

  function LoadedForeignKeys(tables: Tables, rows: seq<FkRow>): Tables {
    OrderedKeysAreFkKeys(rows);
    ApplyFks(tables, KeysInOrder(rows, FkKey), rows)
  }

  method LoadForeignKeys(rows: seq<FkRow>, tables: Tables) returns (loaded: Tables)
    ensures loaded == LoadedForeignKeys(tables, rows)
  {
    hide Group, KeysInOrder, FkAggregateOf, ApplyFk;
    NothingGrouped(FkKey);
    var accum := new Accumulator<FkAggregate>();
    for i := 0 to |rows|
      invariant HoldsFks(accum.order, accum.aggregates, rows[..i])
    {
      AccumulateFkRow(rows[i], accum, rows[..i]);
      assert rows[..i + 1] == rows[..i] + [rows[i]];
    }
    assert rows[..|rows|] == rows;
    loaded := tables;
    var order, aggregates := accum.order, accum.aggregates;
    for i := 0 to |order|
      invariant AreFkKeys(order[..i], rows)
      invariant loaded == ApplyFks(tables, order[..i], rows)
    {
      var key := order[i];
      assert key in order;
      assert order[..i + 1] == order[..i] + [key];
      ApplyFksSnoc(tables, order[..i], key, rows);
      loaded := ApplyFk(loaded, aggregates[key]);
    }
    assert order[..|order|] == order;
  }

  ghost predicate WellFormedFkRows(rows: seq<FkRow>) {
    && (forall r :: r in rows ==> '.' !in r.table && '.' !in r.name)
    && (forall r, s :: r in rows && s in rows && FkKey(r) == FkKey(s) ==>
          r.refSchema == s.refSchema && r.refTable == s.refTable && r.updateRule == s.updateRule && r.deleteRule == s.deleteRule)
    && DistinctInKey(rows, FkKey, FkPair)
  }

  function FkSlot(tables: Tables, schema: string, table: string, name: string): Option<ForeignKey> {
    if (schema, table) in tables && name in tables[(schema, table)].foreignKeys
    then Some(tables[(schema, table)].foreignKeys[name]) else None
  }

  /** Applying the keys fills exactly the constraints they name, and changes nothing else of any table. */
  lemma {:induction false} KeysFillForeignKeys(tables: Tables, keys: seq<string>, rows: seq<FkRow>, schema: string, table: string, name: string)
    requires AreFkKeys(keys, rows) && (schema, table) in tables
    requires forall r :: r in rows ==> '.' !in r.table && '.' !in r.name
    requires forall i, j :: 0 <= i < j < |keys| ==> keys[i] != keys[j]
    ensures ApplyFks(tables, keys, rows).Keys == tables.Keys
    ensures ApplyFks(tables, keys, rows)[(schema, table)].(foreignKeys := map[]) == tables[(schema, table)].(foreignKeys := map[])
    ensures FkSlot(ApplyFks(tables, keys, rows), schema, table, name) ==
            if '.' !in table && '.' !in name && JoinKey(schema, table, name) in keys
            then Some(ToForeignKey(FkAggregateOf(Group(rows, FkKey, JoinKey(schema, table, name)))))
            else FkSlot(tables, schema, table, name)
    decreases |keys|
  {
    if keys != [] {
      hide ToForeignKey, Pairs, ApplyFk, FkSlot, Group, JoinKey;
      var init, k := keys[..|keys| - 1], keys[|keys| - 1];
      assert keys == init + [k];
      KeysFillForeignKeys(tables, init, rows, schema, table, name);
      GroupSpec(rows, FkKey, k);
      var r := Group(rows, FkKey, k)[0];
      assert r in rows && FkKey(r) == k;
      ApplyFksSnoc(tables, init, k, rows);
      FkTouchesOneSlot(ApplyFks(tables, init, rows), FkAggregateOf(Group(rows, FkKey, k)), schema, table, name);
      if '.' !in table && '.' !in name && JoinKey(schema, table, name) == k {
        JoinIsInjective(schema, table, name, r.schema, r.table, r.name);
      }
      assert k !in init;
    }
  }

  lemma FkTouchesOneSlot(before: Tables, agg: FkAggregate, schema: string, table: string, name: string)
    requires (schema, table) in before
    ensures var after := ApplyFk(before, agg);
            && after.Keys == before.Keys
            && after[(schema, table)].(foreignKeys := map[]) == before[(schema, table)].(foreignKeys := map[])
            && FkSlot(after, schema, table, name) ==
               if schema == agg.schema && table == agg.table && name == agg.name then Some(ToForeignKey(agg))
               else FkSlot(before, schema, table, name)
  {
    hide ToForeignKey;
  }

  lemma FkAggregateForgetsOrder(a: seq<FkRow>, b: seq<FkRow>, k: string)
    requires multiset(a) == multiset(b) && WellFormedFkRows(a)
    requires Group(a, FkKey, k) != []
    ensures Group(b, FkKey, k) != []
    ensures ToForeignKey(FkAggregateOf(Group(a, FkKey, k))) == ToForeignKey(FkAggregateOf(Group(b, FkKey, k)))
  {
    hide Group, SortBySeq, NormalizeAction;
    var ga, gb := Group(a, FkKey, k), Group(b, FkKey, k);
    GroupsPermute(a, b, FkKey, k);
    SameElements(ga, gb);
    SameElements(a, b);
    SortedGroupForgetsOrder(a, b, FkKey, FkPair, k);
    GroupSpec(a, FkKey, k);
    GroupSpec(b, FkKey, k);
    assert ga[0] in a && gb[0] in a && FkKey(ga[0]) == FkKey(gb[0]);
  }

  /** Each foreign key pairs its columns with the referenced ones, strictly by ordinal position, all and only its own. */
  lemma ForeignKeyColumnsInOrder(tables: Tables, rows: seq<FkRow>, schema: string, table: string, name: string)
    returns (pairs: seq<(int, (string, string))>)
    requires WellFormedFkRows(rows) && (schema, table) in tables && '.' !in table && '.' !in name
    requires Group(rows, FkKey, JoinKey(schema, table, name)) != []
    ensures Ascending(pairs)
    ensures multiset(pairs) == multiset(Pairs(Group(rows, FkKey, JoinKey(schema, table, name)), FkPair))
    ensures FkSlot(LoadedForeignKeys(tables, rows), schema, table, name).Some?
    ensures var fk := FkSlot(LoadedForeignKeys(tables, rows), schema, table, name).value;
            && |fk.columns| == |pairs| && |fk.referencedColumns| == |pairs|
            && (forall i :: 0 <= i < |pairs| ==> (fk.columns[i], fk.referencedColumns[i]) == pairs[i].1)
            && forall r :: r in rows && FkKey(r) == JoinKey(schema, table, name) ==>
                 && fk.referencedSchema == r.refSchema && fk.referencedTable == r.refTable
                 && fk.onUpdate == NormalizeAction(r.updateRule) && fk.onDelete == NormalizeAction(r.deleteRule)
  {
    hide ApplyFks, KeysInOrder, Group, SortBySeq, FkSlot;
    var k := JoinKey(schema, table, name);
    var listed := Pairs(Group(rows, FkKey, k), FkPair);
    pairs := SortBySeq(listed);
    GroupPairsDistinct(rows, FkKey, FkPair, k);
    SortAscends(listed);
    SortPermutes(listed);
    GroupIsEmpty(rows, FkKey, k);
    KeysSpec(rows, FkKey);
    OrderedKeysAreFkKeys(rows);
    KeysFillForeignKeys(tables, KeysInOrder(rows, FkKey), rows, schema, table, name);
    GroupSpec(rows, FkKey, k);
    var first := Group(rows, FkKey, k)[0];
    assert first in rows && FkKey(first) == k;
  }

  /** The foreign-key snapshot is the same for every order of the catalogue rows. */
  lemma ForeignKeySnapshotForgetsOrder(tables: Tables, a: seq<FkRow>, b: seq<FkRow>)
    requires multiset(a) == multiset(b) && WellFormedFkRows(a)
    ensures LoadedForeignKeys(tables, a) == LoadedForeignKeys(tables, b)
  {
    hide ApplyFks, KeysInOrder, Group, ToForeignKey, DistinctInKey;
    SameElements(a, b);
    var ka, kb := KeysInOrder(a, FkKey), KeysInOrder(b, FkKey);
    KeysSpec(a, FkKey);
    KeysSpec(b, FkKey);
    OrderedKeysAreFkKeys(a);
    OrderedKeysAreFkKeys(b);
    var la, lb := ApplyFks(tables, ka, a), ApplyFks(tables, kb, b);
    FkTablesStay(tables, ka, a);
    FkTablesStay(tables, kb, b);
    forall t | t in tables ensures la[t] == lb[t] {
      forall name ensures FkSlot(la, t.0, t.1, name) == FkSlot(lb, t.0, t.1, name) {
        KeysFillForeignKeys(tables, ka, a, t.0, t.1, name);
        KeysFillForeignKeys(tables, kb, b, t.0, t.1, name);
        if JoinKey(t.0, t.1, name) in ka { FkAggregateForgetsOrder(a, b, JoinKey(t.0, t.1, name)); }
      }
      KeysFillForeignKeys(tables, ka, a, t.0, t.1, "");
      KeysFillForeignKeys(tables, kb, b, t.0, t.1, "");
      SameForeignKeys(la, lb, t.0, t.1);
    }
    assert la == lb;
  }

  lemma {:induction false} FkTablesStay(tables: Tables, keys: seq<string>, rows: seq<FkRow>)
    requires AreFkKeys(keys, rows)
    ensures ApplyFks(tables, keys, rows).Keys == tables.Keys
    decreases |keys|
  {
    if keys != [] { FkTablesStay(tables, keys[..|keys| - 1], rows); }
  }

  lemma SameForeignKeys(la: Tables, lb: Tables, schema: string, table: string)
    requires (schema, table) in la && (schema, table) in lb
    requires forall name :: FkSlot(la, schema, table, name) == FkSlot(lb, schema, table, name)
    requires la[(schema, table)].(foreignKeys := map[]) == lb[(schema, table)].(foreignKeys := map[])
    ensures la[(schema, table)] == lb[(schema, table)]
  {
    var m, n := la[(schema, table)].foreignKeys, lb[(schema, table)].foreignKeys;
    forall name ensures name in m <==> name in n
                ensures name in m ==> m[name] == n[name]
    {
      assert FkSlot(la, schema, table, name) == FkSlot(lb, schema, table, name);
    }
    assert m == n;
  }
}
