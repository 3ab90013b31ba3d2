/** Many keyed row updates compiled into one UPDATE ... FROM (VALUES ...) statement. */
module BulkUpdate {
  import opened JsText
  import opened SeqFacts

  const ENTRIES_LIMIT: nat := 1000
  const BIND_PARAMETERS_LIMIT: nat := 65535

  datatype Value = Undefined | Null | Val(repr: string)

  // A plain JavaScript object: own keys in insertion order and their values.
  datatype RawRecord = Record(keys: seq<string>, vals: map<string, Value>) {
    ghost predicate Valid() {
      Distinct(keys) && forall k :: k in keys <==> k in vals
    }
  }

  type Record = r: RawRecord | r.Valid() witness RawRecord.Record([], map[])

  predicate Distinct<T(==)>(s: seq<T>) {
    forall i, j :: 0 <= i < j < |s| ==> s[i] != s[j]
  }

  function Get(r: Record, name: string): Value {
    if name in r.vals then r.vals[name] else Undefined
  }

  datatype Entry = Entry(where: Record, data: Record)

  datatype Column = Column(name: string, sqlType: string)

  // A bound, cast cell of the statement; also what the table stores.
  datatype Cell = SqlNull | Bound(repr: string, json: bool, sqlType: string)

  datatype Error =
    | EmptyEntries
    | TooManyEntries
    | MissingType(name: string)
    | EmptyWhere
    | EmptyData
    | UndefinedWhere(name: string)
    | OverlappingColumn(name: string)
    | TooManyParameters(count: nat)
    | WhereColumnsDiffer(index: nat)
    | WhereColumnMissing(name: string, index: nat)
    | DataColumnsDiffer(index: nat)
    | DataColumnMissing(name: string, index: nat)

  // SET list, VALUES rows, alias list and WHERE conjunction of the generated statement.
  datatype Statement = Statement(
    setColumns: seq<Column>, rows: seq<seq<Cell>>, aliases: seq<string>, whereColumns: seq<Column>)

  function RenderTypedValue(v: Value, sqlType: string): Cell {
    match v
    case Val(repr) => Bound(repr, sqlType == "json" || sqlType == "jsonb", sqlType)
    case _ => SqlNull
  }

  function Defined(r: Record, names: seq<string>): seq<string> {
    if names == [] then []
    else (if Get(r, names[0]) != Undefined then [names[0]] else []) + Defined(r, names[1..])
  }

  function DefinedColumnNames(r: Record): seq<string> {
    Defined(r, r.keys)
  }

  function ResolveColumns(types: map<string, string>, names: seq<string>): Result<seq<Column>, Error> {
    if names == [] then Ok([])
    else if names[0] !in types || types[names[0]] == "" then Err(MissingType(names[0]))
    else
      match ResolveColumns(types, names[1..])
      case Err(e) => Err(e)
      case Ok(rest) => Ok([Column(names[0], types[names[0]])] + rest)
  }

  function FindName(names: seq<string>, p: string -> bool): Option<string> {
    if names == [] then None
    else if p(names[0]) then Some(names[0])
    else FindName(names[1..], p)
  }

  function Names(columns: seq<Column>): (names: seq<string>)
    ensures |names| == |columns|
    ensures forall i :: 0 <= i < |columns| ==> names[i] == columns[i].name
  {
    seq(|columns|, i requires 0 <= i < |columns| => columns[i].name)
  }

  function Cells(r: Record, columns: seq<Column>): (cells: seq<Cell>)
    ensures |cells| == |columns|
  {
    seq(|columns|, i requires 0 <= i < |columns| => RenderTypedValue(Get(r, columns[i].name), columns[i].sqlType))
  }

  /** One row of the VALUES list, or why the entry does not have the shape of the first entry. */
  function PrepareValues(entry: Entry, index: nat, where: seq<Column>, data: seq<Column>): Result<seq<Cell>, Error> {
    if |where| != |entry.where.keys| then Err(WhereColumnsDiffer(index))
    else
      match FindName(Names(where), name => Get(entry.where, name) == Undefined)
      case Some(name) => Err(WhereColumnMissing(name, index))
      case None =>
        if |data| != |DefinedColumnNames(entry.data)| then Err(DataColumnsDiffer(index))
        else
          match FindName(Names(data), name => Get(entry.data, name) == Undefined)
          case Some(name) => Err(DataColumnMissing(name, index))
          case None => Ok(Cells(entry.where, where) + Cells(entry.data, data))
  }

  function PrepareAll(entries: seq<Entry>, index: nat, where: seq<Column>, data: seq<Column>): Result<seq<seq<Cell>>, Error>
    requires index <= |entries|
    decreases |entries| - index
  {
    if index == |entries| then Ok([])
    else
      match PrepareValues(entries[index], index, where, data)
      case Err(e) => Err(e)
      case Ok(row) =>
        match PrepareAll(entries, index + 1, where, data)
        case Err(e) => Err(e)
        case Ok(rest) => Ok([row] + rest)
  }

  /** The whole compilation, checks in source order. */
  function Compile(types: map<string, string>, entries: seq<Entry>): Result<Statement, Error> {
    if entries == [] then Err(EmptyEntries)
    else if |entries| > ENTRIES_LIMIT then Err(TooManyEntries)
    else
      var first := entries[0];
      match ResolveColumns(types, first.where.keys)
      case Err(e) => Err(e)
      case Ok(where) =>
        match ResolveColumns(types, DefinedColumnNames(first.data))
        case Err(e) => Err(e)
        case Ok(data) => CompileColumns(entries, where, data)
  }

  function CompileColumns(entries: seq<Entry>, where: seq<Column>, data: seq<Column>): Result<Statement, Error>
    requires entries != []
  {
    var first := entries[0];
    if where == [] then Err(EmptyWhere)
    else if data == [] then Err(EmptyData)
    else
      // A column named "" is falsy in the source's test; the row loop still rejects it.
      var undef := FindName(first.where.keys, name => Get(first.where, name) == Undefined);
      if undef.Some? && undef.value != "" then Err(UndefinedWhere(undef.value))
      else
        match FindName(Names(data), name => name in Names(where))
        case Some(name) => Err(OverlappingColumn(name))
        case None =>
          var count := |entries| * (|where| + |data|);
          if count > BIND_PARAMETERS_LIMIT then Err(TooManyParameters(count))
          else
            match PrepareAll(entries, 0, where, data)
            case Err(e) => Err(e)
            case Ok(rows) => Ok(Statement(data, rows, Names(where) + Names(data), where))
  }

  // ---------- what the statement does to a table ----------

  type Row = map<string, Cell>

  /** The cell a VALUES row holds under an alias. */
  function CellOf(stmt: Statement, j: nat, name: string): Cell
    requires j < |stmt.rows| && |stmt.rows[j]| == |stmt.aliases|
  {
    Lookup(stmt.aliases, stmt.rows[j], name)
  }

  function Lookup(aliases: seq<string>, cells: seq<Cell>, name: string): Cell
    requires |aliases| == |cells|
  {
    if aliases == [] then SqlNull
    else if aliases[0] == name then cells[0]
    else Lookup(aliases[1..], cells[1..], name)
  }

  ghost predicate Rectangular(stmt: Statement) {
    forall j :: 0 <= j < |stmt.rows| ==> |stmt.rows[j]| == |stmt.aliases|
  }

  /** The WHERE conjunction; SQL equality with NULL on either side is never true. */
  ghost predicate Joins(stmt: Statement, j: nat, row: Row)
    requires j < |stmt.rows| && Rectangular(stmt)
  {
    forall c :: c in stmt.whereColumns ==>
      c.name in row && row[c.name] != SqlNull && row[c.name] == CellOf(stmt, j, c.name)
  }

  function Assign(stmt: Statement, j: nat, row: Row, set_: seq<Column>): Row
    requires j < |stmt.rows| && |stmt.rows[j]| == |stmt.aliases|
    decreases |set_|
  {
    if set_ == [] then row
    else Assign(stmt, j, row[set_[0].name := CellOf(stmt, j, set_[0].name)], set_[1..])
  }

  /**
   * Every table the database may produce: a row no VALUES row joins stays, a joined row is
   * assigned from one VALUES row that joins it (SQL leaves open which, when several do).
   */
  ghost predicate Outcome(stmt: Statement, before: seq<Row>, after: seq<Row>) {
    && Rectangular(stmt)
    && |after| == |before|
    && forall i :: 0 <= i < |before| ==> RowOutcome(stmt, before[i], after[i])
  }

  ghost predicate RowOutcome(stmt: Statement, before: Row, after: Row)
    requires Rectangular(stmt)
  {
    || ((forall j :: 0 <= j < |stmt.rows| ==> !Joins(stmt, j, before)) && after == before)
    || exists j :: 0 <= j < |stmt.rows| && Joins(stmt, j, before) && after == Assign(stmt, j, before, stmt.setColumns)
  }

  // ---------- reference meaning: one keyed update at a time ----------

  function TypeOf(types: map<string, string>, name: string): string {
    if name in types then types[name] else ""
  }

  function Rendered(types: map<string, string>, r: Record, name: string): Cell {
    RenderTypedValue(Get(r, name), TypeOf(types, name))
  }

  ghost predicate Matches(types: map<string, string>, e: Entry, row: Row) {
    forall k :: k in e.where.vals ==> k in row && row[k] != SqlNull && row[k] == Rendered(types, e.where, k)
  }

  /** Undefined data values leave their columns alone, null ones write SQL NULL. */
  ghost function Updated(types: map<string, string>, e: Entry, row: Row): Row {
    row + map k | k in e.data.vals && e.data.vals[k] != Undefined :: Rendered(types, e.data, k)
  }

  ghost function ApplyRow(types: map<string, string>, entries: seq<Entry>, row: Row): Row {
    if entries == [] then row
    else ApplyRow(types, entries[1..], if Matches(types, entries[0], row) then Updated(types, entries[0], row) else row)
  }

  ghost function ApplyEntry(types: map<string, string>, e: Entry, table: seq<Row>): seq<Row> {
    seq(|table|, i requires 0 <= i < |table| => if Matches(types, e, table[i]) then Updated(types, e, table[i]) else table[i])
  }

  /** The entries applied to the whole table one after the other. */
  ghost function ApplyAll(types: map<string, string>, entries: seq<Entry>, table: seq<Row>): seq<Row> {
    if entries == [] then table else ApplyAll(types, entries[1..], ApplyEntry(types, entries[0], table))
  }

  /** The rendered where tuples of two entries differ somewhere. */
  ghost predicate TuplesDiffer(types: map<string, string>, d: Entry, e: Entry) {
    exists k :: k in d.where.vals && Rendered(types, d.where, k) != Rendered(types, e.where, k)
  }

  ghost predicate DistinctTuples(types: map<string, string>, entries: seq<Entry>) {
    forall i, j :: 0 <= i < j < |entries| ==> TuplesDiffer(types, entries[i], entries[j])
  }

  /** Two entries with the same rendered where tuple, without a null in it: they match the same rows. */
  ghost predicate SameTuple(types: map<string, string>, d: Entry, e: Entry) {
    forall k :: k in d.where.vals ==>
      Rendered(types, d.where, k) == Rendered(types, e.where, k) && Rendered(types, d.where, k) != SqlNull
  }

  ghost predicate SameChange(types: map<string, string>, d: Entry, e: Entry) {
    forall k :: Get(d.data, k) != Undefined ==> Rendered(types, d.data, k) == Rendered(types, e.data, k)
  }

  /** Entries that match the same rows write the same values. */
  ghost predicate Consistent(types: map<string, string>, entries: seq<Entry>) {
    forall d, e :: d in entries && e in entries && SameTuple(types, d, e) ==> SameChange(types, d, e)
  }

  // ---------- which entry lists are accepted ----------

  ghost predicate SameWhere(first: Record, where: Record) {
    && (forall k :: k in where.keys <==> k in first.keys)
    && (forall k :: k in where.keys ==> Get(where, k) != Undefined)
  }

  ghost predicate SameData(first: Record, data: Record) {
    forall k :: Get(data, k) != Undefined <==> Get(first, k) != Undefined
  }

  /** The entry has defined where values and exactly the columns of the first entry. */
  ghost predicate SameShape(first: Entry, e: Entry) {
    SameWhere(first.where, e.where) && SameData(first.data, e.data)
  }

  ghost predicate Acceptable(types: map<string, string>, entries: seq<Entry>) {
    && 1 <= |entries| <= ENTRIES_LIMIT
    && entries[0].where.keys != []
    && DefinedColumnNames(entries[0].data) != []
    && (forall k :: k in entries[0].where.vals || Get(entries[0].data, k) != Undefined ==> TypeOf(types, k) != "")
    && (forall k :: k in entries[0].where.vals ==> Get(entries[0].data, k) == Undefined)
    && |entries| * (|entries[0].where.keys| + |DefinedColumnNames(entries[0].data)|) <= BIND_PARAMETERS_LIMIT
    && forall i :: 0 <= i < |entries| ==> SameShape(entries[0], entries[i])
  }

  function CellCount(rows: seq<seq<Cell>>): nat {
    if rows == [] then 0 else |rows[0]| + CellCount(rows[1..])
  }

  // ---------- helper facts ----------

  lemma {:induction false} DefinedSpec(r: Record, names: seq<string>)
    ensures forall k :: k in Defined(r, names) <==> k in names && Get(r, k) != Undefined
    ensures Distinct(names) ==> Distinct(Defined(r, names))
  {
    if names != [] {
      DefinedSpec(r, names[1..]);
      assert names == [names[0]] + names[1..];
      if Distinct(names) {
        assert names[0] !in names[1..];
        assert Distinct(names[1..]);
      }
    }
  }

  lemma DefinedNames(r: Record)
    ensures forall k :: k in DefinedColumnNames(r) <==> Get(r, k) != Undefined
    ensures Distinct(DefinedColumnNames(r))
  {
    DefinedSpec(r, r.keys);
  }

  lemma {:induction false} ResolveSpec(types: map<string, string>, names: seq<string>)
    ensures ResolveColumns(types, names).Ok? <==> forall k :: k in names ==> TypeOf(types, k) != ""
    ensures ResolveColumns(types, names).Ok? ==>
              var cs := ResolveColumns(types, names).value;
              |cs| == |names| && forall i :: 0 <= i < |cs| ==> cs[i] == Column(names[i], TypeOf(types, names[i]))
  {
    if names != [] {
      ResolveSpec(types, names[1..]);
      assert names == [names[0]] + names[1..];
      assert names[0] in names && TypeOf(types, names[0]) != "" <==> names[0] in types && types[names[0]] != "";
    }
  }

  lemma {:induction false} FindSpec(names: seq<string>, p: string -> bool)
    ensures FindName(names, p).None? <==> forall k :: k in names ==> !p(k)
    ensures FindName(names, p).Some? ==> p(FindName(names, p).value) && FindName(names, p).value in names
  {
    if names != [] {
      FindSpec(names[1..], p);
      assert names == [names[0]] + names[1..];
    }
  }

  function ToSet<T>(s: seq<T>): set<T> {
    set x | x in s
  }

  lemma {:induction false} DistinctSize<T>(s: seq<T>)
    requires Distinct(s)
    ensures |ToSet(s)| == |s|
  {
    if s != [] {
      DistinctSize(s[1..]);
      assert s == [s[0]] + s[1..];
      assert ToSet(s) == {s[0]} + ToSet(s[1..]);
      assert s[0] !in s[1..];
    }
  }

  /** Equal lengths plus presence force equal key sets: the reason the two shape checks suffice. */
  lemma SameLengthAndPresence<T>(a: seq<T>, b: seq<T>)
    requires Distinct(a) && Distinct(b) && |a| == |b|
    requires forall x :: x in a ==> x in b
    ensures forall x :: x in b ==> x in a
  {
    DistinctSize(a);
    DistinctSize(b);
    SubsetOfSameSize(ToSet(a), ToSet(b));
    forall x | x in b ensures x in a { assert x in ToSet(b); }
  }

  lemma SubsetOfSameSize<T>(a: set<T>, b: set<T>)
    requires a <= b && |a| == |b|
    ensures a == b
  {
    assert |b - a| == |b| - |a| == 0;
    assert b == a + (b - a);
  }

  lemma {:induction false} LookupAt(aliases: seq<string>, cells: seq<Cell>, i: nat)
    requires |aliases| == |cells| && i < |aliases| && aliases[i] !in aliases[..i]
    ensures Lookup(aliases, cells, aliases[i]) == cells[i]
  {
    if i > 0 {
      assert aliases[0] in aliases[..i];
      assert aliases[1..][..i - 1] == aliases[..i][1..];
      LookupAt(aliases[1..], cells[1..], i - 1);
    }
  }

  /** Columns resolved from a list of names, with the types the map gives. */
  ghost predicate Resolved(types: map<string, string>, columns: seq<Column>, names: seq<string>) {
    |columns| == |names| && forall i :: 0 <= i < |names| ==> columns[i] == Column(names[i], TypeOf(types, names[i]))
  }

  lemma WherePart(first: Record, where: Record)
    ensures SameWhere(first, where) <==>
            |first.keys| == |where.keys| && forall k :: k in first.keys ==> Get(where, k) != Undefined
  {
    if |first.keys| == |where.keys| && forall k :: k in first.keys ==> Get(where, k) != Undefined {
      assert forall k :: k in first.keys ==> k in where.keys;
      SameLengthAndPresence(first.keys, where.keys);
    }
    if SameWhere(first, where) {
      SameKeysSameLength(first.keys, where.keys);
    }
  }

  lemma DataPart(first: Record, data: Record)
    ensures var names := DefinedColumnNames(first);
            SameData(first, data) <==>
            |names| == |DefinedColumnNames(data)| && forall k :: k in names ==> Get(data, k) != Undefined
  {
    var a, b := DefinedColumnNames(first), DefinedColumnNames(data);
    DefinedNames(first);
    DefinedNames(data);
    if |a| == |b| && forall k :: k in a ==> Get(data, k) != Undefined {
      SameLengthAndPresence(a, b);
    }
    if SameData(first, data) {
      SameKeysSameLength(a, b);
    }
  }

  lemma PrepareSpec(first: Entry, e: Entry, index: nat, where: seq<Column>, data: seq<Column>)
    requires Names(where) == first.where.keys && Names(data) == DefinedColumnNames(first.data)
    ensures PrepareValues(e, index, where, data).Ok? <==> SameShape(first, e)
    ensures PrepareValues(e, index, where, data).Ok? ==>
              PrepareValues(e, index, where, data).value == Cells(e.where, where) + Cells(e.data, data)
  {
    FindSpec(first.where.keys, name => Get(e.where, name) == Undefined);
    FindSpec(DefinedColumnNames(first.data), name => Get(e.data, name) == Undefined);
    WherePart(first.where, e.where);
    DataPart(first.data, e.data);
  }

  lemma SameKeysSameLength<T>(a: seq<T>, b: seq<T>)
    requires Distinct(a) && Distinct(b)
    requires forall x :: x in a <==> x in b
    ensures |a| == |b|
  {
    DistinctSize(a);
    DistinctSize(b);
    assert ToSet(a) == ToSet(b);
  }

  lemma {:induction false} PrepareAllSpec(entries: seq<Entry>, index: nat, where: seq<Column>, data: seq<Column>)
    requires entries != [] && index <= |entries|
    requires Names(where) == entries[0].where.keys && Names(data) == DefinedColumnNames(entries[0].data)
    ensures PrepareAll(entries, index, where, data).Ok? <==> forall i :: index <= i < |entries| ==> SameShape(entries[0], entries[i])
    ensures PrepareAll(entries, index, where, data).Ok? ==>
              RowsFrom(entries, index, where, data, PrepareAll(entries, index, where, data).value)
    decreases |entries| - index
  {
    hide SameShape, PrepareValues, Cells;
    if index < |entries| {
      PrepareSpec(entries[0], entries[index], index, where, data);
      PrepareAllSpec(entries, index + 1, where, data);
    }
  }

  predicate IsShapeError(e: Error) {
    e.WhereColumnsDiffer? || e.WhereColumnMissing? || e.DataColumnsDiffer? || e.DataColumnMissing?
  }

  lemma RowErrorIsShapeError(entry: Entry, index: nat, where: seq<Column>, data: seq<Column>)
    requires PrepareValues(entry, index, where, data).Err?
    ensures var e := PrepareValues(entry, index, where, data).error; IsShapeError(e) && e.index == index
  {
    hide Cells, DefinedColumnNames, FindName, Names;
  }

  /** A shape error names the first entry whose columns are not those of the first one. */
  lemma {:induction false} ShapeErrorNamesFirstMisfit(entries: seq<Entry>, index: nat, where: seq<Column>, data: seq<Column>)
    requires entries != [] && index <= |entries|
    requires Names(where) == entries[0].where.keys && Names(data) == DefinedColumnNames(entries[0].data)
    requires PrepareAll(entries, index, where, data).Err?
    ensures var e := PrepareAll(entries, index, where, data).error;
            && IsShapeError(e) && index <= e.index < |entries|
            && !SameShape(entries[0], entries[e.index])
            && forall i :: index <= i < e.index ==> SameShape(entries[0], entries[i])
    decreases |entries| - index
  {
    hide SameShape, PrepareValues, IsShapeError;
    PrepareSpec(entries[0], entries[index], index, where, data);
    if PrepareValues(entries[index], index, where, data).Ok? {
      ShapeErrorNamesFirstMisfit(entries, index + 1, where, data);
    } else {
      RowErrorIsShapeError(entries[index], index, where, data);
    }
  }

  ghost predicate RowsFrom(entries: seq<Entry>, index: nat, where: seq<Column>, data: seq<Column>, rows: seq<seq<Cell>>) {
    && |rows| + index == |entries|
    && forall i :: 0 <= i < |rows| ==> rows[i] == Cells(entries[index + i].where, where) + Cells(entries[index + i].data, data)
  }

  /** What an accepted list compiles to, column by column and row by row. */
  ghost predicate CompiledFrom(types: map<string, string>, entries: seq<Entry>, stmt: Statement) {
    && entries != []
    && Resolved(types, stmt.whereColumns, entries[0].where.keys)
    && Resolved(types, stmt.setColumns, DefinedColumnNames(entries[0].data))
    && stmt.aliases == Names(stmt.whereColumns) + Names(stmt.setColumns)
    && RowsFrom(entries, 0, stmt.whereColumns, stmt.setColumns, stmt.rows)
  }

  /** The guards accept exactly the well-shaped, disjoint, small enough entry lists. */
  lemma CompileAcceptsExactly(types: map<string, string>, entries: seq<Entry>)
    ensures Compile(types, entries).Ok? <==> Acceptable(types, entries)
    ensures Compile(types, entries).Ok? ==> CompiledFrom(types, entries, Compile(types, entries).value)
  {
    hide SameShape, CompileColumns, Defined, DefinedColumnNames, ResolveColumns, RowsFrom;
    if 1 <= |entries| <= ENTRIES_LIMIT {
      var first := entries[0];
      var names := DefinedColumnNames(first.data);
      ResolveSpec(types, first.where.keys);
      ResolveSpec(types, names);
      DefinedNames(first.data);
      var where, data := ResolveColumns(types, first.where.keys), ResolveColumns(types, names);
      if where.Ok? && data.Ok? {
        assert Names(where.value) == first.where.keys && Names(data.value) == names;
        CompileColumnsSpec(entries, where.value, data.value);
        assert Compile(types, entries) == CompileColumns(entries, where.value, data.value);
      }
      assert (where.Ok? && data.Ok?) <==>
             forall k :: k in first.where.vals || Get(first.data, k) != Undefined ==> TypeOf(types, k) != "";
    }
  }

  lemma CompileColumnsSpec(entries: seq<Entry>, where: seq<Column>, data: seq<Column>)
    requires entries != []
    requires Names(where) == entries[0].where.keys && Names(data) == DefinedColumnNames(entries[0].data)
    ensures CompileColumns(entries, where, data).Ok? <==>
              && where != [] && data != []
              && (forall k :: k in entries[0].where.vals ==> Get(entries[0].data, k) == Undefined)
              && |entries| * (|where| + |data|) <= BIND_PARAMETERS_LIMIT
              && forall i :: 0 <= i < |entries| ==> SameShape(entries[0], entries[i])
    ensures CompileColumns(entries, where, data).Ok? ==>
              var stmt := CompileColumns(entries, where, data).value;
              && stmt.whereColumns == where && stmt.setColumns == data
              && stmt.aliases == Names(where) + Names(data)
              && RowsFrom(entries, 0, where, data, stmt.rows)
  {
    var first := entries[0];
    FindSpec(first.where.keys, name => Get(first.where, name) == Undefined);
    FindSpec(Names(data), name => name in Names(where));
    DefinedNames(first.data);
    PrepareAllSpec(entries, 0, where, data);
    assert SameShape(first, entries[0]) ==> forall k :: k in first.where.keys ==> Get(first.where, k) != Undefined;
  }

  /** The VALUES list holds one bound cell per entry and column, never more than the parameter limit. */
  lemma BoundCells(types: map<string, string>, entries: seq<Entry>)
    requires Compile(types, entries).Ok?
    ensures var stmt := Compile(types, entries).value;
            CellCount(stmt.rows) == |entries| * |stmt.aliases| <= BIND_PARAMETERS_LIMIT
  {
    hide Compile, SameShape, Defined, DefinedColumnNames;
    CompileAcceptsExactly(types, entries);
    var stmt := Compile(types, entries).value;
    assert |stmt.aliases| == |entries[0].where.keys| + |DefinedColumnNames(entries[0].data)|;
    CountRectangular(stmt.rows, |stmt.aliases|);
  }

  lemma {:induction false} CountRectangular(rows: seq<seq<Cell>>, width: nat)
    requires forall j :: 0 <= j < |rows| ==> |rows[j]| == width
    ensures CellCount(rows) == |rows| * width
  {
    if rows != [] {
      CountRectangular(rows[1..], width);
      assert |rows| * width == width + |rows[1..]| * width;
    }
  }

  // ---------- the statement in terms of the entries alone ----------

  /** The cell a defined value must become: null is SQL NULL whatever the type, and JSON only by column type. */
  predicate CellHolds(cell: Cell, v: Value, sqlType: string) {
    match v
    case Undefined => false
    case Null => cell == SqlNull
    case Val(repr) => cell == Bound(repr, sqlType in {"json", "jsonb"}, sqlType)
  }

  /**
   * Every cell of the VALUES list, from the entries and the type map: the aliases are the where keys of the
   * first entry and then its defined data names, and each row holds its own entry's values under them.
   */
  lemma CompiledCells(types: map<string, string>, entries: seq<Entry>, j: nat, i: nat)
    requires Compile(types, entries).Ok? && j < |entries|
    ensures var stmt, keys := Compile(types, entries).value, entries[0].where.keys;
            && |stmt.rows| == |entries| && |stmt.rows[j]| == |stmt.aliases|
            && keys <= stmt.aliases
            && (forall name :: name in stmt.aliases[|keys|..] <==>
                 name in entries[0].data.vals && entries[0].data.vals[name] != Undefined)
            && (i < |stmt.aliases| ==>
                 var name := stmt.aliases[i];
                 var vals := if i < |keys| then entries[j].where.vals else entries[j].data.vals;
                 name in vals && name in types && CellHolds(stmt.rows[j][i], vals[name], types[name]))
  {
    hide Compile, CompiledFrom, Acceptable, CellHolds, DefinedColumnNames, Defined;
    CompileAcceptsExactly(types, entries);
    var stmt := Compile(types, entries).value;
    DefinedNames(entries[0].data);
    CompiledAliases(types, entries, stmt);
    RowCount(types, entries, stmt);
    var keys, names := entries[0].where.keys, DefinedColumnNames(entries[0].data);
    assert stmt.aliases[|keys|..] == names;
    if i < |keys| {
      WhereCell(types, entries, stmt, j, i);
    } else if i < |stmt.aliases| {
      assert stmt.aliases[i] == names[i - |keys|];
      DataCell(types, entries, stmt, j, i - |keys|);
    }
  }

  lemma CompiledAliases(types: map<string, string>, entries: seq<Entry>, stmt: Statement)
    requires CompiledFrom(types, entries, stmt)
    ensures |stmt.whereColumns| == |entries[0].where.keys|
    ensures |stmt.setColumns| == |DefinedColumnNames(entries[0].data)|
    ensures stmt.aliases == entries[0].where.keys + DefinedColumnNames(entries[0].data)
  {
    hide DefinedColumnNames;
    assert Names(stmt.whereColumns) == entries[0].where.keys;
    assert Names(stmt.setColumns) == DefinedColumnNames(entries[0].data);
  }

  lemma WhereCell(types: map<string, string>, entries: seq<Entry>, stmt: Statement, j: nat, i: nat)
    requires CompiledFrom(types, entries, stmt) && Acceptable(types, entries)
    requires j < |entries| && i < |entries[0].where.keys|
    ensures j < |stmt.rows| && i < |stmt.rows[j]|
    ensures var name, vals := entries[0].where.keys[i], entries[j].where.vals;
            name in vals && name in types && CellHolds(stmt.rows[j][i], vals[name], types[name])
  {
    hide DefinedColumnNames, SameShape;
    var name := entries[0].where.keys[i];
    assert name in entries[0].where.keys && name in entries[0].where.vals;
    ShapeValues(entries[0], entries[j]);
    assert stmt.rows[j][i] == Cells(entries[j].where, stmt.whereColumns)[i];
  }

  lemma DataCell(types: map<string, string>, entries: seq<Entry>, stmt: Statement, j: nat, i: nat)
    requires CompiledFrom(types, entries, stmt) && Acceptable(types, entries)
    requires j < |entries| && i < |DefinedColumnNames(entries[0].data)|
    ensures j < |stmt.rows| && |entries[0].where.keys| + i < |stmt.rows[j]|
    ensures var name, vals := DefinedColumnNames(entries[0].data)[i], entries[j].data.vals;
            name in vals && name in types && CellHolds(stmt.rows[j][|entries[0].where.keys| + i], vals[name], types[name])
  {
    DefinedNames(entries[0].data);
    hide DefinedColumnNames, SameShape;
    var names := DefinedColumnNames(entries[0].data);
    assert names[i] in names;
    ShapeValues(entries[0], entries[j]);
    assert stmt.rows[j][|entries[0].where.keys| + i] == Cells(entries[j].data, stmt.setColumns)[i];
  }

  /** An entry of the accepted shape has defined values in exactly the first entry's columns. */
  lemma ShapeValues(first: Entry, e: Entry)
    requires SameShape(first, e)
    ensures forall k :: k in first.where.vals <==> k in e.where.vals
    ensures forall k :: k in e.where.vals ==> e.where.vals[k] != Undefined
    ensures forall k :: Get(first.data, k) != Undefined <==> Get(e.data, k) != Undefined
  {
    forall k | k in e.where.vals ensures e.where.vals[k] != Undefined { assert k in e.where.keys; }
  }

  /** A VALUES row joins a table row exactly when every where value is bound, cast, in its column; null joins nothing. */
  lemma RowJoinsExactly(types: map<string, string>, entries: seq<Entry>, j: nat, row: Row)
    requires Compile(types, entries).Ok? && j < |entries|
    ensures var stmt := Compile(types, entries).value;
            && |stmt.rows| == |entries| && Rectangular(stmt)
            && (Joins(stmt, j, row) <==>
                forall k :: k in entries[j].where.vals ==>
                  k in types && k in row && entries[j].where.vals[k].Val? && CellHolds(row[k], entries[j].where.vals[k], types[k]))
  {
    hide Compile, CompiledFrom, Joins, SameShape, DefinedColumnNames;
    CompileAcceptsExactly(types, entries);
    JoinsIsMatches(types, entries, Compile(types, entries).value, j, row);
    ShapeValues(entries[0], entries[j]);
    forall k | k in entries[j].where.vals ensures k in types && TypeOf(types, k) == types[k] {
      assert k in entries[0].where.vals;
    }
  }

  /** What a joined row stores: SQL NULL for null, the cast value for a value, and what was there for the rest. */
  lemma RowStoresExactly(types: map<string, string>, entries: seq<Entry>, j: nat, row: Row)
    requires Compile(types, entries).Ok? && j < |entries|
    ensures var stmt := Compile(types, entries).value;
            && |stmt.rows| == |entries| && Rectangular(stmt)
            && var stored, vals := Assign(stmt, j, row, stmt.setColumns), entries[j].data.vals;
            && (forall k :: k in vals && vals[k] != Undefined ==>
                  k in stored && k in types && CellHolds(stored[k], vals[k], types[k]))
            && (forall k :: k !in vals || vals[k] == Undefined ==>
                  (k in stored <==> k in row) && (k in row ==> stored[k] == row[k]))
  {
    hide Compile, CompiledFrom, Assign, SameShape, DefinedColumnNames, Updated;
    CompileAcceptsExactly(types, entries);
    AssignIsUpdated(types, entries, Compile(types, entries).value, j, row);
    UpdatedSpec(types, entries[j], row);
    ShapeValues(entries[0], entries[j]);
    forall k | Get(entries[j].data, k) != Undefined ensures k in types && TypeOf(types, k) == types[k] {
      assert Get(entries[0].data, k) != Undefined;
    }
  }

  /** What is wrong with the entry that a shape error names. */
  ghost predicate ShapeErrorTells(entries: seq<Entry>, e: Error)
    requires entries != []
  {
    && IsShapeError(e) && e.index < |entries|
    && var first, entry := entries[0], entries[e.index];
    match e
    case WhereColumnsDiffer(_) => |entry.where.keys| != |first.where.keys|
    case WhereColumnMissing(name, _) => name in first.where.vals && Get(entry.where, name) == Undefined
    case DataColumnsDiffer(_) => |DefinedColumnNames(entry.data)| != |DefinedColumnNames(first.data)|
    case DataColumnMissing(name, _) => Get(first.data, name) != Undefined && Get(entry.data, name) == Undefined
    case _ => false
  }

  lemma {:induction false} RowErrorsTell(entries: seq<Entry>, index: nat, where: seq<Column>, data: seq<Column>)
    requires entries != [] && index <= |entries| && PrepareAll(entries, index, where, data).Err?
    requires Names(where) == entries[0].where.keys && Names(data) == DefinedColumnNames(entries[0].data)
    ensures IsShapeError(PrepareAll(entries, index, where, data).error)
    ensures ShapeErrorTells(entries, PrepareAll(entries, index, where, data).error)
    decreases |entries| - index
  {
    hide PrepareValues, ShapeErrorTells;
    if PrepareValues(entries[index], index, where, data).Ok? {
      RowErrorsTell(entries, index + 1, where, data);
    } else {
      RowErrorTells(entries, index, where, data);
    }
  }

  lemma RowErrorTells(entries: seq<Entry>, index: nat, where: seq<Column>, data: seq<Column>)
    requires index < |entries| && PrepareValues(entries[index], index, where, data).Err?
    requires Names(where) == entries[0].where.keys && Names(data) == DefinedColumnNames(entries[0].data)
    ensures IsShapeError(PrepareValues(entries[index], index, where, data).error)
    ensures ShapeErrorTells(entries, PrepareValues(entries[index], index, where, data).error)
  {
    DefinedNames(entries[0].data);
    hide DefinedColumnNames, Cells, Names;
    var entry := entries[index];
    FindSpec(Names(where), name => Get(entry.where, name) == Undefined);
    FindSpec(Names(data), name => Get(entry.data, name) == Undefined);
  }

  /** Each error of the compilation says what is wrong with the entries; the limits are 1000 and 65535. */
  lemma CompileErrorsTell(types: map<string, string>, entries: seq<Entry>)
    requires Compile(types, entries).Err?
    ensures match Compile(types, entries).error
            case EmptyEntries => entries == []
            case TooManyEntries => |entries| > 1000
            case MissingType(name) =>
              && entries != []
              && (name in entries[0].where.vals || (name in entries[0].data.vals && entries[0].data.vals[name] != Undefined))
              && (name !in types || types[name] == "")
            case EmptyWhere => entries != [] && entries[0].where.vals == map[]
            case EmptyData => entries != [] && forall k :: k in entries[0].data.vals ==> entries[0].data.vals[k] == Undefined
            case UndefinedWhere(name) =>
              entries != [] && name in entries[0].where.vals && entries[0].where.vals[name] == Undefined
            case OverlappingColumn(name) =>
              && entries != [] && name in entries[0].where.vals
              && name in entries[0].data.vals && entries[0].data.vals[name] != Undefined
            case TooManyParameters(count) =>
              entries != [] && count == |entries| * (|entries[0].where.keys| + |DefinedColumnNames(entries[0].data)|) > 65535
            case _ => entries != [] && ShapeErrorTells(entries, Compile(types, entries).error)
  {
    hide SameShape, CompileColumns, Defined, DefinedColumnNames, ResolveColumns;
    if 1 <= |entries| <= ENTRIES_LIMIT {
      var first := entries[0];
      var names := DefinedColumnNames(first.data);
      DefinedNames(first.data);
      ResolveSpec(types, first.where.keys);
      ResolveSpec(types, names);
      if ResolveColumns(types, first.where.keys).Err? {
        MissingTypeIsNamed(types, first.where.keys);
      } else if ResolveColumns(types, names).Err? {
        MissingTypeIsNamed(types, names);
      }
      var where, data := ResolveColumns(types, first.where.keys), ResolveColumns(types, names);
      if where.Ok? && data.Ok? {
        assert Names(where.value) == first.where.keys && Names(data.value) == names;
        NoColumns(first);
        ColumnErrorsTell(entries, where.value, data.value);
      }
    }
  }

  lemma NoColumns(e: Entry)
    ensures e.where.keys == [] ==> e.where.vals == map[]
    ensures DefinedColumnNames(e.data) == [] ==> forall k :: k in e.data.vals ==> e.data.vals[k] == Undefined
    ensures forall k :: k in e.where.keys <==> k in e.where.vals
  {
    DefinedNames(e.data);
    hide DefinedColumnNames;
    if e.where.keys == [] { assert forall k :: k in e.where.vals ==> k in e.where.keys; }
    if DefinedColumnNames(e.data) == [] {
      forall k | k in e.data.vals ensures e.data.vals[k] == Undefined { assert k !in DefinedColumnNames(e.data); }
    }
  }

  lemma {:induction false} MissingTypeIsNamed(types: map<string, string>, names: seq<string>)
    requires ResolveColumns(types, names).Err?
    ensures var e := ResolveColumns(types, names).error;
            e.MissingType? && e.name in names && (e.name !in types || types[e.name] == "")
  {
    if names[0] in types && types[names[0]] != "" { MissingTypeIsNamed(types, names[1..]); }
  }

  lemma ColumnErrorsTell(entries: seq<Entry>, where: seq<Column>, data: seq<Column>)
    requires entries != [] && CompileColumns(entries, where, data).Err?
    requires Names(where) == entries[0].where.keys && Names(data) == DefinedColumnNames(entries[0].data)
    ensures var first := entries[0];
            match CompileColumns(entries, where, data).error
            case EmptyWhere => first.where.keys == []
            case EmptyData => DefinedColumnNames(first.data) == []
            case UndefinedWhere(name) => name in first.where.keys && Get(first.where, name) == Undefined
            case OverlappingColumn(name) => name in first.where.keys && Get(first.data, name) != Undefined
            case TooManyParameters(count) =>
              count == |entries| * (|first.where.keys| + |DefinedColumnNames(first.data)|) > 65535
            case _ => ShapeErrorTells(entries, CompileColumns(entries, where, data).error)
  {
    hide Defined, DefinedColumnNames, PrepareAll, ShapeErrorTells;
    var first := entries[0];
    FindSpec(first.where.keys, name => Get(first.where, name) == Undefined);
    FindSpec(Names(data), name => name in Names(where));
    DefinedNames(first.data);
    if PrepareAll(entries, 0, where, data).Err? { RowErrorsTell(entries, 0, where, data); }
    assert |Names(where)| == |where| && |Names(data)| == |data|;
  }

  // ---------- one VALUES row means one entry ----------

  lemma CellOfWhere(types: map<string, string>, entries: seq<Entry>, stmt: Statement, j: nat, i: nat)
    requires CompiledFrom(types, entries, stmt) && j < |entries| && i < |stmt.whereColumns|
    ensures CellOf(stmt, j, stmt.whereColumns[i].name) == Rendered(types, entries[j].where, stmt.whereColumns[i].name)
  {
    var keys := entries[0].where.keys;
    assert stmt.aliases[i] == keys[i];
    forall m | 0 <= m < i ensures stmt.aliases[m] != keys[i] { assert stmt.aliases[m] == keys[m]; }
    LookupAt(stmt.aliases, stmt.rows[j], i);
  }

  lemma CellOfData(types: map<string, string>, entries: seq<Entry>, stmt: Statement, j: nat, i: nat)
    requires CompiledFrom(types, entries, stmt) && Acceptable(types, entries)
    requires j < |entries| && i < |stmt.setColumns|
    ensures CellOf(stmt, j, stmt.setColumns[i].name) == Rendered(types, entries[j].data, stmt.setColumns[i].name)
  {
    hide DefinedColumnNames, SameShape, Lookup, RenderTypedValue;
    var keys, names := entries[0].where.keys, DefinedColumnNames(entries[0].data);
    DefinedNames(entries[0].data);
    var at := |keys| + i;
    assert stmt.aliases[at] == names[i];
    forall m | 0 <= m < at ensures stmt.aliases[m] != names[i] {
      if m < |keys| {
        assert stmt.aliases[m] == keys[m] && keys[m] in keys;
      } else {
        assert stmt.aliases[m] == names[m - |keys|];
      }
    }
    LookupAt(stmt.aliases, stmt.rows[j], at);
  }

  lemma JoinsIsMatches(types: map<string, string>, entries: seq<Entry>, stmt: Statement, j: nat, row: Row)
    requires CompiledFrom(types, entries, stmt) && Acceptable(types, entries) && j < |entries|
    ensures |stmt.rows| == |entries| && Rectangular(stmt)
    ensures Joins(stmt, j, row) <==> Matches(types, entries[j], row)
  {
    hide Rendered, CellOf, DefinedColumnNames, SameData;
    var cs, keys := stmt.whereColumns, entries[0].where.keys;
    assert SameShape(entries[0], entries[j]);
    forall i | 0 <= i < |cs|
      ensures cs[i].name == keys[i] && CellOf(stmt, j, cs[i].name) == Rendered(types, entries[j].where, keys[i])
    {
      CellOfWhere(types, entries, stmt, j, i);
    }
    if Joins(stmt, j, row) {
      forall k | k in entries[j].where.vals
        ensures k in row && row[k] != SqlNull && row[k] == Rendered(types, entries[j].where, k)
      {
        assert k in keys;
        var i :| 0 <= i < |keys| && keys[i] == k;
        assert cs[i] in cs;
      }
    }
    if Matches(types, entries[j], row) {
      forall c | c in cs
        ensures c.name in row && row[c.name] != SqlNull && row[c.name] == CellOf(stmt, j, c.name)
      {
        var i :| 0 <= i < |cs| && cs[i] == c;
        assert keys[i] in keys;
      }
    }
  }

  lemma {:induction false} AssignSpec(stmt: Statement, j: nat, row: Row, set_: seq<Column>)
    requires j < |stmt.rows| && |stmt.rows[j]| == |stmt.aliases|
    ensures var r := Assign(stmt, j, row, set_);
            && (forall k :: k in r <==> k in row || k in Names(set_))
            && (forall k :: k in Names(set_) ==> r[k] == CellOf(stmt, j, k))
            && (forall k :: k in row && k !in Names(set_) ==> r[k] == row[k])
    decreases |set_|
  {
    if set_ != [] {
      AssignSpec(stmt, j, row[set_[0].name := CellOf(stmt, j, set_[0].name)], set_[1..]);
      assert Names(set_) == [set_[0].name] + Names(set_[1..]);
    }
  }

  lemma DataCells(types: map<string, string>, entries: seq<Entry>, stmt: Statement, j: nat)
    requires CompiledFrom(types, entries, stmt) && Acceptable(types, entries) && j < |entries|
    ensures |stmt.rows| == |entries| && Rectangular(stmt)
    ensures forall k :: k in Names(stmt.setColumns) <==> Get(entries[j].data, k) != Undefined
    ensures forall k :: k in Names(stmt.setColumns) ==> CellOf(stmt, j, k) == Rendered(types, entries[j].data, k)
  {
    hide CellOf, Rendered, SameWhere, Defined, Cells;
    var names := DefinedColumnNames(entries[0].data);
    DefinedNames(entries[0].data);
    assert SameShape(entries[0], entries[j]);
    assert Names(stmt.setColumns) == names;
    forall k | k in names ensures CellOf(stmt, j, k) == Rendered(types, entries[j].data, k) {
      var i :| 0 <= i < |names| && names[i] == k;
      CellOfData(types, entries, stmt, j, i);
    }
  }

  lemma UpdatedSpec(types: map<string, string>, e: Entry, row: Row)
    ensures var u := Updated(types, e, row);
            && (forall k :: k in u <==> k in row || Get(e.data, k) != Undefined)
            && (forall k :: k in u ==> u[k] == if Get(e.data, k) != Undefined then Rendered(types, e.data, k) else row[k])
  {
    hide Rendered;
  }

  lemma AssignIsUpdated(types: map<string, string>, entries: seq<Entry>, stmt: Statement, j: nat, row: Row)
    requires CompiledFrom(types, entries, stmt) && Acceptable(types, entries) && j < |entries|
    ensures |stmt.rows| == |entries| && Rectangular(stmt)
    ensures Assign(stmt, j, row, stmt.setColumns) == Updated(types, entries[j], row)
  {
    hide CellOf, Assign, Rendered, Acceptable, CompiledFrom, Updated, Names;
    DataCells(types, entries, stmt, j);
    AssignSpec(stmt, j, row, stmt.setColumns);
    UpdatedSpec(types, entries[j], row);
    var r, u := Assign(stmt, j, row, stmt.setColumns), Updated(types, entries[j], row);
    assert forall k :: k in r <==> k in u;
    forall k | k in r ensures r[k] == u[k] {
      if k in Names(stmt.setColumns) { assert Get(entries[j].data, k) != Undefined; }
    }
    assert r == u;
  }

  // ---------- entries one after the other ----------

  /** An update never writes a where column, so it changes no entry's match. */
  lemma MatchSurvivesUpdate(types: map<string, string>, entries: seq<Entry>, d: Entry, e: Entry, row: Row)
    requires Acceptable(types, entries) && d in entries && e in entries
    ensures Matches(types, d, Updated(types, e, row)) <==> Matches(types, d, row)
  {
    assert SameShape(entries[0], d) && SameShape(entries[0], e);
    forall k | k in d.where.vals ensures k in row <==> k in Updated(types, e, row)
                                 ensures k in row ==> Updated(types, e, row)[k] == row[k]
    {
      assert Get(entries[0].data, k) == Undefined;
      assert Get(e.data, k) == Undefined;
    }
  }

  /** Entries that match one row have the same where tuple, and nothing in it is null. */
  lemma MatchingOneRow(types: map<string, string>, entries: seq<Entry>, d: Entry, e: Entry, row: Row)
    requires Acceptable(types, entries) && d in entries && e in entries
    requires Matches(types, d, row) && Matches(types, e, row)
    ensures SameTuple(types, d, e)
  {
    hide Rendered;
    assert SameShape(entries[0], d) && SameShape(entries[0], e);
    forall k | k in d.where.vals
      ensures Rendered(types, d.where, k) == Rendered(types, e.where, k) && Rendered(types, d.where, k) != SqlNull
    {
      assert k in e.where.vals;
    }
  }

  /** In a consistent list, whatever entry matches a row changes it alike. */
  lemma SameEffect(types: map<string, string>, entries: seq<Entry>, d: Entry, e: Entry, row: Row)
    requires Acceptable(types, entries) && Consistent(types, entries) && d in entries && e in entries
    requires Matches(types, d, row) && Matches(types, e, row)
    ensures Updated(types, d, row) == Updated(types, e, row)
  {
    hide Rendered, Matches, SameTuple, Updated, SameWhere;
    MatchingOneRow(types, entries, d, e, row);
    assert SameShape(entries[0], d) && SameShape(entries[0], e);
    UpdatedSpec(types, d, row);
    UpdatedSpec(types, e, row);
    var u, v := Updated(types, d, row), Updated(types, e, row);
    assert forall k :: k in u <==> k in v;
    forall k | k in u ensures u[k] == v[k] {
      if Get(d.data, k) != Undefined { assert Get(e.data, k) != Undefined; }
    }
    assert u == v;
  }

  lemma UpdatedTwice(types: map<string, string>, e: Entry, row: Row)
    ensures Updated(types, e, Updated(types, e, row)) == Updated(types, e, row)
  {
    hide Rendered;
  }

  /** In a consistent list, pairwise different tuples are one way not to disagree. */
  lemma DistinctTuplesAreConsistent(types: map<string, string>, entries: seq<Entry>)
    requires Acceptable(types, entries) && DistinctTuples(types, entries)
    ensures Consistent(types, entries)
  {
    forall d, e | d in entries && e in entries && SameTuple(types, d, e) ensures SameChange(types, d, e) {
      var a :| 0 <= a < |entries| && entries[a] == d;
      var b :| 0 <= b < |entries| && entries[b] == e;
      assert SameShape(entries[0], d) && SameShape(entries[0], e);
      TuplesAreSame(types, d, e);
      assert a == b;
    }
  }

  lemma TuplesAreSame(types: map<string, string>, d: Entry, e: Entry)
    requires SameTuple(types, d, e) && forall k :: k in d.where.vals <==> k in e.where.vals
    ensures !TuplesDiffer(types, d, e) && !TuplesDiffer(types, e, d)
  {
    hide Rendered;
  }

  lemma {:induction false} ApplyRowNone(types: map<string, string>, order: seq<Entry>, row: Row)
    requires forall e :: e in order ==> !Matches(types, e, row)
    ensures ApplyRow(types, order, row) == row
  {
    if order != [] { ApplyRowNone(types, order[1..], row); }
  }

  /** Once changed by a matching entry, a row stays as it is: the later ones write the same values. */
  lemma {:induction false} ApplyRowSettles(types: map<string, string>, entries: seq<Entry>, order: seq<Entry>, row: Row, d: Entry)
    requires Acceptable(types, entries) && Consistent(types, entries)
    requires forall e :: e in order ==> e in entries
    requires d in entries && Matches(types, d, row)
    ensures ApplyRow(types, order, row) == if exists e :: e in order && Matches(types, e, row) then Updated(types, d, row) else row
  {
    hide Acceptable, Consistent, Matches, Updated;
    if order != [] {
      var e, rest := order[0], order[1..];
      assert order == [e] + rest;
      if Matches(types, e, row) {
        var next := Updated(types, d, row);
        SameEffect(types, entries, d, e, row);
        MatchSurvivesUpdate(types, entries, d, d, row);
        UpdatedTwice(types, d, row);
        ApplyRowSettles(types, entries, rest, next, d);
      } else {
        ApplyRowSettles(types, entries, rest, row, d);
        assert forall x :: x in order && Matches(types, x, row) ==> x in rest;
      }
    }
  }

  lemma {:induction false} ApplyAllIsPerRow(types: map<string, string>, order: seq<Entry>, table: seq<Row>)
    ensures |ApplyAll(types, order, table)| == |table|
    ensures forall i :: 0 <= i < |table| ==> ApplyAll(types, order, table)[i] == ApplyRow(types, order, table[i])
  {
    if order != [] { ApplyAllIsPerRow(types, order[1..], ApplyEntry(types, order[0], table)); }
  }

  /** The sequential effect on one row: exactly what any joining VALUES row does, or nothing. */
  lemma ApplyRowSpec(types: map<string, string>, entries: seq<Entry>, order: seq<Entry>, row: Row)
    requires Acceptable(types, entries) && Consistent(types, entries)
    requires multiset(order) == multiset(entries)
    ensures (forall e :: e in entries ==> !Matches(types, e, row)) ==> ApplyRow(types, order, row) == row
    ensures forall e :: e in entries && Matches(types, e, row) ==> ApplyRow(types, order, row) == Updated(types, e, row)
  {
    hide Acceptable, Consistent, Matches, Updated, ApplyRow;
    SameElements(order, entries);
    if forall e :: e in entries ==> !Matches(types, e, row) {
      ApplyRowNone(types, order, row);
    }
    forall e | e in entries && Matches(types, e, row)
      ensures ApplyRow(types, order, row) == Updated(types, e, row)
    {
      ApplyRowSettles(types, entries, order, row, e);
      assert e in order;
    }
  }

  lemma RowCount(types: map<string, string>, entries: seq<Entry>, stmt: Statement)
    requires CompiledFrom(types, entries, stmt)
    ensures |stmt.rows| == |entries| && Rectangular(stmt)
  {
    hide Resolved;
  }

  lemma RowMeansSequential(types: map<string, string>, entries: seq<Entry>, stmt: Statement, order: seq<Entry>, before: Row, after: Row)
    requires CompiledFrom(types, entries, stmt) && Acceptable(types, entries) && Consistent(types, entries)
    requires multiset(order) == multiset(entries)
    ensures Rectangular(stmt)
    ensures RowOutcome(stmt, before, after) <==> after == ApplyRow(types, order, before)
  {
    hide Acceptable, CompiledFrom, Assign, Matches, Updated, Joins, Consistent, ApplyRow;
    ApplyRowSpec(types, entries, order, before);
    RowCount(types, entries, stmt);
    forall j | 0 <= j < |entries|
      ensures Joins(stmt, j, before) <==> Matches(types, entries[j], before)
      ensures Assign(stmt, j, before, stmt.setColumns) == Updated(types, entries[j], before)
    {
      JoinsIsMatches(types, entries, stmt, j, before);
      AssignIsUpdated(types, entries, stmt, j, before);
    }
    if j :| 0 <= j < |entries| && Matches(types, entries[j], before) {
      assert entries[j] in entries;
      assert Joins(stmt, j, before);
    } else {
      forall e | e in entries ensures !Matches(types, e, before) {
        var j :| 0 <= j < |entries| && entries[j] == e;
      }
    }
  }

  lemma ConsistentMeansSequential(types: map<string, string>, entries: seq<Entry>, order: seq<Entry>, before: seq<Row>, after: seq<Row>)
    requires Compile(types, entries).Ok? && Consistent(types, entries)
    requires multiset(order) == multiset(entries)
    ensures Outcome(Compile(types, entries).value, before, after) <==> after == ApplyAll(types, order, before)
  {
    hide Compile, CompiledFrom, Acceptable, Consistent, Joins, Assign, ApplyRow, ApplyAll, RowOutcome;
    CompileAcceptsExactly(types, entries);
    var stmt := Compile(types, entries).value;
    RowCount(types, entries, stmt);
    ApplyAllIsPerRow(types, order, before);
    assert Rectangular(stmt);
    if |after| == |before| {
      forall i | 0 <= i < |before|
        ensures RowOutcome(stmt, before[i], after[i]) <==> after[i] == ApplyRow(types, order, before[i])
      {
        RowMeansSequential(types, entries, stmt, order, before[i], after[i]);
      }
    }
  }

  /**
   * The single statement means the list of updates: with distinct where tuples, over any table, its only
   * possible outcome is the table the accepted entries leave when applied one at a time, in whatever order.
   */
  lemma BulkMeansSequential(types: map<string, string>, entries: seq<Entry>, order: seq<Entry>, before: seq<Row>, after: seq<Row>)
    requires Compile(types, entries).Ok? && DistinctTuples(types, entries)
    requires multiset(order) == multiset(entries)
    ensures Outcome(Compile(types, entries).value, before, after) <==> after == ApplyAll(types, order, before)
  {
    CompileAcceptsExactly(types, entries);
    hide Compile, Acceptable, Consistent, DistinctTuples, ApplyAll;
    DistinctTuplesAreConsistent(types, entries);
    ConsistentMeansSequential(types, entries, order, before, after);
  }

  // ---------- when repeated where tuples are harmless ----------

  /** On every table the statement has one outcome at most. */
  ghost predicate Deterministic(stmt: Statement) {
    forall before, a, b :: Outcome(stmt, before, a) && Outcome(stmt, before, b) ==> a == b
  }

  /** On every table, for every order of the entries, the statement does what the entries do one at a time. */
  ghost predicate MeansSequential(types: map<string, string>, entries: seq<Entry>, stmt: Statement) {
    forall order, before, after :: multiset(order) == multiset(entries) ==>
      (Outcome(stmt, before, after) <==> after == ApplyAll(types, order, before))
  }

  /** The row that carries just an entry's where tuple. */
  ghost function TupleRow(types: map<string, string>, e: Entry): Row {
    map k | k in e.where.vals :: Rendered(types, e.where, k)
  }

  /** Two entries with one tuple both join the row that carries it, so both of their changes are outcomes. */
  lemma BothOutcomes(types: map<string, string>, entries: seq<Entry>, stmt: Statement, d: Entry, e: Entry)
    requires CompiledFrom(types, entries, stmt) && Acceptable(types, entries)
    requires d in entries && e in entries && SameTuple(types, d, e)
    ensures Outcome(stmt, [TupleRow(types, d)], [Updated(types, d, TupleRow(types, d))])
    ensures Outcome(stmt, [TupleRow(types, d)], [Updated(types, e, TupleRow(types, d))])
  {
    var row := TupleRow(types, d);
    assert Matches(types, d, row);
    assert Matches(types, e, row) by { assert SameShape(entries[0], d) && SameShape(entries[0], e); }
    hide Matches, Updated, TupleRow, SameTuple;
    MatchIsOutcome(types, entries, stmt, d, row);
    MatchIsOutcome(types, entries, stmt, e, row);
  }

  lemma MatchIsOutcome(types: map<string, string>, entries: seq<Entry>, stmt: Statement, e: Entry, row: Row)
    requires CompiledFrom(types, entries, stmt) && Acceptable(types, entries)
    requires e in entries && Matches(types, e, row)
    ensures Outcome(stmt, [row], [Updated(types, e, row)])
  {
    hide Acceptable, CompiledFrom, Matches, Updated, Joins, Assign;
    var j :| 0 <= j < |entries| && entries[j] == e;
    RowCount(types, entries, stmt);
    JoinsIsMatches(types, entries, stmt, j, row);
    AssignIsUpdated(types, entries, stmt, j, row);
    assert RowOutcome(stmt, row, Updated(types, e, row));
  }

  lemma UnlikeChangesShow(types: map<string, string>, d: Entry, e: Entry, row: Row)
    requires Updated(types, d, row) == Updated(types, e, row)
    requires SameData(d.data, e.data)
    ensures SameChange(types, d, e)
  {
    hide Rendered;
    UpdatedSpec(types, d, row);
    UpdatedSpec(types, e, row);
    forall k | Get(d.data, k) != Undefined ensures Rendered(types, d.data, k) == Rendered(types, e.data, k) {
      assert Updated(types, d, row)[k] == Updated(types, e, row)[k];
    }
  }

  /**
   * For any accepted list, repeated where tuples included: the statement's outcome is determined on every
   * table, and is what the updates do one at a time in every order, exactly when entries with equal where
   * tuples free of null write equal values.
   */
  lemma BulkIsSequentialIffConsistent(types: map<string, string>, entries: seq<Entry>)
    requires Compile(types, entries).Ok?
    ensures Deterministic(Compile(types, entries).value) <==> Consistent(types, entries)
    ensures MeansSequential(types, entries, Compile(types, entries).value) <==> Consistent(types, entries)
  {
    CompileAcceptsExactly(types, entries);
    hide Compile, CompiledFrom, Acceptable, SameTuple, SameChange, Outcome, ApplyAll, TupleRow, Updated;
    var stmt := Compile(types, entries).value;
    if Consistent(types, entries) {
      forall order, before, after | multiset(order) == multiset(entries)
        ensures Outcome(stmt, before, after) <==> after == ApplyAll(types, order, before)
      {
        ConsistentMeansSequential(types, entries, order, before, after);
      }
      SequentialIsDeterministic(types, entries, stmt);
    }
    if MeansSequential(types, entries, stmt) { SequentialIsDeterministic(types, entries, stmt); }
    if Deterministic(stmt) {
      forall d, e | d in entries && e in entries && SameTuple(types, d, e) ensures SameChange(types, d, e) {
        BothOutcomes(types, entries, stmt, d, e);
        var row := TupleRow(types, d);
        assert [Updated(types, d, row)] == [Updated(types, e, row)];
        assert Updated(types, d, row) == [Updated(types, d, row)][0] == [Updated(types, e, row)][0];
        DataKeysAgree(types, entries, d, e);
        UnlikeChangesShow(types, d, e, row);
      }
    }
  }

  lemma DataKeysAgree(types: map<string, string>, entries: seq<Entry>, d: Entry, e: Entry)
    requires Acceptable(types, entries) && d in entries && e in entries
    ensures SameData(d.data, e.data)
  {
    assert SameShape(entries[0], d) && SameShape(entries[0], e);
  }

  lemma SequentialIsDeterministic(types: map<string, string>, entries: seq<Entry>, stmt: Statement)
    requires MeansSequential(types, entries, stmt)
    ensures Deterministic(stmt)
  {
    hide Outcome, ApplyAll;
    forall before, a, b | Outcome(stmt, before, a) && Outcome(stmt, before, b) ensures a == b {
      assert a == ApplyAll(types, entries, before);
      assert b == ApplyAll(types, entries, before);
    }
  }
}
