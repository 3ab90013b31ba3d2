/** Structural diff of two schema snapshots, with its independent deep-equality test and path printer. */
module SnapshotDiff {
  import opened LexOrder

  // JSON-like values plus `undefined` and values compared by identity only.
  datatype Js =
    | Undefined
    | Null
    | Bool(b: bool)
    | Num(n: int)
    | Str(s: string)
    | Arr(items: seq<Js>)
    | Obj(fields: map<string, Js>)
    | Opaque(identity: int)

  datatype Kind = Added | Removed | Changed

  // A reported difference; `Undefined` stands for an absent side.
  datatype Difference = Difference(path: string, kind: Kind, before: Js, after: Js)

  // The same with the key path that was printed.
  datatype Edit = Edit(keys: seq<string>, kind: Kind, before: Js, after: Js)

  /** `===` on values that do not share references: objects and arrays are never identical. */
  predicate StrictlyEqual(a: Js, b: Js) {
    a == b && !a.Obj? && !a.Arr?
  }

  // ---------- deep equality, as the loops compute it ----------

  method DeepEqual(a: Js, b: Js) returns (equal: bool)
    ensures equal <==> a == b
    decreases a, 1
  {
    if StrictlyEqual(a, b) { return true; }
    if a.Obj? && b.Obj? { equal := DeepEqualObjects(a, b); return; }
    if a.Arr? && b.Arr? { equal := DeepEqualArrays(a, b); return; }
    return false;
  }

  method DeepEqualObjects(a: Js, b: Js) returns (equal: bool)
    requires a.Obj? && b.Obj?
    ensures equal <==> a == b
    decreases a, 0
  {
    hide SortedKeys, StrLeq;
    var ak := SortedKeys(a.fields.Keys);
    var bk := SortedKeys(b.fields.Keys);
    if |ak| != |bk| { return false; }
    for i := 0 to |ak|
      invariant ak[..i] == bk[..i]
      invariant forall k :: k in ak[..i] ==> a.fields[k] == b.fields[k]
    {
      var key := ak[i];
      assert key in ak;
      if key != bk[i] { return false; }
      assert bk[i] in bk;
      var same := DeepEqual(a.fields[key], b.fields[key]);
      if !same { return false; }
    }
    assert ak[..|ak|] == ak && bk[..|bk|] == bk;
    assert a.fields.Keys == b.fields.Keys by {
      assert forall k :: k in a.fields.Keys <==> k in ak;
    }
    assert a.fields == b.fields;
    return true;
  }

  method DeepEqualArrays(a: Js, b: Js) returns (equal: bool)
    requires a.Arr? && b.Arr?
    ensures equal <==> a == b
    decreases a, 0
  {
    if |a.items| != |b.items| { return false; }
    for i := 0 to |a.items|
      invariant a.items[..i] == b.items[..i]
    {
      var same := DeepEqual(a.items[i], b.items[i]);
      if !same { return false; }
    }
    assert a.items == b.items;
    return true;
  }

  // ---------- the diff as a function of the two values ----------

  function Diff(before: Js, after: Js): seq<Edit>
    decreases before, 1, 0
  {
    if StrictlyEqual(before, after) then []
    else if before.Obj? && after.Obj? then
      DiffKeys(before, after, SortedKeys(before.fields.Keys + after.fields.Keys))
    else if before.Arr? && after.Arr? then
      if before.items == after.items then [] else [Edit([], Changed, before, after)]
    else if before.Undefined? then [Edit([], Added, Undefined, after)]
    else if after.Undefined? then [Edit([], Removed, before, Undefined)]
    else [Edit([], Changed, before, after)]
  }

  function DiffKeys(before: Js, after: Js, keys: seq<string>): seq<Edit>
    requires before.Obj? && after.Obj?
    requires forall k :: k in keys ==> k in before.fields || k in after.fields
    decreases before, 0, |keys|
  {
    if keys == [] then [] else DiffKey(before, after, keys[0]) + DiffKeys(before, after, keys[1..])
  }

  function DiffKey(before: Js, after: Js, key: string): seq<Edit>
    requires before.Obj? && after.Obj? && (key in before.fields || key in after.fields)
    decreases before, 0, 0
  {
    if key !in before.fields then [Edit([key], Added, Undefined, after.fields[key])]
    else if key !in after.fields then [Edit([key], Removed, before.fields[key], Undefined)]
    else Under(key, Diff(before.fields[key], after.fields[key]))
  }

  /** The edits of a child, seen from its parent. */
  function Under(key: string, edits: seq<Edit>): (r: seq<Edit>)
    ensures |r| == |edits|
  {
    seq(|edits|, i requires 0 <= i < |edits| => edits[i].(keys := [key] + edits[i].keys))
  }

  // ---------- path printing ----------

  function ReplaceQuotes(key: string): string {
    if key == "" then ""
    else (if key[0] == '"' then "\\\"" else [key[0]]) + ReplaceQuotes(key[1..])
  }

  function EscapeKey(key: string): string {
    if '.' in key || ' ' in key then "[\"" + ReplaceQuotes(key) + "\"]" else key
  }

  function JoinPath(path: string, key: string): string {
    var escaped := EscapeKey(key);
    if path == "" then escaped
    else if "[" <= escaped then path + escaped
    else path + "." + escaped
  }

  /** The string printed for a key path. */
  function Render(keys: seq<string>): string {
    if keys == [] then "" else JoinPath(Render(keys[..|keys| - 1]), keys[|keys| - 1])
  }

  function Report(prefix: seq<string>, edits: seq<Edit>): (r: seq<Difference>)
    ensures |r| == |edits|
  {
    seq(|edits|, i requires 0 <= i < |edits| =>
      Difference(Render(prefix + edits[i].keys), edits[i].kind, edits[i].before, edits[i].after))
  }

  lemma ReportUnder(prefix: seq<string>, key: string, edits: seq<Edit>)
    ensures Report(prefix, Under(key, edits)) == Report(prefix + [key], edits)
  {
    forall i | 0 <= i < |edits|
      ensures prefix + Under(key, edits)[i].keys == prefix + [key] + edits[i].keys
    {
    }
  }

  // ---------- the differ, pushing into a shared list ----------

  class DiffLog {
    var items: seq<Difference>

    constructor ()
      ensures items == []
    {
      items := [];
    }

    method Push(d: Difference)
      modifies this
      ensures items == old(items) + [d]
    {
      items := items + [d];
    }
  }

  method DiffValue(before: Js, after: Js, path: string, out: DiffLog, ghost keys: seq<string>)
    requires path == Render(keys)
    modifies out
    ensures out.items == old(out.items) + Report(keys, Diff(before, after))
    decreases before, 1
  {
    assert keys + [] == keys;
    if StrictlyEqual(before, after) { return; }
    if before.Obj? && after.Obj? {
      DiffObjects(before, after, path, out, keys);
      return;
    }
    if before.Arr? && after.Arr? {
      DiffArrays(before, after, path, out, keys);
      return;
    }
    if before == Undefined && after != Undefined {
      out.Push(Difference(path, Added, Undefined, after));
      return;
    }
    if after == Undefined && before != Undefined {
      out.Push(Difference(path, Removed, before, Undefined));
      return;
    }
    out.Push(Difference(path, Changed, before, after));
  }

  method DiffObjects(before: Js, after: Js, path: string, out: DiffLog, ghost keys: seq<string>)
    requires before.Obj? && after.Obj? && path == Render(keys)
    modifies out
    ensures out.items == old(out.items) + Report(keys, Diff(before, after))
    decreases before, 0, 1
  {
    hide DiffKey, DiffKeys, Render, SortedKeys, StrLeq, Report;
    var sorted := SortedKeys(before.fields.Keys + after.fields.Keys);
    assert sorted[..0] == [];
    assert Report(keys, DiffKeys(before, after, [])) == [] by { DiffNoKeys(before, after); }
    for i := 0 to |sorted|
      invariant forall k :: k in sorted[..i] ==> k in sorted
      invariant out.items == old(out.items) + Report(keys, DiffKeys(before, after, sorted[..i]))
    {
      var key := sorted[i];
      assert key in sorted;
      DiffKeysSnoc(before, after, sorted[..i], key);
      assert sorted[..i + 1] == sorted[..i] + [key];
      ReportConcat(keys, DiffKeys(before, after, sorted[..i]), DiffKey(before, after, key));
      DiffOneKey(before, after, key, path, out, keys);
    }
    assert sorted[..|sorted|] == sorted;
  }

  /** The body of the key loop. */
  method DiffOneKey(before: Js, after: Js, key: string, path: string, out: DiffLog, ghost keys: seq<string>)
    requires before.Obj? && after.Obj? && (key in before.fields || key in after.fields) && path == Render(keys)
    modifies out
    ensures out.items == old(out.items) + Report(keys, DiffKey(before, after, key))
    decreases before, 0, 0
  {
    hide Diff;
    var childPath := JoinPath(path, key);
    assert childPath == Render(keys + [key]) by {
      assert (keys + [key])[..|keys|] == keys;
    }
    if key !in before.fields {
      out.Push(Difference(childPath, Added, Undefined, after.fields[key]));
    } else if key !in after.fields {
      out.Push(Difference(childPath, Removed, before.fields[key], Undefined));
    } else {
      ReportUnder(keys, key, Diff(before.fields[key], after.fields[key]));
      DiffValue(before.fields[key], after.fields[key], childPath, out, keys + [key]);
    }
  }

  lemma DiffNoKeys(before: Js, after: Js)
    requires before.Obj? && after.Obj?
    ensures DiffKeys(before, after, []) == []
  {
  }

  method DiffArrays(before: Js, after: Js, path: string, out: DiffLog, ghost keys: seq<string>)
    requires before.Arr? && after.Arr? && path == Render(keys)
    modifies out
    ensures out.items == old(out.items) + Report(keys, Diff(before, after))
  {
    assert keys + [] == keys;
    var differs := |before.items| != |after.items|;
    var i := 0;
    while !differs && i < |before.items|
      invariant 0 <= i <= |before.items|
      invariant out.items == old(out.items)
      invariant !differs ==> |before.items| == |after.items| && before.items[..i] == after.items[..i]
      invariant differs ==> before.items != after.items
    {
      var same := DeepEqual(before.items[i], after.items[i]);
      differs := !same;
      i := i + 1;
    }
    if differs {
      out.Push(Difference(path, Changed, before, after));
      assert Diff(before, after) == [Edit([], Changed, before, after)];
      assert Report(keys, Diff(before, after)) == [Difference(path, Changed, before, after)];
    } else {
      assert before.items[..i] == before.items && after.items[..i] == after.items;
      assert before == after && Diff(before, after) == [];
      assert Report(keys, Diff(before, after)) == [];
    }
  }

  lemma {:induction false} DiffKeysSnoc(before: Js, after: Js, keys: seq<string>, key: string)
    requires before.Obj? && after.Obj?
    requires forall k :: k in keys + [key] ==> k in before.fields || k in after.fields
    ensures DiffKeys(before, after, keys + [key]) == DiffKeys(before, after, keys) + DiffKey(before, after, key)
    decreases |keys|
  {
    if keys != [] {
      assert (keys + [key])[1..] == keys[1..] + [key];
      DiffKeysSnoc(before, after, keys[1..], key);
    }
  }

  lemma ReportConcat(prefix: seq<string>, a: seq<Edit>, b: seq<Edit>)
    ensures Report(prefix, a + b) == Report(prefix, a) + Report(prefix, b)
  {
  }

  method DiffSchemaSnapshots(before: Js, after: Js) returns (equal: bool, differences: seq<Difference>)
    ensures equal <==> before == after
    ensures differences == Report([], Diff(before, after))
  {
    var out := new DiffLog();
    DiffValue(before, after, "", out, []);
    EmptyIffEqual(before, after);
    differences := out.items;
    equal := |differences| == 0;
  }

  // ---------- what the differences say ----------

  /** No difference is reported exactly when the values are equal. */
  lemma {:induction false} EmptyIffEqual(before: Js, after: Js)
    ensures Diff(before, after) == [] <==> before == after
    decreases before, 1
  {
    if before.Obj? && after.Obj? {
      var keys := SortedKeys(before.fields.Keys + after.fields.Keys);
      KeysEmptyIffEqual(before, after, keys);
      if Diff(before, after) == [] {
        forall k | k in before.fields || k in after.fields
          ensures k in before.fields && k in after.fields && before.fields[k] == after.fields[k]
        {
          assert k in keys;
        }
        assert before.fields == after.fields;
      }
    }
  }

  lemma {:induction false} KeysEmptyIffEqual(before: Js, after: Js, keys: seq<string>)
    requires before.Obj? && after.Obj?
    requires forall k :: k in keys ==> k in before.fields || k in after.fields
    ensures DiffKeys(before, after, keys) == [] <==>
            forall k :: k in keys ==> k in before.fields && k in after.fields && before.fields[k] == after.fields[k]
    decreases before, 0, |keys|
  {
    if keys != [] {
      var k := keys[0];
      assert keys == [k] + keys[1..];
      KeysEmptyIffEqual(before, after, keys[1..]);
      if k in before.fields && k in after.fields {
        EmptyIffEqual(before.fields[k], after.fields[k]);
      }
    }
  }

  /** Applying one edit to a value. */
  function ApplyEdit(v: Js, e: Edit): Js
    decreases |e.keys|
  {
    if e.keys == [] then e.after
    else if !v.Obj? then v
    else if |e.keys| == 1 && e.kind == Removed then Obj(v.fields - {e.keys[0]})
    else
      var child := if e.keys[0] in v.fields then v.fields[e.keys[0]] else Undefined;
      Obj(v.fields[e.keys[0] := ApplyEdit(child, e.(keys := e.keys[1..]))])
  }

  function Patch(v: Js, edits: seq<Edit>): Js
    decreases |edits|
  {
    if edits == [] then v else Patch(ApplyEdit(v, edits[0]), edits[1..])
  }

  /**
   * No object key whose own value turns from something to an own `undefined`: such a key is
   * reported as removed although it is still there.
   */
  ghost predicate NoKeyBecomesUndefined(before: Js, after: Js)
    decreases before
  {
    before.Obj? && after.Obj? ==>
      forall k :: k in before.fields && k in after.fields ==>
        && !(before.fields[k] != Undefined && after.fields[k] == Undefined)
        && NoKeyBecomesUndefined(before.fields[k], after.fields[k])
  }

  /** The root of a value can only be reported removed when it becomes undefined. */
  lemma {:induction false} RootRemoval(before: Js, after: Js)
    ensures forall i :: 0 <= i < |Diff(before, after)| ==>
              (Diff(before, after)[i].keys == [] ==>
                |Diff(before, after)| == 1
                && Diff(before, after)[i].after == after
                && (Diff(before, after)[i].kind == Removed <==> after == Undefined))
  {
    if before.Obj? && after.Obj? {
      KeysAreNonEmpty(before, after, SortedKeys(before.fields.Keys + after.fields.Keys));
    }
  }

  lemma {:induction false} KeysAreNonEmpty(before: Js, after: Js, keys: seq<string>)
    requires before.Obj? && after.Obj?
    requires forall k :: k in keys ==> k in before.fields || k in after.fields
    ensures forall i :: 0 <= i < |DiffKeys(before, after, keys)| ==>
              DiffKeys(before, after, keys)[i].keys != [] && DiffKeys(before, after, keys)[i].keys[0] in keys
    decreases |keys|
  {
    if keys != [] {
      KeysAreNonEmpty(before, after, keys[1..]);
      assert keys == [keys[0]] + keys[1..];
    }
  }

  lemma {:induction false} PatchConcat(v: Js, a: seq<Edit>, b: seq<Edit>)
    ensures Patch(v, a + b) == Patch(Patch(v, a), b)
    decreases |a|
  {
    if a == [] {
      assert a + b == b;
    } else {
      assert (a + b)[0] == a[0] && (a + b)[1..] == a[1..] + b;
      PatchConcat(ApplyEdit(v, a[0]), a[1..], b);
    }
  }

  /** Edits under one key patch that child and nothing else. */
  lemma {:induction false} PatchUnder(m: map<string, Js>, key: string, edits: seq<Edit>)
    requires key in m
    requires forall i :: 0 <= i < |edits| ==> !(edits[i].keys == [] && edits[i].kind == Removed)
    ensures Patch(Obj(m), Under(key, edits)) == Obj(m[key := Patch(m[key], edits)])
    decreases |edits|
  {
    if edits == [] {
      assert m[key := m[key]] == m;
    } else {
      var e := edits[0];
      assert Under(key, edits)[0].(keys := Under(key, edits)[0].keys[1..]) == e;
      assert Under(key, edits)[1..] == Under(key, edits[1..]);
      var m' := m[key := ApplyEdit(m[key], e)];
      assert ApplyEdit(Obj(m), Under(key, edits)[0]) == Obj(m');
      PatchUnder(m', key, edits[1..]);
      assert m'[key := Patch(m'[key], edits[1..])] == m[key := Patch(m[key], edits)];
    }
  }

  /** The field map after the edits of the listed keys: listed keys as in `after`, the others as in `cur`. */
  lemma {:induction false} PatchKeys(before: Js, after: Js, keys: seq<string>, cur: map<string, Js>)
    requires before.Obj? && after.Obj?
    requires forall k :: k in keys ==> k in before.fields || k in after.fields
    requires forall i, j :: 0 <= i < j < |keys| ==> keys[i] != keys[j]
    requires forall k :: k in keys ==> SameAt(cur, before.fields, k)
    ensures Patch(Obj(cur), DiffKeys(before, after, keys)).Obj?
    ensures forall k :: k !in keys ==> SameAt(Patch(Obj(cur), DiffKeys(before, after, keys)).fields, cur, k)
    ensures forall k :: k in keys ==>
              (SameAt(Patch(Obj(cur), DiffKeys(before, after, keys)).fields, after.fields, k) <==> KeyIsPatched(before, after, k))
    decreases before, 0, |keys|
  {
    hide Patch, DiffKey, KeyIsPatched, NoKeyBecomesUndefined;
    if keys == [] {
      PatchNothing(Obj(cur));
    } else {
      var k, rest := keys[0], keys[1..];
      assert keys == [k] + rest && k !in rest;
      var next := PatchKey(before, after, k, cur);
      PatchConcat(Obj(cur), DiffKey(before, after, k), DiffKeys(before, after, rest));
      forall j | j in rest ensures SameAt(next, before.fields, j) {
        assert j in keys && j != k && SameAt(next, cur, j) && SameAt(cur, before.fields, j);
      }
      PatchKeys(before, after, rest, next);
      var final := Patch(Obj(next), DiffKeys(before, after, rest)).fields;
      assert Patch(Obj(cur), DiffKeys(before, after, keys)) == Obj(final);
      assert SameAt(final, next, k);
      forall j | j !in keys ensures SameAt(final, cur, j) {
        assert j !in rest && j != k && SameAt(final, next, j) && SameAt(next, cur, j);
      }
    }
  }

  lemma PatchNothing(v: Js)
    ensures Patch(v, []) == v
  {
  }

  ghost predicate SameAt(m: map<string, Js>, n: map<string, Js>, k: string) {
    (k in m <==> k in n) && (k in m ==> m[k] == n[k])
  }

  /** The condition under which the edits of one key turn that key of `before` into that of `after`. */
  ghost predicate KeyIsPatched(before: Js, after: Js, k: string)
    requires before.Obj? && after.Obj?
  {
    k in before.fields && k in after.fields ==>
      && !(before.fields[k] != Undefined && after.fields[k] == Undefined)
      && NoKeyBecomesUndefined(before.fields[k], after.fields[k])
  }

  lemma {:induction false} PatchKey(before: Js, after: Js, k: string, cur: map<string, Js>) returns (next: map<string, Js>)
    requires before.Obj? && after.Obj? && (k in before.fields || k in after.fields)
    requires SameAt(cur, before.fields, k)
    ensures Patch(Obj(cur), DiffKey(before, after, k)) == Obj(next)
    ensures forall j :: j != k ==> SameAt(next, cur, j)
    ensures SameAt(next, after.fields, k) <==> KeyIsPatched(before, after, k)
    decreases before, 0, 0
  {
    hide Diff, Patch, ApplyEdit, NoKeyBecomesUndefined;
    if k !in before.fields {
      next := cur[k := after.fields[k]];
      PatchOne(cur, DiffKey(before, after, k)[0], k);
    } else if k !in after.fields {
      next := cur - {k};
      PatchOne(cur, DiffKey(before, after, k)[0], k);
    } else if after.fields[k] == Undefined && before.fields[k] != Undefined {
      next := cur - {k};
      RemovedRoot(before.fields[k], k);
      PatchOne(cur, DiffKey(before, after, k)[0], k);
    } else {
      var b, a := before.fields[k], after.fields[k];
      RootRemoval(b, a);
      if a == Undefined { EmptyIffEqual(b, a); }
      PatchIsComplete(b, a);
      PatchUnder(cur, k, Diff(b, a));
      next := cur[k := Patch(b, Diff(b, a))];
    }
  }

  lemma RemovedRoot(b: Js, k: string)
    requires b != Undefined
    ensures Under(k, Diff(b, Undefined)) == [Edit([k], Removed, b, Undefined)]
  {
    assert Diff(b, Undefined) == [Edit([], Removed, b, Undefined)];
    assert [k] + [] == [k];
  }

  lemma PatchOne(cur: map<string, Js>, e: Edit, k: string)
    requires e.keys == [k]
    ensures Patch(Obj(cur), [e]) == Obj(if e.kind == Removed then cur - {k} else cur[k := e.after])
  {
    assert [e][1..] == [] && e.keys[1..] == [];
    assert Patch(Obj(cur), [e]) == Patch(ApplyEdit(Obj(cur), e), []);
  }

  /**
   * The reported differences are a complete patch, that is, applying them in order to `before` yields
   * `after`, exactly when no object key turns into an own `undefined`.
   */
  lemma {:induction false} PatchIsComplete(before: Js, after: Js)
    ensures Patch(before, Diff(before, after)) == after <==> NoKeyBecomesUndefined(before, after)
    decreases before, 1, 0
  {
    if before.Obj? && after.Obj? {
      PatchObject(before, after);
    } else {
      var edits := Diff(before, after);
      if edits != [] {
        assert Patch(before, edits) == Patch(ApplyEdit(before, edits[0]), edits[1..]);
      } else {
        EmptyIffEqual(before, after);
      }
    }
  }

  lemma {:induction false} PatchObject(before: Js, after: Js)
    requires before.Obj? && after.Obj?
    ensures Patch(before, Diff(before, after)) == after <==> NoKeyBecomesUndefined(before, after)
    decreases before, 0, |SortedKeys(before.fields.Keys + after.fields.Keys)| + 1
  {
    hide StrLeq, Patch, DiffKeys;
    var keys := SortedKeys(before.fields.Keys + after.fields.Keys);
    PatchKeys(before, after, keys, before.fields);
    assert Diff(before, after) == DiffKeys(before, after, keys);
    var patched := Patch(before, Diff(before, after)).fields;
    if forall k :: k in keys ==> KeyIsPatched(before, after, k) {
      AllSame(patched, after.fields, keys, before.fields);
    } else {
      var k :| k in keys && !KeyIsPatched(before, after, k);
      assert !SameAt(patched, after.fields, k);
    }
  }

  lemma AllSame(m: map<string, Js>, n: map<string, Js>, keys: seq<string>, cur: map<string, Js>)
    requires forall k :: k in keys <==> k in cur || k in n
    requires forall k :: k in keys ==> SameAt(m, n, k)
    requires forall k :: k !in keys ==> SameAt(m, cur, k)
    ensures m == n
  {
    assert forall k :: k in m ==> k in keys;
    assert forall k :: k in m <==> k in n;
  }

  /** Where the differ misreports: a key set to `undefined` is patched away. */
  lemma OwnUndefinedIsLost()
    ensures var before, after := Obj(map["a" := Num(1)]), Obj(map["a" := Undefined]);
            Patch(before, Diff(before, after)) != after
  {
    var before, after := Obj(map["a" := Num(1)]), Obj(map["a" := Undefined]);
    assert "a" in before.fields && "a" in after.fields;
    assert !NoKeyBecomesUndefined(before, after);
    PatchIsComplete(before, after);
  }

  // ---------- what a single difference says ----------

  /** The value at a key path, Undefined where there is none. */
  function ValueAt(v: Js, keys: seq<string>): Js
    decreases |keys|
  {
    if keys == [] then v
    else if v.Obj? && keys[0] in v.fields then ValueAt(v.fields[keys[0]], keys[1..])
    else Undefined
  }

  /** The two sides are the values found at the path, and the kind tells which of them is missing. */
  ghost predicate Describes(e: Edit, before: Js, after: Js) {
    && e.before == ValueAt(before, e.keys)
    && e.after == ValueAt(after, e.keys)
    && (e.kind == Added ==> e.before == Undefined)
    && (e.kind == Removed ==> e.after == Undefined)
    && (e.kind == Changed ==> e.before != Undefined && e.after != Undefined && e.before != e.after)
  }

  lemma {:induction false} DifferencesDescribe(before: Js, after: Js)
    ensures forall i :: 0 <= i < |Diff(before, after)| ==> Describes(Diff(before, after)[i], before, after)
    decreases before, 1, 0
  {
    if before.Obj? && after.Obj? {
      KeyDifferencesDescribe(before, after, SortedKeys(before.fields.Keys + after.fields.Keys));
    }
  }

  lemma {:induction false} KeyDifferencesDescribe(before: Js, after: Js, keys: seq<string>)
    requires before.Obj? && after.Obj?
    requires forall k :: k in keys ==> k in before.fields || k in after.fields
    ensures forall i :: 0 <= i < |DiffKeys(before, after, keys)| ==> Describes(DiffKeys(before, after, keys)[i], before, after)
    decreases before, 0, |keys|
  {
    if keys != [] {
      KeyDifferencesDescribe(before, after, keys[1..]);
      OneKeyDescribes(before, after, keys[0]);
    }
  }

  lemma {:induction false} OneKeyDescribes(before: Js, after: Js, k: string)
    requires before.Obj? && after.Obj? && (k in before.fields || k in after.fields)
    ensures forall i :: 0 <= i < |DiffKey(before, after, k)| ==> Describes(DiffKey(before, after, k)[i], before, after)
    decreases before, 0, 0
  {
    if k in before.fields && k in after.fields {
      var edits := Diff(before.fields[k], after.fields[k]);
      DifferencesDescribe(before.fields[k], after.fields[k]);
      forall i | 0 <= i < |edits| ensures Describes(Under(k, edits)[i], before, after) {
        assert Describes(edits[i], before.fields[k], after.fields[k]);
        assert Under(k, edits)[i].keys[1..] == edits[i].keys;
      }
    } else {
      assert [k][1..] == [];
      assert ValueAt(before, [k]) == if k in before.fields then before.fields[k] else Undefined;
      assert ValueAt(after, [k]) == if k in after.fields then after.fields[k] else Undefined;
    }
  }

  // ---------- distinct paths ----------

  ghost predicate PrefixFree(edits: seq<Edit>) {
    forall i, j :: 0 <= i < |edits| && 0 <= j < |edits| && i != j ==> !(edits[i].keys <= edits[j].keys)
  }

  /** No reported key path is a prefix of (or equal to) another. */
  lemma {:induction false} PathsArePrefixFree(before: Js, after: Js)
    ensures PrefixFree(Diff(before, after))
    decreases before, 1, 0
  {
    if before.Obj? && after.Obj? {
      KeysArePrefixFree(before, after, SortedKeys(before.fields.Keys + after.fields.Keys));
    }
  }

  lemma {:induction false} KeysArePrefixFree(before: Js, after: Js, keys: seq<string>)
    requires before.Obj? && after.Obj?
    requires forall k :: k in keys ==> k in before.fields || k in after.fields
    requires forall i, j :: 0 <= i < j < |keys| ==> keys[i] != keys[j]
    ensures PrefixFree(DiffKeys(before, after, keys))
    decreases before, 0, |keys|
  {
    if keys != [] {
      var k, rest := keys[0], keys[1..];
      var head, tail := DiffKey(before, after, k), DiffKeys(before, after, rest);
      KeysArePrefixFree(before, after, rest);
      KeysAreNonEmpty(before, after, rest);
      assert k !in rest;
      if k in before.fields && k in after.fields {
        PathsArePrefixFree(before.fields[k], after.fields[k]);
        UnderPrefixFree(k, Diff(before.fields[k], after.fields[k]));
      }
      assert forall i :: 0 <= i < |head| ==> head[i].keys != [] && head[i].keys[0] == k;
      PrefixFreeConcat(k, head, tail);
    }
  }

  lemma PrefixFreeConcat(k: string, head: seq<Edit>, tail: seq<Edit>)
    requires PrefixFree(head) && PrefixFree(tail)
    requires forall i :: 0 <= i < |head| ==> head[i].keys != [] && head[i].keys[0] == k
    requires forall i :: 0 <= i < |tail| ==> tail[i].keys != [] && tail[i].keys[0] != k
    ensures PrefixFree(head + tail)
  {
    var all := head + tail;
    forall i, j | 0 <= i < |all| && 0 <= j < |all| && i != j ensures !(all[i].keys <= all[j].keys) {
      if i < |head| && j < |head| {
        assert all[i] == head[i] && all[j] == head[j];
      } else if i >= |head| && j >= |head| {
        assert all[i] == tail[i - |head|] && all[j] == tail[j - |head|];
      } else {
        assert all[i].keys[0] != all[j].keys[0];
      }
    }
  }

  lemma UnderPrefixFree(key: string, edits: seq<Edit>)
    requires PrefixFree(edits)
    ensures PrefixFree(Under(key, edits))
  {
    var under := Under(key, edits);
    forall i, j | 0 <= i < |under| && 0 <= j < |under| && i != j ensures !(under[i].keys <= under[j].keys) {
      ConsPrefix(key, edits[i].keys, edits[j].keys);
    }
  }

  lemma ConsPrefix(key: string, a: seq<string>, b: seq<string>)
    ensures [key] + a <= [key] + b <==> a <= b
  {
    assert a == ([key] + a)[1..] && b == ([key] + b)[1..];
  }

  // ---------- the order of the differences, and how paths are written ----------

  /** The first key in which two paths differ decides, by the default sort order. */
  ghost predicate PathBefore(p: seq<string>, q: seq<string>) {
    exists i :: 0 <= i < |p| && i < |q| && p[..i] == q[..i] && p[i] != q[i] && StrLeq(p[i], q[i])
  }

  ghost predicate InPathOrder(edits: seq<Edit>) {
    forall i, j :: 0 <= i < j < |edits| ==> PathBefore(edits[i].keys, edits[j].keys)
  }

  ghost predicate StartIn(edits: seq<Edit>, keys: seq<string>) {
    forall i :: 0 <= i < |edits| ==> edits[i].keys != [] && edits[i].keys[0] in keys
  }

  /** Differences are reported in ascending order of their paths. */
  lemma {:induction false} DifferencesInOrder(before: Js, after: Js)
    ensures InPathOrder(Diff(before, after))
    decreases before, 1, 0
  {
    if before.Obj? && after.Obj? {
      KeysInOrder(before, after, SortedKeys(before.fields.Keys + after.fields.Keys));
    }
  }

  lemma {:induction false} KeysInOrder(before: Js, after: Js, keys: seq<string>)
    requires before.Obj? && after.Obj?
    requires forall k :: k in keys ==> k in before.fields || k in after.fields
    requires forall i, j :: 0 <= i < j < |keys| ==> keys[i] != keys[j] && StrLeq(keys[i], keys[j])
    ensures StartIn(DiffKeys(before, after, keys), keys)
    ensures InPathOrder(DiffKeys(before, after, keys))
    decreases before, 0, |keys|
  {
    hide StrLeq, PathBefore, InPathOrder, StartIn;
    if keys == [] {
      NoneInOrder();
    } else {
      KeysInOrder(before, after, keys[1..]);
      OneKeyInOrder(before, after, keys[0]);
      assert forall i :: 0 < i < |keys| ==> keys[i] == keys[1..][i - 1];
      ConcatInOrder(DiffKey(before, after, keys[0]), DiffKeys(before, after, keys[1..]), keys);
    }
  }

  lemma NoneInOrder()
    ensures InPathOrder([]) && StartIn([], [])
  {
  }

  lemma ConcatInOrder(first: seq<Edit>, rest: seq<Edit>, keys: seq<string>)
    requires keys != [] && StartIn(first, [keys[0]]) && StartIn(rest, keys[1..])
    requires InPathOrder(first) && InPathOrder(rest)
    requires forall i :: 0 < i < |keys| ==> keys[0] != keys[i] && StrLeq(keys[0], keys[i])
    ensures InPathOrder(first + rest) && StartIn(first + rest, keys)
  {
    hide StrLeq, PathBefore;
    forall i, j | 0 <= i < |first| && 0 <= j < |rest| ensures PathBefore(first[i].keys, rest[j].keys) {
      var k :| 0 <= k < |keys[1..]| && keys[1..][k] == rest[j].keys[0];
      assert keys[k + 1] == rest[j].keys[0];
      FirstKeyDecides(first[i].keys, rest[j].keys);
    }
    forall i, j | 0 <= i < j < |first + rest| ensures PathBefore((first + rest)[i].keys, (first + rest)[j].keys) {
      if j < |first| { assert PathBefore(first[i].keys, first[j].keys); }
      if i >= |first| { assert PathBefore(rest[i - |first|].keys, rest[j - |first|].keys); }
    }
  }

  lemma FirstKeyDecides(p: seq<string>, q: seq<string>)
    requires p != [] && q != [] && p[0] != q[0] && StrLeq(p[0], q[0])
    ensures PathBefore(p, q)
  {
    assert p[..0] == q[..0];
  }

  lemma {:induction false} OneKeyInOrder(before: Js, after: Js, k: string)
    requires before.Obj? && after.Obj? && (k in before.fields || k in after.fields)
    ensures StartIn(DiffKey(before, after, k), [k]) && InPathOrder(DiffKey(before, after, k))
    decreases before, 0, 0
  {
    hide StrLeq, PathBefore;
    if k in before.fields && k in after.fields {
      DifferencesInOrder(before.fields[k], after.fields[k]);
      UnderInOrder(k, Diff(before.fields[k], after.fields[k]));
    }
  }

  lemma UnderInOrder(k: string, edits: seq<Edit>)
    requires InPathOrder(edits)
    ensures InPathOrder(Under(k, edits)) && StartIn(Under(k, edits), [k])
  {
    hide PathBefore;
    forall i, j | 0 <= i < j < |edits| ensures PathBefore(Under(k, edits)[i].keys, Under(k, edits)[j].keys) {
      LaterUnder(k, edits[i].keys, edits[j].keys);
    }
  }

  lemma LaterUnder(k: string, p: seq<string>, q: seq<string>)
    requires PathBefore(p, q)
    ensures PathBefore([k] + p, [k] + q)
  {
    var i :| 0 <= i < |p| && i < |q| && p[..i] == q[..i] && p[i] != q[i] && StrLeq(p[i], q[i]);
    assert ([k] + p)[..i + 1] == [k] + p[..i] && ([k] + q)[..i + 1] == [k] + q[..i];
  }

  /** A key is written after a dot, or in brackets and quotes when it has a dot or a space in it. */
  lemma PathsAreWritten(keys: seq<string>, key: string)
    requires key != "" && key[0] != '[' && '"' !in key
    ensures var written := if '.' in key || ' ' in key then "[\"" + key + "\"]" else key;
            && Render([key]) == written
            && (Render(keys) != "" ==>
                 Render(keys + [key]) == Render(keys) + (if '.' in key || ' ' in key then written else "." + written))
  {
    NothingToReplace(key);
    assert (keys + [key])[..|keys|] == keys && [key][..0] == [];
    var e := EscapeKey(key);
    assert "[" <= e <==> e[0] == '[';
  }

  /** Quotes in such a key are escaped by a backslash. */
  lemma QuotesAreEscaped()
    ensures Render(["a \"b\""]) == "[\"a \\\"b\\\"\"]"
  {
    var key: string := "a \"b\"";
    var path := [key];
    assert path[..0] == [];
    assert key[1] == ' ';
    assert key[1..] == " \"b\"" && key[1..][1..] == "\"b\"" && key[1..][1..][1..] == "b\"" && key[1..][1..][1..][1..] == "\""
           && key[1..][1..][1..][1..][1..] == "";
    assert ReplaceQuotes("\"") == "\\\"";
    assert ReplaceQuotes("b\"") == "b\\\"";
    assert ReplaceQuotes("\"b\"") == "\\\"b\\\"";
    assert ReplaceQuotes(" \"b\"") == " \\\"b\\\"";
    assert ReplaceQuotes(key) == "a \\\"b\\\"";
  }

  /** A non-empty key free of brackets, double quotes and backslashes. */
  predicate CleanKey(k: string) {
    k != "" && '[' !in k && ']' !in k && '"' !in k && '\\' !in k
  }

  ghost predicate CleanPath(keys: seq<string>) {
    forall k :: k in keys ==> CleanKey(k)
  }

  lemma {:induction false} NothingToReplace(key: string)
    requires '"' !in key
    ensures ReplaceQuotes(key) == key
  {
    if key != "" {
      NothingToReplace(key[1..]);
      assert [key[0]] + key[1..] == key;
    }
  }

  predicate Bracketed(key: string) {
    '.' in key || ' ' in key
  }

  /** What printing appends for a clean last key. */
  lemma JoinCleanKey(path: string, key: string)
    requires CleanKey(key)
    ensures Bracketed(key) ==> JoinPath(path, key) == path + "[\"" + key + "\"]"
    ensures !Bracketed(key) ==> JoinPath(path, key) == if path == "" then key else path + "." + key
  {
    NothingToReplace(key);
    if Bracketed(key) {
      var escaped := "[\"" + key + "\"]";
      assert EscapeKey(key) == escaped && "[" <= escaped;
      assert path + escaped == path + "[\"" + key + "\"]";
      assert "" + escaped == escaped;
    }
  }

  lemma RenderIsEmpty(keys: seq<string>)
    requires CleanPath(keys)
    ensures Render(keys) == "" <==> keys == []
  {
    if keys != [] { JoinCleanKey(Render(keys[..|keys| - 1]), keys[|keys| - 1]); }
  }

  /** A mark that occurs in neither tail is found at the same place. */
  lemma SameTail(p: string, j: string, q: string, k: string, mark: char)
    requires mark !in j && mark !in k && p + [mark] + j == q + [mark] + k
    ensures p == q && j == k
  {
    var s := p + [mark] + j;
    var t := q + [mark] + k;
    assert s[|p|] == mark && t[|q|] == mark;
    assert forall m :: |p| < m < |s| ==> s[m] == j[m - |p| - 1];
    assert forall m :: |q| < m < |t| ==> t[m] == k[m - |q| - 1];
    assert |p| == |q|;
    assert p == s[..|p|] && q == t[..|q|];
    assert j == s[|p| + 1..] && k == t[|q| + 1..];
  }

  lemma SameBracketedTail(p: string, j: string, q: string, k: string)
    requires CleanKey(j) && CleanKey(k) && p + "[\"" + j + "\"]" == q + "[\"" + k + "\"]"
    ensures p == q && j == k
  {
    var s := p + "[\"" + j + "\"]";
    var t := q + "[\"" + k + "\"]";
    var p1, q1 := p + "[", q + "[";
    assert s[..|s| - 2] == p1 + ['"'] + j;
    assert t[..|t| - 2] == q1 + ['"'] + k;
    SameTail(p1, j, q1, k, '"');
    assert p == p1[..|p|] && q == q1[..|q|];
  }

  /** Printing is injective: two different lists of clean keys never print alike. */
  lemma {:induction false} RenderInjective(a: seq<string>, b: seq<string>)
    requires CleanPath(a) && CleanPath(b) && Render(a) == Render(b)
    ensures a == b
    decreases |a|
  {
    RenderIsEmpty(a);
    RenderIsEmpty(b);
    if a != [] {
      var a', j := a[..|a| - 1], a[|a| - 1];
      var b', k := b[..|b| - 1], b[|b| - 1];
      LastKey(Render(a'), j, Render(b'), k);
      RenderInjective(a', b');
      assert a == a' + [j] && b == b' + [k];
    }
  }

  /** With a bracket in a key two different paths can print alike. */
  lemma UncleanKeysCollide()
    ensures Render(["p", "[x]"]) == Render(["p[x]"]) == "p[x]"
  {
    var two, one := ["p", "[x]"], ["p[x]"];
    assert two[..1] == ["p"] && two[..1][..0] == [] && one[..0] == [];
    assert "[" <= "[x]";
    assert "p" + "[x]" == "p[x]";
  }

  /** The last key and the path before it can be read off the printed path. */
  lemma LastKey(p: string, j: string, q: string, k: string)
    requires CleanKey(j) && CleanKey(k) && JoinPath(p, j) == JoinPath(q, k)
    ensures p == q && j == k
  {
    hide JoinPath;
    JoinCleanKey(p, j);
    JoinCleanKey(q, k);
    var s, t := JoinPath(p, j), JoinPath(q, k);
    assert s[|s| - 1] == (if Bracketed(j) then ']' else j[|j| - 1]);
    assert t[|t| - 1] == (if Bracketed(k) then ']' else k[|k| - 1]);
    if Bracketed(j) {
      SameBracketedTail(p, j, q, k);
    } else {
      assert p != "" ==> s[|p|] == '.';
      assert q != "" ==> t[|q|] == '.';
      assert ('.' in s <==> p != "") && ('.' in t <==> q != "");
      if p != "" {
        assert "." == ['.'];
        SameTail(p, j, q, k, '.');
      }
    }
  }

  /** Every object key of the value, at any depth of nested objects, is clean. */
  ghost predicate CleanKeys(v: Js)
    decreases v
  {
    v.Obj? ==> forall k :: k in v.fields ==> CleanKey(k) && CleanKeys(v.fields[k])
  }

  lemma {:induction false} PathsAreClean(before: Js, after: Js)
    requires CleanKeys(before) && CleanKeys(after)
    ensures forall i :: 0 <= i < |Diff(before, after)| ==> CleanPath(Diff(before, after)[i].keys)
    decreases before, 1, 0
  {
    if before.Obj? && after.Obj? {
      KeyPathsAreClean(before, after, SortedKeys(before.fields.Keys + after.fields.Keys));
    }
  }

  lemma {:induction false} KeyPathsAreClean(before: Js, after: Js, keys: seq<string>)
    requires CleanKeys(before) && CleanKeys(after)
    requires before.Obj? && after.Obj?
    requires forall k :: k in keys ==> k in before.fields || k in after.fields
    ensures forall i :: 0 <= i < |DiffKeys(before, after, keys)| ==> CleanPath(DiffKeys(before, after, keys)[i].keys)
    decreases before, 0, |keys|
  {
    if keys != [] {
      var k := keys[0];
      KeyPathsAreClean(before, after, keys[1..]);
      assert forall e :: e in DiffKey(before, after, k) ==> e.keys != [] && e.keys[0] == k;
      if k in before.fields && k in after.fields {
        PathsAreClean(before.fields[k], after.fields[k]);
      }
    }
  }

  /** No two reported differences carry the same path string. */
  lemma ReportedPathsAreDistinct(before: Js, after: Js, i: nat, j: nat)
    requires CleanKeys(before) && CleanKeys(after)
    requires i < j < |Report([], Diff(before, after))|
    ensures Report([], Diff(before, after))[i].path != Report([], Diff(before, after))[j].path
  {
    var edits := Diff(before, after);
    PathsArePrefixFree(before, after);
    PathsAreClean(before, after);
    assert [] + edits[i].keys == edits[i].keys && [] + edits[j].keys == edits[j].keys;
    if Render(edits[i].keys) == Render(edits[j].keys) {
      RenderInjective(edits[i].keys, edits[j].keys);
    }
  }
}
