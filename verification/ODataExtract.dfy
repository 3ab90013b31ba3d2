/** Flattening, field index and value extraction over transformed OData filters. */
module ODataExtract {
  import opened JsText
  import opened ODataFilter

  function FlattenFilters(f: Filter): seq<Filter>
    decreases f, 1
  {
    match f
    case Logical(_, filters) => FlattenAll(filters)
    case Not(inner) => FlattenFilters(inner)
    case _ => [f]
  }

  function FlattenAll(filters: seq<Filter>): seq<Filter>
    decreases filters, 0
  {
    if filters == [] then [] else FlattenFilters(filters[0]) + FlattenAll(filters[1..])
  }

  predicate IsLeaf(f: Filter) {
    !f.Logical? && !f.Not?
  }

  function Select(filters: seq<Filter>, p: Filter -> bool): seq<Filter> {
    if filters == [] then []
    else (if p(filters[0]) then [filters[0]] else []) + Select(filters[1..], p)
  }

  predicate IsOnField(f: Filter, fieldName: string) {
    IsLeaf(f) && f.field == fieldName
  }

  function GetFiltersForField(f: Filter, fieldName: string): seq<Filter> {
    Select(FlattenFilters(f), g => IsOnField(g, fieldName))
  }

  function FindFirst(filters: seq<Filter>, p: Filter -> bool): Option<Filter> {
    if filters == [] then None
    else if p(filters[0]) then Some(filters[0])
    else FindFirst(filters[1..], p)
  }

  function ExtractInValues(f: Filter, fieldName: string): Option<seq<RawValue>> {
    match FindFirst(GetFiltersForField(f, fieldName), (g: Filter) => g.In?)
    case Some(g) => if g.In? then Some(g.values) else None
    case None => None
  }

  function ExtractEqualityValues(f: Filter, fieldName: string): seq<RawValue> {
    EqualityValues(GetFiltersForField(f, fieldName))
  }

  function EqualityValues(filters: seq<Filter>): seq<RawValue> {
    if filters == [] then []
    else
      (if filters[0].Comparison? && filters[0].op == "eq" then [Scalar(filters[0].value)] else [])
      + EqualityValues(filters[1..])
  }

  function ExtractFieldValues(f: Filter, fieldName: string): Option<seq<RawValue>> {
    var inValues := ExtractInValues(f, fieldName);
    if inValues.Some? then inValues
    else
      var eqValues := ExtractEqualityValues(f, fieldName);
      if eqValues != [] then Some(eqValues) else None
  }

  function CollectAndFilters(f: Filter): seq<Filter>
    decreases f, 1
  {
    if f.Logical? && f.op == "and" then CollectAndAll(f.filters) else [f]
  }

  function CollectAndAll(filters: seq<Filter>): seq<Filter>
    decreases filters, 0
  {
    if filters == [] then [] else CollectAndFilters(filters[0]) + CollectAndAll(filters[1..])
  }

  function CollectOrFilters(f: Filter): seq<Filter>
    decreases f, 1
  {
    if f.Logical? && f.op == "or" then CollectOrAll(f.filters) else [f]
  }

  function CollectOrAll(filters: seq<Filter>): seq<Filter>
    decreases filters, 0
  {
    if filters == [] then [] else CollectOrFilters(filters[0]) + CollectOrAll(filters[1..])
  }

  // ---------- the loops ----------

  /** The index: for each non-empty field name, its leaf filters in the order they occur. */
  method CreateFilterMap(f: Filter) returns (filterMap: map<string, seq<Filter>>)
    ensures forall name :: name in filterMap <==> name != "" && GetFiltersForField(f, name) != []
    ensures forall name :: name in filterMap ==> filterMap[name] == GetFiltersForField(f, name)
  {
    hide OnField;
    var allFilters := FlattenFilters(f);
    NothingOnField(f);
    filterMap := map[];
    FlattenedAreLeaves(f);
    for i := 0 to |allFilters|
      invariant forall name :: name in filterMap <==> name != "" && OnField(allFilters[..i], name) != []
      invariant forall name :: name in filterMap ==> filterMap[name] == OnField(allFilters[..i], name)
    {
      var g := allFilters[i];
      OneMoreFilter(allFilters, i);
      if g.field != "" {
        var existing := if g.field in filterMap then filterMap[g.field] else [];
        filterMap := filterMap[g.field := existing + [g]];
      }
    }
    assert allFilters[..|allFilters|] == allFilters;
  }

  ghost function OnField(filters: seq<Filter>, name: string): seq<Filter> {
    Select(filters, g => IsOnField(g, name))
  }

  lemma NothingOnField(f: Filter)
    ensures forall name :: OnField([], name) == []
    ensures forall name :: GetFiltersForField(f, name) == OnField(FlattenFilters(f), name)
  {
  }

  lemma OneMoreFilter(filters: seq<Filter>, i: nat)
    requires i < |filters| && IsLeaf(filters[i])
    ensures forall name :: OnField(filters[..i + 1], name) ==
                           if filters[i].field == name then OnField(filters[..i], name) + [filters[i]] else OnField(filters[..i], name)
  {
    assert filters[..i + 1] == filters[..i] + [filters[i]];
    forall name ensures OnField(filters[..i + 1], name) ==
                        if filters[i].field == name then OnField(filters[..i], name) + [filters[i]] else OnField(filters[..i], name)
    {
      SelectSnoc(filters[..i], filters[i], h => IsOnField(h, name));
    }
  }

  /** Distinct field names in order of first occurrence. */
  method GetFilteredFieldNames(f: Filter) returns (names: seq<string>)
    ensures forall name :: name in names <==> GetFiltersForField(f, name) != []
    ensures forall i, j :: 0 <= i < j < |names| ==> names[i] != names[j]
  {
    hide OnField;
    var allFilters := FlattenFilters(f);
    NothingOnField(f);
    names := [];
    FlattenedAreLeaves(f);
    for i := 0 to |allFilters|
      invariant forall name :: name in names <==> OnField(allFilters[..i], name) != []
      invariant forall j, k :: 0 <= j < k < |names| ==> names[j] != names[k]
    {
      var g := allFilters[i];
      OneMoreFilter(allFilters, i);
      if g.field !in names {
        names := names + [g.field];
      }
    }
    assert allFilters[..|allFilters|] == allFilters;
  }

  // ---------- facts about flattening and selection ----------

  lemma {:induction false} FlattenedAreLeaves(f: Filter)
    ensures forall i :: 0 <= i < |FlattenFilters(f)| ==> IsLeaf(FlattenFilters(f)[i])
    decreases f, 1
  {
    match f
    case Logical(_, filters) => AllFlattenedAreLeaves(filters);
    case Not(inner) => FlattenedAreLeaves(inner);
    case _ =>
  }

  lemma {:induction false} AllFlattenedAreLeaves(filters: seq<Filter>)
    ensures forall i :: 0 <= i < |FlattenAll(filters)| ==> IsLeaf(FlattenAll(filters)[i])
    decreases filters, 0
  {
    if filters != [] {
      FlattenedAreLeaves(filters[0]);
      AllFlattenedAreLeaves(filters[1..]);
    }
  }

  /** A leaf of a filter: itself, or a leaf of what it negates or combines. */
  ghost predicate IsLeafOf(leaf: Filter, f: Filter)
    decreases f
  {
    match f
    case Logical(_, filters) => exists i :: 0 <= i < |filters| && IsLeafOf(leaf, filters[i])
    case Not(inner) => IsLeafOf(leaf, inner)
    case _ => leaf == f
  }

  /** Flattening lists exactly the leaves. */
  lemma {:induction false} FlattenedExactly(f: Filter, leaf: Filter)
    ensures leaf in FlattenFilters(f) <==> IsLeafOf(leaf, f)
    decreases f, 1
  {
    match f
    case Logical(_, filters) => AllFlattenedExactly(filters, leaf);
    case Not(inner) => FlattenedExactly(inner, leaf);
    case _ =>
  }

  lemma {:induction false} AllFlattenedExactly(filters: seq<Filter>, leaf: Filter)
    ensures leaf in FlattenAll(filters) <==> exists i :: 0 <= i < |filters| && IsLeafOf(leaf, filters[i])
    decreases filters, 0
  {
    if filters != [] {
      FlattenedExactly(filters[0], leaf);
      AllFlattenedExactly(filters[1..], leaf);
      if i :| 0 <= i < |filters| && IsLeafOf(leaf, filters[i]) {
        assert i == 0 || filters[i] == filters[1..][i - 1];
      }
      if i :| 0 <= i < |filters[1..]| && IsLeafOf(leaf, filters[1..][i]) {
        assert filters[i + 1] == filters[1..][i];
      }
    }
  }

  /** In the order in which they are written: the leaves of one operand before those of the next. */
  lemma {:induction false} FlattenedInOrder(op: string, a: seq<Filter>, b: seq<Filter>)
    ensures FlattenFilters(Logical(op, a + b)) == FlattenFilters(Logical(op, a)) + FlattenFilters(Logical(op, b))
    decreases |a|
  {
    if a == [] {
      assert a + b == b;
    } else {
      assert (a + b)[0] == a[0] && (a + b)[1..] == a[1..] + b;
      FlattenedInOrder(op, a[1..], b);
    }
  }

  lemma SelectCons(filters: seq<Filter>, p: Filter -> bool)
    requires filters != []
    ensures Select(filters, p) == (if p(filters[0]) then [filters[0]] else []) + Select(filters[1..], p)
  {
  }

  lemma {:induction false} SelectSnoc(filters: seq<Filter>, g: Filter, p: Filter -> bool)
    ensures Select(filters + [g], p) == Select(filters, p) + (if p(g) then [g] else [])
  {
    if filters == [] {
      assert filters + [g] == [g] && [g][1..] == [];
    } else {
      var all := filters + [g];
      assert all[0] == filters[0] && all[1..] == filters[1..] + [g];
      SelectSnoc(filters[1..], g, p);
      SelectCons(all, p);
      SelectCons(filters, p);
    }
  }

  // ---------- collected conjunctions and disjunctions ----------

  lemma {:induction false} AllOfConcat(less: (Value, Value) -> bool, a: seq<Filter>, b: seq<Filter>, row: Row)
    ensures AllOf(less, a + b, row) == And(AllOf(less, a, row), AllOf(less, b, row))
    decreases |a|
  {
    if a == [] {
      assert a + b == b;
    } else {
      assert (a + b)[1..] == a[1..] + b;
      AllOfConcat(less, a[1..], b, row);
    }
  }

  lemma {:induction false} AnyOfConcat(less: (Value, Value) -> bool, a: seq<Filter>, b: seq<Filter>, row: Row)
    ensures AnyOf(less, a + b, row) == Or(AnyOf(less, a, row), AnyOf(less, b, row))
    decreases |a|
  {
    if a == [] {
      assert a + b == b;
    } else {
      assert (a + b)[1..] == a[1..] + b;
      AnyOfConcat(less, a[1..], b, row);
    }
  }

  /** The collected filters mean, conjoined, what the filter means, and none is itself a conjunction. */
  lemma {:induction false} CollectedConjunction(less: (Value, Value) -> bool, f: Filter, row: Row)
    ensures AllOf(less, CollectAndFilters(f), row) == EvalFilter(less, f, row)
    ensures forall i :: 0 <= i < |CollectAndFilters(f)| ==>
              !(CollectAndFilters(f)[i].Logical? && CollectAndFilters(f)[i].op == "and")
    decreases f, 1
  {
    if f.Logical? && f.op == "and" { CollectedConjunctions(less, f.filters, row); }
    else { assert [f][1..] == []; assert AllOf(less, [f], row) == And(EvalFilter(less, f, row), AllOf(less, [], row)); }
  }

  lemma {:induction false} CollectedConjunctions(less: (Value, Value) -> bool, filters: seq<Filter>, row: Row)
    ensures AllOf(less, CollectAndAll(filters), row) == AllOf(less, filters, row)
    ensures forall i :: 0 <= i < |CollectAndAll(filters)| ==>
              !(CollectAndAll(filters)[i].Logical? && CollectAndAll(filters)[i].op == "and")
    decreases filters, 0
  {
    if filters != [] {
      CollectedConjunction(less, filters[0], row);
      CollectedConjunctions(less, filters[1..], row);
      AllOfConcat(less, CollectAndFilters(filters[0]), CollectAndAll(filters[1..]), row);
    }
  }

  /** The collected filters mean, disjoined, what the filter means, and none is itself a disjunction. */
  lemma {:induction false} CollectedDisjunction(less: (Value, Value) -> bool, f: Filter, row: Row)
    ensures AnyOf(less, CollectOrFilters(f), row) == EvalFilter(less, f, row)
    ensures forall i :: 0 <= i < |CollectOrFilters(f)| ==>
              !(CollectOrFilters(f)[i].Logical? && CollectOrFilters(f)[i].op == "or")
    decreases f, 1
  {
    if f.Logical? && f.op == "or" { CollectedDisjunctions(less, f.filters, row); }
    else { assert [f][1..] == []; assert AnyOf(less, [f], row) == Or(EvalFilter(less, f, row), AnyOf(less, [], row)); }
  }

  lemma {:induction false} CollectedDisjunctions(less: (Value, Value) -> bool, filters: seq<Filter>, row: Row)
    ensures AnyOf(less, CollectOrAll(filters), row) == AnyOf(less, filters, row)
    ensures forall i :: 0 <= i < |CollectOrAll(filters)| ==>
              !(CollectOrAll(filters)[i].Logical? && CollectOrAll(filters)[i].op == "or")
    decreases filters, 0
  {
    if filters != [] {
      CollectedDisjunction(less, filters[0], row);
      CollectedDisjunctions(less, filters[1..], row);
      AnyOfConcat(less, CollectOrFilters(filters[0]), CollectOrAll(filters[1..]), row);
    }
  }

  // ---------- the values a filter on one field accepts ----------

  /** Any combination, by and, or and not, of (in)equalities and lists on one field. */
  ghost predicate OnOneField(f: Filter, field: string)
    decreases f
  {
    match f
    case Comparison(name, op, _) => name == field && op in {"eq", "ne"}
    case In(name, _) => name == field
    case NotIn(name, _) => name == field
    case StringFunction(_, _, _) => false
    case Logical(op, filters) => op in {"and", "or"} && forall i :: 0 <= i < |filters| ==> OnOneField(filters[i], field)
    case Not(inner) => OnOneField(inner, field)
  }

  // Finitely many values, or all but finitely many.
  datatype Accepted = Only(values: set<RawValue>) | AllBut(values: set<RawValue>)

  predicate Has(a: Accepted, v: Value) {
    match a
    case Only(values) => Scalar(v) in values
    case AllBut(values) => Scalar(v) !in values
  }

  function Complement(a: Accepted): Accepted {
    match a case Only(values) => AllBut(values) case AllBut(values) => Only(values)
  }

  function Union(a: Accepted, b: Accepted): Accepted {
    if a.Only? && b.Only? then Only(a.values + b.values)
    else if a.Only? then AllBut(b.values - a.values)
    else if b.Only? then AllBut(a.values - b.values)
    else AllBut(a.values * b.values)
  }

  function Intersection(a: Accepted, b: Accepted): Accepted {
    Complement(Union(Complement(a), Complement(b)))
  }

  /** The accepted values, computed from the leaves up; no row is looked at. */
  function AcceptedValues(f: Filter): Accepted
    decreases f, 1
  {
    match f
    case Comparison(_, op, value) => if op == "eq" then Only({Scalar(value)}) else AllBut({Scalar(value)})
    case In(_, values) => Only(set x | x in values)
    case NotIn(_, values) => AllBut(set x | x in values)
    case StringFunction(_, _, _) => Only({})
    case Logical(op, filters) => if op == "and" then AcceptedByAll(filters) else AcceptedByAny(filters)
    case Not(inner) => Complement(AcceptedValues(inner))
  }

  function AcceptedByAll(filters: seq<Filter>): Accepted
    decreases filters, 0
  {
    if filters == [] then AllBut({}) else Intersection(AcceptedValues(filters[0]), AcceptedByAll(filters[1..]))
  }

  function AcceptedByAny(filters: seq<Filter>): Accepted
    decreases filters, 0
  {
    if filters == [] then Only({}) else Union(AcceptedValues(filters[0]), AcceptedByAny(filters[1..]))
  }

  lemma UnionHas(a: Accepted, b: Accepted, v: Value)
    ensures Has(Union(a, b), v) <==> Has(a, v) || Has(b, v)
    ensures Has(Intersection(a, b), v) <==> Has(a, v) && Has(b, v)
    ensures Has(Complement(a), v) <==> !Has(a, v)
  {
  }

  /** A row satisfies such a filter exactly when the field's value is among the accepted ones. */
  lemma {:induction false} AcceptedMeaning(less: (Value, Value) -> bool, f: Filter, field: string, row: Row)
    requires OnOneField(f, field)
    ensures EvalFilter(less, f, row) == Known(Has(AcceptedValues(f), FieldValue(row, field)))
    decreases f, 1
  {
    match f
    case Logical(op, filters) => AllAcceptedMeaning(less, filters, field, row);
    case Not(inner) =>
      AcceptedMeaning(less, inner, field, row);
      UnionHas(AcceptedValues(inner), Only({}), FieldValue(row, field));
    case _ =>
  }

  lemma {:induction false} AllAcceptedMeaning(less: (Value, Value) -> bool, filters: seq<Filter>, field: string, row: Row)
    requires forall i :: 0 <= i < |filters| ==> OnOneField(filters[i], field)
    ensures AllOf(less, filters, row) == Known(Has(AcceptedByAll(filters), FieldValue(row, field)))
    ensures AnyOf(less, filters, row) == Known(Has(AcceptedByAny(filters), FieldValue(row, field)))
    decreases filters, 0
  {
    if filters != [] {
      hide Union, Intersection, Complement, Has, OnOneField;
      AcceptedMeaning(less, filters[0], field, row);
      AllAcceptedMeaning(less, filters[1..], field, row);
      UnionHas(AcceptedValues(filters[0]), AcceptedByAll(filters[1..]), FieldValue(row, field));
      UnionHas(AcceptedValues(filters[0]), AcceptedByAny(filters[1..]), FieldValue(row, field));
    } else {
      assert Has(AllBut({}), FieldValue(row, field)) && !Has(Only({}), FieldValue(row, field));
    }
  }

  /** Beyond finitely many values there is always another one. */
  lemma FreshValue(values: set<RawValue>) returns (v: Value)
    ensures Scalar(v) !in values
  {
    var r := NumberAbove(values);
    v := Num(r);
  }

  lemma {:induction false} NumberAbove(values: set<RawValue>) returns (r: real)
    ensures forall x :: x in values && x.Scalar? && x.v.Num? ==> x.v.r < r
    decreases |values|
  {
    r := 0.0;
    if x :| x in values {
      r := NumberAbove(values - {x});
      if x.Scalar? && x.v.Num? && x.v.r >= r { r := x.v.r + 1.0; }
    }
  }

  /** The extracted values; none when the filter yields no list. */
  function Extracted(f: Filter, field: string): seq<RawValue> {
    match ExtractFieldValues(f, field) case Some(values) => values case None => []
  }

  ghost predicate CoversAcceptedRows(less: (Value, Value) -> bool, f: Filter, field: string) {
    forall row :: EvalFilter(less, f, row) == True ==> Member(FieldValue(row, field), Extracted(f, field))
  }

  /** The first list among the leaves is the one at `i`. */
  ghost predicate FirstListAt(leaves: seq<Filter>, i: int) {
    0 <= i < |leaves| && leaves[i].In? && forall j :: 0 <= j < i ==> !leaves[j].In?
  }

  /** A value is written in the first list among the leaves or, where no leaf is a list, in an equality. */
  ghost predicate Written(leaves: seq<Filter>, field: string, v: Value) {
    if exists i :: 0 <= i < |leaves| && leaves[i].In? then exists i :: FirstListAt(leaves, i) && Scalar(v) in leaves[i].values
    else Comparison(field, "eq", v) in leaves
  }

  /**
   * Every satisfying row has its value among the extracted ones exactly when the filter accepts finitely many
   * values, and each is written in its first list or, where it has no list, in one of its equalities.
   */
  lemma SatisfyingValuesAreExtracted(less: (Value, Value) -> bool, f: Filter, field: string)
    requires OnOneField(f, field)
    ensures CoversAcceptedRows(less, f, field) <==>
            && AcceptedValues(f).Only?
            && forall v: Value :: Scalar(v) in AcceptedValues(f).values ==> Written(FlattenFilters(f), field, v)
  {
    hide EvalFilter, AcceptedValues, ExtractFieldValues, OnOneField, Written, FlattenFilters;
    var accepted, extracted := AcceptedValues(f), Extracted(f, field);
    forall row ensures EvalFilter(less, f, row) == True <==> Has(accepted, FieldValue(row, field)) {
      AcceptedMeaning(less, f, field, row);
    }
    forall v: Value ensures Scalar(v) in extracted <==> Written(FlattenFilters(f), field, v) {
      ExtractedIsWritten(f, field, v);
    }
    if accepted.AllBut? {
      var v := FreshValue(accepted.values + set x | x in extracted);
      var row: Row := _ => v;
      assert FieldValue(row, field) == v && EvalFilter(less, f, row) == True && !Member(v, extracted);
    } else if CoversAcceptedRows(less, f, field) {
      forall v: Value | Scalar(v) in accepted.values ensures Scalar(v) in extracted {
        var row: Row := _ => v;
        assert FieldValue(row, field) == v && EvalFilter(less, f, row) == True;
      }
    }
  }

  /** The extracted values are exactly those written in the first list or, without a list, in the equalities. */
  lemma ExtractedIsWritten(f: Filter, field: string, v: Value)
    requires OnOneField(f, field)
    ensures Scalar(v) in Extracted(f, field) <==> Written(FlattenFilters(f), field, v)
  {
    hide FlattenFilters, OnOneField, Written;
    var leaves := FlattenFilters(f);
    LeavesAreOnField(f, field);
    SelectAll(leaves, field);
    assert GetFiltersForField(f, field) == leaves;
    FirstListIsFound(leaves);
    EqualitiesAreFound(leaves, field, v);
    assert ExtractEqualityValues(f, field) == EqualityValues(leaves);
    WrittenCases(leaves, field, v);
  }

  lemma WrittenCases(leaves: seq<Filter>, field: string, v: Value)
    ensures (forall i :: 0 <= i < |leaves| ==> !leaves[i].In?) ==>
              (Written(leaves, field, v) <==> Comparison(field, "eq", v) in leaves)
    ensures forall i :: FirstListAt(leaves, i) ==> (Written(leaves, field, v) <==> Scalar(v) in leaves[i].values)
  {
    forall i | FirstListAt(leaves, i) ensures Written(leaves, field, v) <==> Scalar(v) in leaves[i].values {
      assert forall j :: FirstListAt(leaves, j) ==> j == i;
    }
  }

  lemma {:induction false} LeavesAreOnField(f: Filter, field: string)
    requires OnOneField(f, field)
    ensures forall g :: g in FlattenFilters(f) ==> IsOnField(g, field)
    decreases f, 1
  {
    match f
    case Logical(_, filters) => AllLeavesAreOnField(filters, field);
    case Not(inner) => LeavesAreOnField(inner, field);
    case _ =>
  }

  lemma {:induction false} AllLeavesAreOnField(filters: seq<Filter>, field: string)
    requires forall i :: 0 <= i < |filters| ==> OnOneField(filters[i], field)
    ensures forall g :: g in FlattenAll(filters) ==> IsOnField(g, field)
    decreases filters, 0
  {
    if filters != [] {
      LeavesAreOnField(filters[0], field);
      AllLeavesAreOnField(filters[1..], field);
    }
  }

  lemma {:induction false} SelectAll(filters: seq<Filter>, field: string)
    requires forall g :: g in filters ==> IsOnField(g, field)
    ensures OnField(filters, field) == filters
  {
    if filters != [] {
      assert filters[0] in filters;
      SelectAll(filters[1..], field);
      assert filters == [filters[0]] + filters[1..];
    }
  }

  lemma {:induction false} FirstListIsFound(leaves: seq<Filter>)
    ensures var found := FindFirst(leaves, (g: Filter) => g.In?);
            if found.Some? then exists i :: FirstListAt(leaves, i) && leaves[i] == found.value
            else forall i :: 0 <= i < |leaves| ==> !leaves[i].In?
  {
    if leaves != [] {
      if leaves[0].In? {
        assert FirstListAt(leaves, 0);
      } else {
        FirstListIsFound(leaves[1..]);
        var found := FindFirst(leaves[1..], (g: Filter) => g.In?);
        if found.Some? {
          var i :| FirstListAt(leaves[1..], i) && leaves[1..][i] == found.value;
          assert forall j :: 0 < j < |leaves| ==> leaves[j] == leaves[1..][j - 1];
          assert leaves[i + 1] == leaves[1..][i];
          assert FirstListAt(leaves, i + 1);
        }
      }
    }
  }

  lemma {:induction false} EqualitiesAreFound(leaves: seq<Filter>, field: string, v: Value)
    requires forall g :: g in leaves ==> IsOnField(g, field)
    ensures Scalar(v) in EqualityValues(leaves) <==> Comparison(field, "eq", v) in leaves
  {
    if leaves != [] {
      assert leaves[0] in leaves && leaves == [leaves[0]] + leaves[1..];
      EqualitiesAreFound(leaves[1..], field, v);
      assert leaves[0].Comparison? && leaves[0].op == "eq" && leaves[0].value == v <==> leaves[0] == Comparison(field, "eq", v);
    }
  }

  lemma AcceptedByTwo(f: Filter, g: Filter)
    requires AcceptedValues(f).Only? && AcceptedValues(g).Only?
    ensures AcceptedByAny([f, g]) == Only(AcceptedValues(f).values + AcceptedValues(g).values)
  {
    hide AcceptedValues;
    assert [f, g][1..] == [g] && [g][1..] == [];
    assert AcceptedByAny([g]) == Union(AcceptedValues(g), Only({}));
    assert AcceptedValues(g).values + {} == AcceptedValues(g).values;
  }

  /** A list hides the equalities beside it: `a in (1) or a eq 2` accepts 2, and only 1 is extracted. */
  lemma ListHidesEqualities(less: (Value, Value) -> bool)
    ensures var f := Logical("or", [In("a", [Scalar(Num(1.0))]), Comparison("a", "eq", Num(2.0))]);
            && ExtractFieldValues(f, "a") == Some([Scalar(Num(1.0))])
            && !CoversAcceptedRows(less, f, "a")
  {
    var list, equality := In("a", [Scalar(Num(1.0))]), Comparison("a", "eq", Num(2.0));
    var f := Logical("or", [list, equality]);
    assert [list, equality][1..] == [equality] && [equality][1..] == [];
    assert FlattenAll([equality]) == [equality];
    assert FlattenFilters(f) == FlattenAll([list, equality]) == [list, equality];
    assert GetFiltersForField(f, "a")[0] == list;
    AcceptedByTwo(list, equality);
    assert Scalar(Num(2.0)) in AcceptedValues(equality).values;
    assert AcceptedValues(f) == AcceptedByAny([list, equality]);
    assert FirstListAt([list, equality], 0);
    WrittenCases([list, equality], "a", Num(2.0));
    assert ExtractFieldValues(f, "a") == Some(list.values);
    assert OnOneField(f, "a");
    hide ExtractFieldValues, AcceptedValues, FlattenFilters, Written, OnOneField;
    SatisfyingValuesAreExtracted(less, f, "a");
    assert Scalar(Num(2.0)) in AcceptedValues(f).values;
    assert !Written(FlattenFilters(f), "a", Num(2.0));
  }

  // ---------- negation-free filters of equalities ----------

  /** Built from `eq` leaves on one field by non-empty conjunctions and by disjunctions. */
  ghost predicate EqualitiesOn(f: Filter, field: string)
    decreases f
  {
    match f
    case Comparison(name, op, _) => name == field && op == "eq"
    case Logical(op, filters) =>
      op in {"and", "or"} && (op == "and" ==> filters != []) && forall i :: 0 <= i < |filters| ==> EqualitiesOn(filters[i], field)
    case _ => false
  }

  lemma {:induction false} AllOfTrue(less: (Value, Value) -> bool, filters: seq<Filter>, row: Row)
    requires AllOf(less, filters, row) == True && filters != []
    ensures EvalFilter(less, filters[0], row) == True
  {
  }

  lemma {:induction false} AnyOfTrue(less: (Value, Value) -> bool, filters: seq<Filter>, row: Row) returns (i: nat)
    requires AnyOf(less, filters, row) == True
    ensures i < |filters| && EvalFilter(less, filters[i], row) == True
  {
    if EvalFilter(less, filters[0], row) == True {
      i := 0;
    } else {
      i := AnyOfTrue(less, filters[1..], row);
      i := i + 1;
    }
  }

  lemma {:induction false} FlattenAllContains(filters: seq<Filter>, i: nat, leaf: Filter)
    requires i < |filters| && leaf in FlattenFilters(filters[i])
    ensures leaf in FlattenAll(filters)
  {
    if i > 0 { FlattenAllContains(filters[1..], i - 1, leaf); }
  }

  /** A satisfying row agrees with one of the equality leaves. */
  lemma {:induction false} SatisfiedLeaf(less: (Value, Value) -> bool, f: Filter, field: string, row: Row) returns (leaf: Filter)
    requires EqualitiesOn(f, field) && EvalFilter(less, f, row) == True
    ensures leaf in FlattenFilters(f) && leaf == Comparison(field, "eq", FieldValue(row, field))
    decreases f
  {
    if f.Comparison? {
      leaf := f;
    } else {
      var i := 0;
      if f.op == "and" { AllOfTrue(less, f.filters, row); } else { i := AnyOfTrue(less, f.filters, row); }
      leaf := SatisfiedLeaf(less, f.filters[i], field, row);
      FlattenAllContains(f.filters, i, leaf);
    }
  }

  lemma {:induction false} LeavesAreEqualities(f: Filter, field: string)
    requires EqualitiesOn(f, field)
    ensures forall i :: 0 <= i < |FlattenFilters(f)| ==>
              FlattenFilters(f)[i].Comparison? && FlattenFilters(f)[i].field == field && FlattenFilters(f)[i].op == "eq"
    decreases f, 1
  {
    if f.Logical? { AllLeavesAreEqualities(f.filters, field); }
  }

  lemma {:induction false} AllLeavesAreEqualities(filters: seq<Filter>, field: string)
    requires forall i :: 0 <= i < |filters| ==> EqualitiesOn(filters[i], field)
    ensures forall i :: 0 <= i < |FlattenAll(filters)| ==>
              FlattenAll(filters)[i].Comparison? && FlattenAll(filters)[i].field == field && FlattenAll(filters)[i].op == "eq"
    decreases filters, 0
  {
    if filters != [] {
      LeavesAreEqualities(filters[0], field);
      AllLeavesAreEqualities(filters[1..], field);
    }
  }

  lemma {:induction false} SelectEverything(filters: seq<Filter>, field: string)
    requires forall i :: 0 <= i < |filters| ==> filters[i].Comparison? && filters[i].field == field && filters[i].op == "eq"
    ensures OnField(filters, field) == filters
    ensures FindFirst(filters, (g: Filter) => g.In?) == None
    ensures forall g :: g in filters ==> Scalar(g.value) in EqualityValues(filters)
  {
    if filters != [] {
      SelectEverything(filters[1..], field);
      assert filters == [filters[0]] + filters[1..];
    }
  }

  /** The extracted values include the field's value in every row the filter accepts. */
  lemma EqualitiesAreExtracted(less: (Value, Value) -> bool, f: Filter, field: string, row: Row)
    requires EqualitiesOn(f, field) && EvalFilter(less, f, row) == True
    ensures ExtractFieldValues(f, field).Some?
    ensures Member(FieldValue(row, field), ExtractFieldValues(f, field).value)
  {
    var leaf := SatisfiedLeaf(less, f, field, row);
    LeavesAreEqualities(f, field);
    SelectEverything(FlattenFilters(f), field);
    assert GetFiltersForField(f, field) == FlattenFilters(f);
    assert ExtractInValues(f, field) == None;
  }

  /** An empty conjunction accepts every row and yields no value; the transformer never builds one. */
  lemma EmptyConjunctionYieldsNothing(less: (Value, Value) -> bool, field: string, row: Row)
    ensures EvalFilter(less, Logical("and", []), row) == True
    ensures ExtractFieldValues(Logical("and", []), field) == None
  {
    assert FlattenFilters(Logical("and", [])) == [];
  }

  /** Logical nodes have operands, and one of the two operators. */
  ghost predicate NonEmptyLogic(f: Filter)
    decreases f
  {
    match f
    case Logical(op, filters) =>
      op in {"and", "or"} && filters != [] && forall i :: 0 <= i < |filters| ==> NonEmptyLogic(filters[i])
    case Not(inner) => NonEmptyLogic(inner)
    case _ => true
  }

  lemma {:induction false} TransformerBuildsNonEmptyLogic(n: Node, binds: Binds)
    ensures TransformFilterNode(n, binds).Ok? ==> NonEmptyLogic(TransformFilterNode(n, binds).value)
    decreases n, 1
  {
    if n.Op? {
      AllNonEmptyLogic(n.args, binds);
      if |n.args| == 1 { TransformerBuildsNonEmptyLogic(n.args[0], binds); }
    }
  }

  lemma {:induction false} AllNonEmptyLogic(operands: seq<Node>, binds: Binds)
    ensures TransformAll(operands, binds).Ok? ==>
              |TransformAll(operands, binds).value| == |operands|
              && forall i :: 0 <= i < |operands| ==> NonEmptyLogic(TransformAll(operands, binds).value[i])
    decreases operands, 0
  {
    if operands != [] {
      TransformerBuildsNonEmptyLogic(operands[0], binds);
      AllNonEmptyLogic(operands[1..], binds);
    }
  }
}
