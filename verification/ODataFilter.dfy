/** Transformation of parsed OData filter trees into high-level filters, with a meaning for both. */
module ODataFilter {
  import opened JsText

  // ---------- syntax ----------

  // `Moment` is a Date built from a raw value.
  datatype Value = Null | Text(s: string) | Num(r: real) | Bool(b: bool) | Moment(source: RawValue)

  // What a bind may hold: one value, a list of items, or a bare [type, value] pair inside such a list.
  datatype RawValue = Scalar(v: Value) | Items(items: seq<Item>) | Pair(tag: string, pairValue: Value)

  datatype Item = Tuple(tag: string, value: Value) | Plain(value: Value)

  datatype BindKey = Index(n: nat) | Alias(name: string)

  datatype Bind = Bind(tag: string, raw: RawValue)

  type Binds = map<BindKey, Bind>

  datatype FieldRef = FieldRef(name: string, property: Option<FieldRef>)

  // A parser node: an array headed by an operator name, a 'call' pair, any other array, or an operand.
  datatype Node =
    | Op(op: string, args: seq<Node>)
    | Call(func: string, args: seq<Node>)
    | List(items: seq<Node>)
    | Field(ref: FieldRef)
    | BindRef(key: BindKey)
    | Literal(value: Value)

  // String(x) of a text is the text; of anything else it is kept symbolic.
  datatype Printed = Exact(s: string) | PrintedForm(source: RawValue)

  datatype Filter =
    | Comparison(field: string, op: string, value: Value)
    | In(field: string, values: seq<RawValue>)
    | NotIn(field: string, values: seq<RawValue>)
    | StringFunction(func: string, field: string, text: Printed)
    | Logical(op: string, filters: seq<Filter>)
    | Not(filter: Filter)

  datatype Error =
    | InvalidBind
    | ArrayInComparison
    | CannotResolve
    | UnsupportedOperands
    | UnsupportedFunction
    | UnsupportedNode

  const COMPARISONS := {"eq", "ne", "gt", "ge", "lt", "le"}
  const LOGICALS := {"and", "or"}
  const STRING_FUNCTIONS := {"contains", "startswith", "endswith", "substringof", "tolower", "toupper"}
  const TUPLE_TAGS := {"Text", "Real", "Boolean", "Date", "Date Time", "Null", "Duration"}

  // ---------- the transformer ----------

  function GetFieldPath(ref: FieldRef): string {
    match ref.property
    case Some(inner) => ref.name + "/" + GetFieldPath(inner)
    case None => ref.name
  }

  predicate IsBindReference(n: Node) {
    n.BindRef? && (n.key.Index? || StartsWith(n.key.name, "@"))
  }

  function ToMoment(raw: RawValue): Value {
    if raw.Scalar? && raw.v.Moment? then raw.v else Moment(raw)
  }

  function ResolveBind(binds: Binds, key: BindKey): Result<RawValue, Error> {
    if key !in binds then Err(InvalidBind)
    else
      var Bind(tag, raw) := binds[key];
      if tag == "Date" || tag == "Date Time" then Ok(Scalar(ToMoment(raw)))
      else if tag == "Null" then Ok(Scalar(Null))
      else Ok(raw)
  }

  function ResolveBinds(binds: Binds, refs: seq<Node>): Result<seq<RawValue>, Error> {
    if refs == [] then Ok([])
    else if !refs[0].BindRef? then Err(InvalidBind)
    else
      match ResolveBind(binds, refs[0].key)
      case Err(e) => Err(e)
      case Ok(v) =>
        match ResolveBinds(binds, refs[1..])
        case Err(e) => Err(e)
        case Ok(rest) => Ok([v] + rest)
  }

  predicate IsBindTuple(item: Item) {
    item.Tuple? && item.tag in TUPLE_TAGS
  }

  function ExtractBindTupleValue(item: Item): RawValue
    requires item.Tuple?
  {
    if item.tag == "Date" || item.tag == "Date Time" then Scalar(ToMoment(Scalar(item.value)))
    else if item.tag == "Null" then Scalar(Null)
    else Scalar(item.value)
  }

  /** Typed tuples are unwrapped when the list starts with one; otherwise the items are taken as they are. */
  function ExtractBindTupleValues(items: seq<Item>): Result<seq<RawValue>, Error> {
    if items != [] && IsBindTuple(items[0]) then
      if forall i :: 0 <= i < |items| ==> items[i].Tuple? then
        Ok(seq(|items|, i requires 0 <= i < |items| => ExtractBindTupleValue(items[i])))
      else Err(CannotResolve)
    else
      Ok(seq(|items|, i requires 0 <= i < |items| =>
        match items[i] case Plain(v) => Scalar(v) case Tuple(t, v) => Pair(t, v)))
  }

  function ResolveValue(n: Node, binds: Binds): Result<Value, Error> {
    if IsBindReference(n) then
      match ResolveBind(binds, n.key)
      case Err(e) => Err(e)
      case Ok(Scalar(v)) => Ok(v)
      case Ok(_) => Err(ArrayInComparison)
    else if n.Field? then Ok(Text(GetFieldPath(n.ref)))
    else if n.Literal? && !n.value.Moment? then Ok(n.value)
    else Err(CannotResolve)
  }

  function TransformComparison(op: string, left: Node, right: Node, binds: Binds): Result<Filter, Error> {
    if left.Field? then WithValue(GetFieldPath(left.ref), op, ResolveValue(right, binds))
    else if right.Field? then WithValue(GetFieldPath(right.ref), op, ResolveValue(left, binds))
    else Err(UnsupportedOperands)
  }

  function WithValue(field: string, op: string, value: Result<Value, Error>): Result<Filter, Error> {
    match value
    case Err(e) => Err(e)
    case Ok(v) => Ok(Comparison(field, op, v))
  }

  /** The members of an `in` list: several binds, one bind holding a list, or one bind holding a value. */
  function InValues(operand: Node, binds: Binds): Result<seq<RawValue>, Error> {
    if operand.List? then ResolveBinds(binds, operand.items)
    else if IsBindReference(operand) then
      match ResolveBind(binds, operand.key)
      case Err(e) => Err(e)
      case Ok(Items(items)) => ExtractBindTupleValues(items)
      case Ok(v) => Ok([v])
    else Err(UnsupportedOperands)
  }

  function TransformIn(ref: FieldRef, operand: Node, binds: Binds): Result<Filter, Error> {
    match InValues(operand, binds)
    case Err(e) => Err(e)
    case Ok(values) => Ok(In(GetFieldPath(ref), values))
  }

  function ToPrinted(raw: RawValue): Printed {
    if raw.Scalar? && raw.v.Text? then Exact(raw.v.s) else PrintedForm(raw)
  }

  /** Either argument order is accepted, for every function. */
  function TransformStringFunction(func: string, args: seq<Node>, binds: Binds): Result<Filter, Error> {
    if |args| < 2 then Err(UnsupportedOperands)
    else if args[0].Field? && IsBindReference(args[1]) then WithText(func, args[0].ref, args[1].key, binds)
    else if IsBindReference(args[0]) && args[1].Field? then WithText(func, args[1].ref, args[0].key, binds)
    else Err(UnsupportedOperands)
  }

  function WithText(func: string, ref: FieldRef, key: BindKey, binds: Binds): Result<Filter, Error> {
    match ResolveBind(binds, key)
    case Err(e) => Err(e)
    case Ok(raw) => Ok(StringFunction(func, GetFieldPath(ref), ToPrinted(raw)))
  }

  function TransformFilterNode(n: Node, binds: Binds): Result<Filter, Error>
    decreases n, 1
  {
    if n.Op? && |n.args| == 2 && n.op in COMPARISONS then
      TransformComparison(n.op, n.args[0], n.args[1], binds)
    else if n.Op? && |n.args| == 2 && (n.op == "in" || n.op == "eqany") && n.args[0].Field? then
      TransformIn(n.args[0].ref, n.args[1], binds)
    else if n.Op? && |n.args| == 2 && n.op in STRING_FUNCTIONS then
      TransformStringFunction(n.op, n.args, binds)
    else if n.Call? then
      if n.func !in STRING_FUNCTIONS then Err(UnsupportedFunction)
      else TransformStringFunction(n.func, n.args, binds)
    else if n.Op? && |n.args| >= 2 && n.op in LOGICALS then
      match TransformAll(n.args, binds)
      case Err(e) => Err(e)
      case Ok(filters) => Ok(Logical(n.op, filters))
    else if n.Op? && |n.args| == 1 && n.op == "not" then
      match TransformFilterNode(n.args[0], binds)
      case Err(e) => Err(e)
      case Ok(f) => Ok(Not(f))
    else Err(UnsupportedNode)
  }

  function TransformAll(operands: seq<Node>, binds: Binds): Result<seq<Filter>, Error>
    decreases operands, 0
  {
    if operands == [] then Ok([])
    else
      match TransformFilterNode(operands[0], binds)
      case Err(e) => Err(e)
      case Ok(f) =>
        match TransformAll(operands[1..], binds)
        case Err(e) => Err(e)
        case Ok(rest) => Ok([f] + rest)
  }

  // ---------- meaning ----------

  // OData logic is three-valued; a row satisfies a filter when the filter is True for it.
  datatype Truth = True | False | Unknown

  // A row gives a value to every property path.
  type Row = seq<string> -> Value

  function Known(b: bool): Truth {
    if b then True else False
  }

  function Negate(t: Truth): Truth {
    match t case True => False case False => True case Unknown => Unknown
  }

  function And(a: Truth, b: Truth): Truth {
    if a == False || b == False then False else if a == Unknown || b == Unknown then Unknown else True
  }

  function Or(a: Truth, b: Truth): Truth {
    if a == True || b == True then True else if a == Unknown || b == Unknown then Unknown else False
  }

  /** Comparisons; null equals null only, and no ordered comparison with null holds. `less` orders non-null values. */
  function Compare(less: (Value, Value) -> bool, op: string, a: Value, b: Value): Truth {
    if op == "eq" then Known(a == b)
    else if op == "ne" then Known(a != b)
    else if a.Null? || b.Null? then False
    else if op == "gt" then Known(less(b, a))
    else if op == "ge" then Known(less(b, a) || a == b)
    else if op == "lt" then Known(less(a, b))
    else if op == "le" then Known(less(a, b) || a == b)
    else Unknown
  }

  predicate ContainsText(s: string, part: string) {
    exists i :: 0 <= i <= |s| && part <= s[i..]
  }

  /** String predicates with their OData argument order; Unknown on null. */
  function StringPredicate(func: string, first: Value, second: Value): Truth {
    if !first.Text? || !second.Text? then Unknown
    else if func == "contains" then Known(ContainsText(first.s, second.s))
    else if func == "substringof" then Known(ContainsText(second.s, first.s))
    else if func == "startswith" then Known(second.s <= first.s)
    else if func == "endswith" then Known(|second.s| <= |first.s| && first.s[|first.s| - |second.s|..] == second.s)
    else Unknown
  }

  function PathOf(ref: FieldRef): seq<string> {
    match ref.property
    case Some(inner) => [ref.name] + PathOf(inner)
    case None => [ref.name]
  }

  // The meaning reads binds and operators by itself; the transformer's own functions are not used.

  /** What a bind stands for, by its type tag; a list has a tag of no type. */
  function BindMeaning(b: Bind): RawValue {
    if b.tag in {"Text", "Real", "Boolean", "Duration"} then b.raw
    else if b.tag == "Null" then Scalar(Null)
    else if b.tag in {"Date", "Date Time"} then Scalar(MomentOf(b.raw))
    else b.raw
  }

  function MomentOf(raw: RawValue): Value {
    match raw
    case Scalar(Moment(source)) => Moment(source)
    case _ => Moment(raw)
  }

  /** A reference by position, or by an alias such as `@p1`. */
  predicate IsReference(n: Node) {
    match n
    case BindRef(Index(_)) => true
    case BindRef(Alias(name)) => name != "" && name[0] == '@'
    case _ => false
  }

  function Operand(n: Node, binds: Binds, row: Row): Value {
    match n
    case Field(ref) => row(PathOf(ref))
    case BindRef(key) => if key in binds && BindMeaning(binds[key]).Scalar? then BindMeaning(binds[key]).v else Null
    case Literal(v) => v
    case _ => Null
  }

  predicate Member(v: Value, values: seq<RawValue>) {
    Scalar(v) in values
  }

  /** The value an item of a bound list stands for. */
  function ItemMeaning(item: Item): Value {
    match item
    case Plain(v) => v
    case Tuple(tag, v) => if tag == "Null" then Null else if tag == "Date" || tag == "Date Time" then MomentOf(Scalar(v)) else v
  }

  predicate IsTypedTuple(item: Item) {
    item.Tuple? && item.tag in {"Text", "Real", "Boolean", "Date", "Date Time", "Null", "Duration"}
  }

  /** The right side of an `in`: references to single values, or one reference to a value or to a uniform list. */
  predicate IsValueList(operand: Node, binds: Binds) {
    if operand.List? then
      forall i :: 0 <= i < |operand.items| ==> operand.items[i].BindRef? && operand.items[i].key in binds
    else
      && IsReference(operand) && operand.key in binds
      && match BindMeaning(binds[operand.key])
         case Scalar(_) => true
         case Items(items) =>
           (forall i :: 0 <= i < |items| ==> IsTypedTuple(items[i])) || (forall i :: 0 <= i < |items| ==> items[i].Plain?)
         case Pair(_, _) => false
  }

  /** Whether a value is one of the listed ones. */
  ghost predicate ListHas(operand: Node, binds: Binds, v: Value)
    requires IsValueList(operand, binds)
  {
    if operand.List? then
      exists i :: 0 <= i < |operand.items| && BindMeaning(binds[operand.items[i].key]) == Scalar(v)
    else
      match BindMeaning(binds[operand.key])
      case Scalar(w) => v == w
      case Items(items) => exists i :: 0 <= i < |items| && ItemMeaning(items[i]) == v
  }

  /** Meaning of a parser node on a row. */
  ghost function EvalNode(less: (Value, Value) -> bool, n: Node, binds: Binds, row: Row): Truth
    decreases n, 1
  {
    match n
    case Op(op, args) =>
      if |args| == 2 && op in {"eq", "ne", "gt", "ge", "lt", "le"} then
        Compare(less, op, Operand(args[0], binds, row), Operand(args[1], binds, row))
      else if |args| == 2 && (op == "in" || op == "eqany") then
        if IsValueList(args[1], binds) then Known(ListHas(args[1], binds, Operand(args[0], binds, row))) else Unknown
      else if |args| == 2 && op in {"contains", "startswith", "endswith", "substringof"} then
        StringPredicate(op, Operand(args[0], binds, row), Operand(args[1], binds, row))
      else if op == "and" then EvalAnd(less, args, binds, row)
      else if op == "or" then EvalOr(less, args, binds, row)
      else if op == "not" && |args| == 1 then Negate(EvalNode(less, args[0], binds, row))
      else Unknown
    case Call(func, args) =>
      if |args| == 2 then StringPredicate(func, Operand(args[0], binds, row), Operand(args[1], binds, row)) else Unknown
    case _ => Unknown
  }

  ghost function EvalAnd(less: (Value, Value) -> bool, nodes: seq<Node>, binds: Binds, row: Row): Truth
    decreases nodes, 0
  {
    if nodes == [] then True
    else And(EvalNode(less, nodes[0], binds, row), EvalAnd(less, nodes[1..], binds, row))
  }

  ghost function EvalOr(less: (Value, Value) -> bool, nodes: seq<Node>, binds: Binds, row: Row): Truth
    decreases nodes, 0
  {
    if nodes == [] then False
    else Or(EvalNode(less, nodes[0], binds, row), EvalOr(less, nodes[1..], binds, row))
  }

  /** The value a row gives to a field named by its slash-separated path. */
  function FieldValue(row: Row, field: string): Value {
    row(Split(field, '/'))
  }

  /** Meaning of a transformed filter; a string function tests the field's text against the fixed text. */
  function EvalFilter(less: (Value, Value) -> bool, f: Filter, row: Row): Truth
    decreases f, 1
  {
    match f
    case Comparison(field, op, value) => Compare(less, op, FieldValue(row, field), value)
    case In(field, values) => Known(Member(FieldValue(row, field), values))
    case NotIn(field, values) => Known(!Member(FieldValue(row, field), values))
    case StringFunction(func, field, text) =>
      if text.PrintedForm? then Unknown
      else if func == "substringof" then StringPredicate("contains", FieldValue(row, field), Text(text.s))
      else StringPredicate(func, FieldValue(row, field), Text(text.s))
    case Logical(op, filters) =>
      if op == "and" then AllOf(less, filters, row) else AnyOf(less, filters, row)
    case Not(inner) => Negate(EvalFilter(less, inner, row))
  }

  function AllOf(less: (Value, Value) -> bool, filters: seq<Filter>, row: Row): Truth
    decreases filters, 0
  {
    if filters == [] then True
    else And(EvalFilter(less, filters[0], row), AllOf(less, filters[1..], row))
  }

  function AnyOf(less: (Value, Value) -> bool, filters: seq<Filter>, row: Row): Truth
    decreases filters, 0
  {
    if filters == [] then False
    else Or(EvalFilter(less, filters[0], row), AnyOf(less, filters[1..], row))
  }

  // ---------- which trees the meaning claim covers ----------

  predicate SlashFree(ref: FieldRef) {
    '/' !in ref.name && (ref.property.Some? ==> SlashFree(ref.property.value))
  }

  predicate IsField(n: Node) {
    n.Field? && SlashFree(n.ref)
  }

  /** A bind that resolves to a single value, or a literal. */
  predicate IsValue(n: Node, binds: Binds) {
    || (IsReference(n) && n.key in binds && BindMeaning(binds[n.key]).Scalar?)
    || (n.Literal? && !n.value.Moment?)
  }

  predicate IsTextBind(n: Node, binds: Binds) {
    IsValue(n, binds) && n.BindRef? && BindMeaning(binds[n.key]).v.Text?
  }

  predicate RegularStringFunction(func: string, args: seq<Node>, binds: Binds) {
    && |args| == 2
    && (func in {"contains", "startswith", "endswith"} ==> IsField(args[0]) && IsTextBind(args[1], binds))
    && (func == "substringof" ==> IsTextBind(args[0], binds) && IsField(args[1]))
    && func in {"contains", "startswith", "endswith", "substringof"}
  }

  /** Field left of an ordered comparison, either side of eq/ne; regular argument order in string functions. */
  predicate Regular(n: Node, binds: Binds)
    decreases n
  {
    if n.Call? then RegularStringFunction(n.func, n.args, binds)
    else if !n.Op? then false
    else if n.op in {"eq", "ne", "gt", "ge", "lt", "le"} then
      && |n.args| == 2
      && ((IsField(n.args[0]) && IsValue(n.args[1], binds))
          || (n.op in {"eq", "ne"} && IsValue(n.args[0], binds) && IsField(n.args[1])))
    else if n.op in {"in", "eqany"} then |n.args| == 2 && IsField(n.args[0]) && IsValueList(n.args[1], binds)
    else if n.op in {"contains", "startswith", "endswith", "substringof"} then RegularStringFunction(n.op, n.args, binds)
    else if n.op in {"and", "or"} then |n.args| >= 2 && forall i :: 0 <= i < |n.args| ==> Regular(n.args[i], binds)
    else n.op == "not" && |n.args| == 1 && Regular(n.args[0], binds)
  }

  // ---------- the transformation keeps the meaning ----------

  /** Binds are resolved to what they stand for. */
  lemma BindsResolve(binds: Binds)
    ensures forall key :: ResolveBind(binds, key) == if key in binds then Ok(BindMeaning(binds[key])) else Err(InvalidBind)
  {
  }

  /** The whole outcome of comparing a field with a reference, for every bind there may be. */
  lemma BoundComparison(op: string, ref: FieldRef, key: BindKey, binds: Binds)
    requires op in {"eq", "ne", "gt", "ge", "lt", "le"} && IsReference(BindRef(key))
    ensures TransformFilterNode(Op(op, [Field(ref), BindRef(key)]), binds) ==
            if key !in binds then Err(InvalidBind)
            else if BindMeaning(binds[key]).Scalar? then Ok(Comparison(GetFieldPath(ref), op, BindMeaning(binds[key]).v))
            else Err(ArrayInComparison)
  {
    BindsResolve(binds);
    hide BindMeaning, ResolveBind;
  }

  /** Splitting a printed field path gives back its names. */
  lemma {:induction false} FieldPathRoundTrip(ref: FieldRef)
    requires SlashFree(ref)
    ensures Split(GetFieldPath(ref), '/') == PathOf(ref)
  {
    match ref.property
    case None => SplitFree(ref.name, '/');
    case Some(inner) =>
      FieldPathRoundTrip(inner);
      SplitLine(ref.name, GetFieldPath(inner), '/');
      assert GetFieldPath(ref) == ref.name + ['/'] + GetFieldPath(inner);
  }

  /** Operators and functions the source does not know are rejected as such. */
  lemma UnknownIsRejected(n: Node, binds: Binds)
    ensures n.Op? && n.op !in {"eq", "ne", "gt", "ge", "lt", "le", "in", "eqany", "and", "or", "not", "contains", "startswith",
                               "endswith", "substringof", "tolower", "toupper"} ==>
              TransformFilterNode(n, binds) == Err(UnsupportedNode)
    ensures n.Call? && n.func !in {"contains", "startswith", "endswith", "substringof", "tolower", "toupper"} ==>
              TransformFilterNode(n, binds) == Err(UnsupportedFunction)
    ensures n.List? || n.Field? || n.BindRef? || n.Literal? ==> TransformFilterNode(n, binds) == Err(UnsupportedNode)
  {
    hide TransformComparison, TransformIn, TransformStringFunction, TransformAll;
  }

  lemma ComparisonKeepsMeaning(less: (Value, Value) -> bool, n: Node, binds: Binds, row: Row)
    requires n.Op? && n.op in COMPARISONS && Regular(n, binds)
    ensures TransformFilterNode(n, binds).Ok?
    ensures EvalFilter(less, TransformFilterNode(n, binds).value, row) == EvalNode(less, n, binds, row)
  {
    BindsResolve(binds);
    hide BindMeaning, ResolveBind;
    if n.args[0].Field? { FieldPathRoundTrip(n.args[0].ref); } else { FieldPathRoundTrip(n.args[1].ref); }
  }

  lemma StringFunctionKeepsMeaning(less: (Value, Value) -> bool, func: string, args: seq<Node>, binds: Binds, row: Row)
    requires RegularStringFunction(func, args, binds)
    ensures TransformStringFunction(func, args, binds).Ok?
    ensures EvalFilter(less, TransformStringFunction(func, args, binds).value, row)
            == StringPredicate(func, Operand(args[0], binds, row), Operand(args[1], binds, row))
  {
    BindsResolve(binds);
    hide BindMeaning, ResolveBind;
    if args[0].Field? { FieldPathRoundTrip(args[0].ref); } else { FieldPathRoundTrip(args[1].ref); }
  }

  lemma {:induction false} ResolvedRefs(binds: Binds, refs: seq<Node>, v: Value)
    requires forall i :: 0 <= i < |refs| ==> refs[i].BindRef? && refs[i].key in binds
    ensures ResolveBinds(binds, refs).Ok?
    ensures Member(v, ResolveBinds(binds, refs).value) <==>
            exists i :: 0 <= i < |refs| && BindMeaning(binds[refs[i].key]) == Scalar(v)
  {
    BindsResolve(binds);
    hide BindMeaning, ResolveBind;
    if refs != [] {
      ResolvedRefs(binds, refs[1..], v);
      var values := ResolveBinds(binds, refs).value;
      assert values == [BindMeaning(binds[refs[0].key])] + ResolveBinds(binds, refs[1..]).value;
      if i :| 0 <= i < |refs| && BindMeaning(binds[refs[i].key]) == Scalar(v) {
        assert i == 0 || refs[1..][i - 1] == refs[i];
      }
    }
  }

  lemma ExtractedItems(items: seq<Item>, v: Value)
    requires (forall i :: 0 <= i < |items| ==> IsTypedTuple(items[i])) || (forall i :: 0 <= i < |items| ==> items[i].Plain?)
    ensures ExtractBindTupleValues(items).Ok?
    ensures Member(v, ExtractBindTupleValues(items).value) <==> exists i :: 0 <= i < |items| && ItemMeaning(items[i]) == v
  {
    var values := ExtractBindTupleValues(items).value;
    assert |values| == |items| && forall i :: 0 <= i < |items| ==> values[i] == Scalar(ItemMeaning(items[i]));
    if i :| 0 <= i < |items| && ItemMeaning(items[i]) == v {
      assert values[i] == Scalar(v);
    }
  }

  /** The extracted members are exactly the listed values. */
  lemma InValuesAreListed(operand: Node, binds: Binds, v: Value)
    requires IsValueList(operand, binds)
    ensures InValues(operand, binds).Ok?
    ensures Member(v, InValues(operand, binds).value) <==> ListHas(operand, binds, v)
  {
    BindsResolve(binds);
    if operand.List? {
      ResolvedRefs(binds, operand.items, v);
    } else {
      match BindMeaning(binds[operand.key])
      case Scalar(_) =>
      case Items(items) => ExtractedItems(items, v);
    }
  }

  lemma MembershipKeepsMeaning(less: (Value, Value) -> bool, n: Node, binds: Binds, row: Row)
    requires n.Op? && n.op in {"in", "eqany"} && Regular(n, binds)
    ensures TransformFilterNode(n, binds).Ok?
    ensures EvalFilter(less, TransformFilterNode(n, binds).value, row) == EvalNode(less, n, binds, row)
  {
    hide InValues, ListHas, IsValueList, GetFieldPath;
    FieldPathRoundTrip(n.args[0].ref);
    InValuesAreListed(n.args[1], binds, Operand(n.args[0], binds, row));
  }

  lemma StringNodeKeepsMeaning(less: (Value, Value) -> bool, n: Node, binds: Binds, row: Row)
    requires n.Call? || (n.Op? && n.op in STRING_FUNCTIONS)
    requires Regular(n, binds)
    ensures TransformFilterNode(n, binds).Ok?
    ensures EvalFilter(less, TransformFilterNode(n, binds).value, row) == EvalNode(less, n, binds, row)
  {
    hide EvalFilter, StringPredicate, Operand, TransformStringFunction;
    StringFunctionKeepsMeaning(less, if n.Call? then n.func else n.op, n.args, binds, row);
  }

  lemma LogicalKeepsMeaning(less: (Value, Value) -> bool, n: Node, binds: Binds, row: Row)
    requires n.Op? && n.op in LOGICALS && |n.args| >= 2
    requires TransformAll(n.args, binds).Ok? && |TransformAll(n.args, binds).value| == |n.args|
    requires forall i :: 0 <= i < |n.args| ==>
               EvalFilter(less, TransformAll(n.args, binds).value[i], row) == EvalNode(less, n.args[i], binds, row)
    ensures TransformFilterNode(n, binds).Ok?
    ensures EvalFilter(less, TransformFilterNode(n, binds).value, row) == EvalNode(less, n, binds, row)
  {
    hide TransformAll, EvalAnd, EvalOr;
    SameParts(less, n.args, TransformAll(n.args, binds).value, binds, row);
  }

  lemma NegationKeepsMeaning(less: (Value, Value) -> bool, n: Node, binds: Binds, row: Row)
    requires n.Op? && n.op == "not" && |n.args| == 1
    requires TransformFilterNode(n.args[0], binds).Ok?
    requires EvalFilter(less, TransformFilterNode(n.args[0], binds).value, row) == EvalNode(less, n.args[0], binds, row)
    ensures TransformFilterNode(n, binds).Ok?
    ensures EvalFilter(less, TransformFilterNode(n, binds).value, row) == EvalNode(less, n, binds, row)
  {
  }

  /** Every regular tree is transformed, and a row satisfies the result exactly when it satisfies the tree. */
  lemma {:induction false} TransformKeepsMeaning(less: (Value, Value) -> bool, n: Node, binds: Binds, row: Row)
    requires Regular(n, binds)
    ensures TransformFilterNode(n, binds).Ok?
    ensures EvalFilter(less, TransformFilterNode(n, binds).value, row) == EvalNode(less, n, binds, row)
    decreases n, 1
  {
    hide TransformFilterNode, EvalNode, EvalFilter, RegularStringFunction, IsField, IsValue, IsValueList;
    if n.Call? {
      StringNodeKeepsMeaning(less, n, binds, row);
    } else if n.op in COMPARISONS {
      ComparisonKeepsMeaning(less, n, binds, row);
    } else if n.op in {"in", "eqany"} {
      MembershipKeepsMeaning(less, n, binds, row);
    } else if n.op in STRING_FUNCTIONS {
      StringNodeKeepsMeaning(less, n, binds, row);
    } else if n.op in LOGICALS {
      OperandsKeepMeaning(less, n.args, binds, row);
      LogicalKeepsMeaning(less, n, binds, row);
    } else {
      TransformKeepsMeaning(less, n.args[0], binds, row);
      NegationKeepsMeaning(less, n, binds, row);
    }
  }

  /** Operand by operand. */
  lemma {:induction false} OperandsKeepMeaning(less: (Value, Value) -> bool, operands: seq<Node>, binds: Binds, row: Row)
    requires forall o :: o in operands ==> Regular(o, binds)
    ensures TransformAll(operands, binds).Ok?
    ensures |TransformAll(operands, binds).value| == |operands|
    ensures forall i :: 0 <= i < |operands| ==>
              EvalFilter(less, TransformAll(operands, binds).value[i], row) == EvalNode(less, operands[i], binds, row)
    decreases operands, 0
  {
    if operands != [] {
      TransformKeepsMeaning(less, operands[0], binds, row);
      OperandsKeepMeaning(less, operands[1..], binds, row);
    }
  }

  lemma {:induction false} SameParts(less: (Value, Value) -> bool, nodes: seq<Node>, filters: seq<Filter>, binds: Binds, row: Row)
    requires |nodes| == |filters|
    requires forall i :: 0 <= i < |nodes| ==> EvalFilter(less, filters[i], row) == EvalNode(less, nodes[i], binds, row)
    ensures AllOf(less, filters, row) == EvalAnd(less, nodes, binds, row)
    ensures AnyOf(less, filters, row) == EvalOr(less, nodes, binds, row)
  {
    if nodes != [] { SameParts(less, nodes[1..], filters[1..], binds, row); }
  }

  const ORDERED := {"gt", "ge", "lt", "le"}

  /** The value of a literal or of a bind, the same on every row. */
  function FixedValue(n: Node, binds: Binds): Value
    requires IsValue(n, binds)
  {
    if n.Literal? then n.value else BindMeaning(binds[n.key]).v
  }

  /** `value op field`: the fixed value on the left, the field on the right. */
  predicate ReversedComparison(n: Node, binds: Binds) {
    n.Op? && n.op in ORDERED && |n.args| == 2 && IsValue(n.args[0], binds) && IsField(n.args[1])
  }

  /** A reversed ordered comparison is transformed with its operands swapped and its operator unchanged. */
  lemma ReversedOnRow(less: (Value, Value) -> bool, n: Node, binds: Binds, row: Row)
    requires ReversedComparison(n, binds)
    ensures TransformFilterNode(n, binds).Ok?
    ensures var v, w := FixedValue(n.args[0], binds), row(PathOf(n.args[1].ref));
            KeepsMeaning(less, n, binds, row) <==> v.Null? || w.Null? || less(v, w) == less(w, v)
  {
    BindsResolve(binds);
    hide Compare, BindMeaning, ResolveBind;
    FieldPathRoundTrip(n.args[1].ref);
    SwappedCompare(less, n.op, FixedValue(n.args[0], binds), row(PathOf(n.args[1].ref)));
  }

  /** The node is transformed, and has on this row the truth of its transformation. */
  ghost predicate KeepsMeaning(less: (Value, Value) -> bool, n: Node, binds: Binds, row: Row) {
    && TransformFilterNode(n, binds).Ok?
    && EvalFilter(less, TransformFilterNode(n, binds).value, row) == EvalNode(less, n, binds, row)
  }

  lemma SwappedCompare(less: (Value, Value) -> bool, op: string, v: Value, w: Value)
    requires op in ORDERED
    ensures Compare(less, op, w, v) == Compare(less, op, v, w) <==>
            v.Null? || w.Null? || less(v, w) == less(w, v)
  {
  }

  /**
   * A reversed ordered comparison keeps its meaning on every row exactly when its value is null, or the
   * order puts no non-null value on one side of it only.
   */
  lemma ReversedKeepsMeaningIff(less: (Value, Value) -> bool, n: Node, binds: Binds)
    requires ReversedComparison(n, binds)
    ensures var v := FixedValue(n.args[0], binds);
            (forall row :: KeepsMeaning(less, n, binds, row))
            <==> v.Null? || forall w: Value :: !w.Null? ==> less(v, w) == less(w, v)
  {
    hide KeepsMeaning, FixedValue;
    var v, path := FixedValue(n.args[0], binds), PathOf(n.args[1].ref);
    forall row: Row
      ensures KeepsMeaning(less, n, binds, row) <==>
              v.Null? || row(path).Null? || less(v, row(path)) == less(row(path), v)
    {
      ReversedOnRow(less, n, binds, row);
    }
    if forall row :: KeepsMeaning(less, n, binds, row) {
      forall w: Value | !w.Null? && !v.Null? ensures less(v, w) == less(w, v) {
        var row: Row := _ => w;
        assert KeepsMeaning(less, n, binds, row);
        assert row(path) == w;
      }
    }
  }

  /** Outside the regular trees the meaning can change: `5 gt price` is transformed as `price gt 5`. */
  lemma ReversedOrderIsNotFlipped()
    ensures var less := (a: Value, b: Value) => a.Num? && b.Num? && a.r < b.r;
            var n := Op("gt", [Literal(Num(5.0)), Field(FieldRef("price", None))]);
            var row: Row := _ => Num(10.0);
            && TransformFilterNode(n, map[]) == Ok(Comparison("price", "gt", Num(5.0)))
            && EvalNode(less, n, map[], row) == False
            && EvalFilter(less, Comparison("price", "gt", Num(5.0)), row) == True
  {
    var n := Op("gt", [Literal(Num(5.0)), Field(FieldRef("price", None))]);
    assert n.op in COMPARISONS && !n.args[0].Field? && n.args[1].Field?;
    assert ResolveValue(n.args[0], map[]) == Ok(Num(5.0));
  }
}
