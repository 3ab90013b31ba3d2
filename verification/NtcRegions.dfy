/**
 * Non-translatable regions: one lazy pattern, used to compare texts, to cut the regions out and to
 * strip their tags; and the character counts built on it.
 */
module NtcRegions {
  import opened JsText
  import opened LexOrder

  // A text is its sequence of UTF-16 code units.
  type Text = seq<int>

  const START := 0xE101
  const END := 0xE102

  /** What `.` does not match. */
  predicate IsLineTerminator(u: int) {
    u == 0x0A || u == 0x0D || u == 0x2028 || u == 0x2029
  }

  // ---------- the pattern START.+?END ----------

  /** The pattern matches `t[i..j + 1]`, in some (not necessarily lazy) way. */
  ghost predicate IsRegion(t: Text, i: nat, j: nat) {
    && i + 2 <= j < |t| && t[i] == START && t[j] == END
    && forall m :: i < m < j ==> !IsLineTerminator(t[m])
  }

  function FindEnd(t: Text, j: nat): Option<nat>
    decreases |t| - j
  {
    if j >= |t| then None
    else if t[j] == END then Some(j)
    else if IsLineTerminator(t[j]) then None
    else FindEnd(t, j + 1)
  }

  /** End of the lazy match starting at `i`: the first END after at least one character. */
  function MatchEnd(t: Text, i: nat): Option<nat> {
    if i + 1 < |t| && t[i] == START && !IsLineTerminator(t[i + 1]) then FindEnd(t, i + 2) else None
  }

  lemma {:induction false} FindEndSpec(t: Text, j: nat)
    ensures FindEnd(t, j).Some? ==>
              var e := FindEnd(t, j).value;
              j <= e < |t| && t[e] == END && forall m :: j <= m < e ==> !IsLineTerminator(t[m]) && t[m] != END
    ensures FindEnd(t, j).None? ==>
              forall e :: j <= e < |t| && t[e] == END ==> exists m :: j <= m < e && IsLineTerminator(t[m])
    decreases |t| - j
  {
    if j < |t| && t[j] != END && !IsLineTerminator(t[j]) {
      FindEndSpec(t, j + 1);
    }
  }

  /** The scanner finds the shortest region starting at a position, and none only when there is none. */
  lemma MatchEndSpec(t: Text, i: nat)
    ensures MatchEnd(t, i).Some? <==> exists j: nat :: IsRegion(t, i, j)
    ensures MatchEnd(t, i).Some? ==>
              IsRegion(t, i, MatchEnd(t, i).value) && forall j: nat :: IsRegion(t, i, j) ==> MatchEnd(t, i).value <= j
  {
    FindEndSpec(t, i + 2);
    if MatchEnd(t, i).Some? {
      assert IsRegion(t, i, MatchEnd(t, i).value);
    } else {
      forall j: nat ensures !IsRegion(t, i, j) {
        if i + 2 <= j < |t| && t[i] == START && t[j] == END && !IsLineTerminator(t[i + 1]) {
          var m :| i + 2 <= m < j && IsLineTerminator(t[m]);
        }
      }
    }
  }

  /** First match at or after a position, as a global or sticky search finds it. */
  function NextMatch(t: Text, from: nat): (r: Option<(nat, nat)>)
    ensures r.Some? ==> from <= r.value.0 && r.value.0 + 2 <= r.value.1 < |t|
    decreases |t| - from
  {
    if from >= |t| then None
    else if MatchEnd(t, from).Some? then
      FindEndSpec(t, from + 2);
      Some((from, MatchEnd(t, from).value))
    else NextMatch(t, from + 1)
  }

  /** All matches from a position on, left to right without overlap. */
  function Regions(t: Text, from: nat): seq<(nat, nat)>
    decreases |t| - from
  {
    match NextMatch(t, from)
    case None => []
    case Some((i, j)) => [(i, j)] + Regions(t, j + 1)
  }

  lemma {:induction false} NextMatchIsFirst(t: Text, from: nat)
    ensures NextMatch(t, from).Some? ==> MatchEnd(t, NextMatch(t, from).value.0) == Some(NextMatch(t, from).value.1)
    ensures forall i :: from <= i < (if NextMatch(t, from).Some? then NextMatch(t, from).value.0 else |t|) ==> MatchEnd(t, i).None?
    decreases |t| - from
  {
    if from < |t| && MatchEnd(t, from).None? { NextMatchIsFirst(t, from + 1); }
  }

  /** Regions are matches of the pattern, ordered and disjoint. */
  lemma {:induction false} RegionsAreDisjoint(t: Text, from: nat)
    ensures forall k :: 0 <= k < |Regions(t, from)| ==>
              from <= Regions(t, from)[k].0 && IsRegion(t, Regions(t, from)[k].0, Regions(t, from)[k].1)
    ensures forall k, l :: 0 <= k < l < |Regions(t, from)| ==> Regions(t, from)[k].1 < Regions(t, from)[l].0
    decreases |t| - from
  {
    NextMatchIsFirst(t, from);
    match NextMatch(t, from)
    case None =>
    case Some((i, j)) =>
      MatchEndSpec(t, i);
      RegionsAreDisjoint(t, j + 1);
  }

  /** Every place where the pattern can match lies inside a region. */
  lemma {:induction false} EveryMatchIsInARegion(t: Text, from: nat, i: nat, j: nat) returns (k: nat)
    requires from <= i && IsRegion(t, i, j)
    ensures k < |Regions(t, from)| && Regions(t, from)[k].0 <= i <= Regions(t, from)[k].1
    decreases |t| - from
  {
    MatchEndSpec(t, i);
    NextMatchIsFirst(t, from);
    var (a, b) := NextMatch(t, from).value;
    if i <= b {
      k := 0;
    } else {
      k := EveryMatchIsInARegion(t, b + 1, i, j);
      k := k + 1;
    }
  }

  function RegionTexts(t: Text, from: nat): seq<Text>
    decreases |t| - from
  {
    match NextMatch(t, from)
    case None => []
    case Some((i, j)) => [t[i..j + 1]] + RegionTexts(t, j + 1)
  }

  // ---------- the stateful global expression and the comparison ----------

  class RegExpG {
    var lastIndex: nat

    constructor ()
      ensures lastIndex == 0
    {
      lastIndex := 0;
    }

    method Exec(t: Text) returns (m: Option<Text>)
      modifies this
      ensures match NextMatch(t, old(lastIndex))
              case None => m == None && lastIndex == 0
              case Some((i, j)) => m == Some(t[i..j + 1]) && lastIndex == j + 1
    {
      match NextMatch(t, lastIndex) {
        case None =>
          lastIndex := 0;
          m := None;
        case Some((i, j)) =>
          lastIndex := j + 1;
          m := Some(t[i..j + 1]);
      }
    }
  }

  method ExtractNTCTagsWithContent(regexp: RegExpG, t: Text) returns (matches: seq<Text>)
    requires regexp.lastIndex == 0
    modifies regexp
    ensures matches == RegionTexts(t, 0) && regexp.lastIndex == 0
  {
    hide NextMatch, RegionTexts;
    matches := [];
    RegionTextsStep(t, 0);
    var found := regexp.Exec(t);
    while found != None
      invariant found != None ==> 0 < regexp.lastIndex <= |t|
      invariant found != None ==> RegionTexts(t, 0) == matches + ([found.value] + RegionTexts(t, regexp.lastIndex))
      invariant found == None ==> RegionTexts(t, 0) == matches && regexp.lastIndex == 0
      decreases found.Some?, |t| - regexp.lastIndex
    {
      RegionTextsStep(t, regexp.lastIndex);
      Regroup(matches, found.value, RegionTexts(t, regexp.lastIndex));
      matches := matches + [found.value];
      found := regexp.Exec(t);
    }
  }

  lemma Regroup(a: seq<Text>, x: Text, b: seq<Text>)
    ensures a + ([x] + b) == (a + [x]) + b
    ensures a + [] == a
  {
  }

  lemma RegionTextsStep(t: Text, from: nat)
    ensures match NextMatch(t, from)
            case None => RegionTexts(t, from) == []
            case Some((i, j)) => RegionTexts(t, from) == [t[i..j + 1]] + RegionTexts(t, j + 1)
  {
  }

  function InsertText(x: Text, s: seq<Text>): seq<Text> {
    if s == [] || (Leq(x, s[0]) && x != s[0]) then [x] + s else [s[0]] + InsertText(x, s[1..])
  }

  /** Array.prototype.sort on strings. */
  function SortTexts(s: seq<Text>): seq<Text> {
    if s == [] then [] else InsertText(s[|s| - 1], SortTexts(s[..|s| - 1]))
  }

  ghost predicate Sorted(s: seq<Text>) {
    forall i, j :: 0 <= i < j < |s| ==> Leq(s[i], s[j])
  }

  lemma {:induction false} InsertTextPermutes(x: Text, s: seq<Text>)
    ensures multiset(InsertText(x, s)) == multiset{x} + multiset(s)
  {
    hide Leq;
    if s != [] && !(Leq(x, s[0]) && x != s[0]) {
      InsertTextPermutes(x, s[1..]);
      assert s == [s[0]] + s[1..];
    }
  }

  lemma {:induction false} InsertTextSpec(x: Text, s: seq<Text>)
    requires Sorted(s)
    ensures Sorted(InsertText(x, s))
    ensures InsertText(x, s)[0] == x || (s != [] && InsertText(x, s)[0] == s[0])
  {
    hide Leq;
    if s == [] {
    } else if Leq(x, s[0]) && x != s[0] {
      forall j | 0 <= j < |s| ensures Leq(x, s[j]) {
        if j > 0 { LeqTransitive(x, s[0], s[j]); }
      }
    } else {
      InsertTextSpec(x, s[1..]);
      var rest := InsertText(x, s[1..]);
      LeqTotal(x, s[0]);
      assert s == [s[0]] + s[1..];
      forall j | 0 <= j < |rest| ensures Leq(s[0], rest[j]) {
        if j > 0 { LeqTransitive(s[0], rest[0], rest[j]); }
      }
    }
  }

  lemma {:induction false} SortTextsSpec(s: seq<Text>)
    ensures multiset(SortTexts(s)) == multiset(s) && Sorted(SortTexts(s))
  {
    hide Leq, InsertText;
    if s != [] {
      SortTextsSpec(s[..|s| - 1]);
      InsertTextSpec(s[|s| - 1], SortTexts(s[..|s| - 1]));
      InsertTextPermutes(s[|s| - 1], SortTexts(s[..|s| - 1]));
      assert s == s[..|s| - 1] + [s[|s| - 1]];
    }
  }

  lemma SameFirst(a: seq<Text>, b: seq<Text>)
    requires Sorted(a) && Sorted(b) && multiset(a) == multiset(b) && a != [] && b != []
    ensures a[0] == b[0]
  {
    hide Leq;
    assert a[0] in multiset(b) && b[0] in multiset(a);
    var i :| 0 <= i < |b| && b[i] == a[0];
    var j :| 0 <= j < |a| && a[j] == b[0];
    LeqTotal(a[0], a[0]);
    LeqTotal(b[0], b[0]);
    LeqAntisymmetric(a[0], b[0]);
  }

  lemma {:induction false} SortedIsUnique(a: seq<Text>, b: seq<Text>)
    requires Sorted(a) && Sorted(b) && multiset(a) == multiset(b)
    ensures a == b
    decreases |a|
  {
    hide Leq;
    assert |multiset(a)| == |a| && |multiset(b)| == |b|;
    if a != [] {
      SameFirst(a, b);
      DropFirst(a, b);
      SortedIsUnique(a[1..], b[1..]);
      assert a == [a[0]] + a[1..] && b == [b[0]] + b[1..];
    }
  }

  lemma DropFirst(a: seq<Text>, b: seq<Text>)
    requires a != [] && b != [] && a[0] == b[0] && multiset(a) == multiset(b)
    ensures multiset(a[1..]) == multiset(b[1..])
  {
    assert a == [a[0]] + a[1..] && b == [b[0]] + b[1..];
    assert multiset(a[1..]) == multiset(a) - multiset{a[0]};
    assert multiset(b[1..]) == multiset(b) - multiset{b[0]};
  }

  /** Sorting makes two lists equal exactly when they have the same elements equally often. */
  lemma SortedEqualIffSameMultiset(a: seq<Text>, b: seq<Text>)
    ensures SortTexts(a) == SortTexts(b) <==> multiset(a) == multiset(b)
  {
    hide SortTexts, Sorted;
    SortTextsSpec(a);
    SortTextsSpec(b);
    if multiset(a) == multiset(b) { SortedIsUnique(SortTexts(a), SortTexts(b)); }
  }

  /** An edit is reported exactly when the two texts differ in their multisets of regions. */
  method IsAttemptToEditNonTranslatableContent(regexp: RegExpG, text: Text, updatedText: Text) returns (edited: bool)
    requires regexp.lastIndex == 0
    modifies regexp
    ensures !edited <==> multiset(RegionTexts(text, 0)) == multiset(RegionTexts(updatedText, 0))
    ensures regexp.lastIndex == 0
  {
    hide SortTexts, Sorted, RegionTexts;
    if text == updatedText { return false; }
    var inText := ExtractNTCTagsWithContent(regexp, text);
    var inUpdatedText := ExtractNTCTagsWithContent(regexp, updatedText);
    if |inText| != |inUpdatedText| {
      assert |multiset(inText)| != |multiset(inUpdatedText)|;
      return true;
    }
    SortedEqualIffSameMultiset(inText, inUpdatedText);
    SortKeepsLength(inText);
    SortKeepsLength(inUpdatedText);
    var sorted := SortTexts(inText);
    var sortedUpdated := SortTexts(inUpdatedText);
    var i := 0;
    while i < |sorted|
      invariant 0 <= i <= |sorted|
      invariant sorted[..i] == sortedUpdated[..i]
    {
      if sorted[i] != sortedUpdated[i] { return true; }
      i := i + 1;
    }
    assert sorted == sortedUpdated;
    return false;
  }

  lemma SortKeepsLength(s: seq<Text>)
    ensures |SortTexts(s)| == |s|
  {
    hide SortTexts, Sorted;
    SortTextsSpec(s);
    assert |multiset(SortTexts(s))| == |SortTexts(s)| && |multiset(s)| == |s|;
  }

  // ---------- cutting regions out, stripping tags ----------

  /** Replacement of every region by its content. */
  function RemoveTagsFrom(t: Text, from: nat): Text
    requires from <= |t|
    decreases |t| - from
  {
    match NextMatch(t, from)
    case None => t[from..]
    case Some((i, j)) => t[from..i] + t[i + 1..j] + RemoveTagsFrom(t, j + 1)
  }

  function RemoveNonTranslatableTags(t: Text): Text {
    RemoveTagsFrom(t, 0)
  }

  /** Splitting at the regions. */
  function SplitAtRegions(t: Text, from: nat): seq<Text>
    requires from <= |t|
    decreases |t| - from
  {
    match NextMatch(t, from)
    case None => [t[from..]]
    case Some((i, j)) => [t[from..i]] + SplitAtRegions(t, j + 1)
  }

  /** End of an HTML-like tag `<[^<>]*>` that opened before `j`. */
  function TagEnd(t: Text, j: nat): (r: Option<nat>)
    ensures r.Some? ==> j <= r.value < |t|
    decreases |t| - j
  {
    if j >= |t| || t[j] == '<' as int then None
    else if t[j] == '>' as int then Some(j)
    else TagEnd(t, j + 1)
  }

  /** Splitting at the tags; `from` is the start of the current piece, `at` the scan position. */
  function SplitAtTags(t: Text, from: nat, at: nat): seq<Text>
    requires from <= at <= |t|
    decreases |t| - at
  {
    if at == |t| then [t[from..]]
    else if t[at] == '<' as int && TagEnd(t, at + 1).Some? then
      var e := TagEnd(t, at + 1).value;
      [t[from..at]] + SplitAtTags(t, e + 1, e + 1)
    else SplitAtTags(t, from, at + 1)
  }

  function FlatMap(pieces: seq<Text>, f: Text -> seq<Text>): seq<Text> {
    if pieces == [] then [] else f(pieces[0]) + FlatMap(pieces[1..], f)
  }

  predicate IsSpaceUnit(u: int) {
    9 <= u <= 13 || u == 0x20 || u == 0xA0 || u == 0x1680 || 0x2000 <= u <= 0x200A
    || u == 0x2028 || u == 0x2029 || u == 0x202F || u == 0x205F || u == 0x3000 || u == 0xFEFF
  }

  function TrimText(t: Text): Text {
    if t != [] && IsSpaceUnit(t[0]) then TrimText(t[1..])
    else if t != [] && IsSpaceUnit(t[|t| - 1]) then TrimText(t[..|t| - 1])
    else t
  }

  function NonEmpty(pieces: seq<Text>): seq<Text> {
    if pieces == [] then [] else (if pieces[0] != [] then [pieces[0]] else []) + NonEmpty(pieces[1..])
  }

  function TrimAll(pieces: seq<Text>): seq<Text> {
    if pieces == [] then [] else [TrimText(pieces[0])] + TrimAll(pieces[1..])
  }

  function ExtractTextBetweenTags(t: Text, keepNtc: bool, keepHtml: bool, preserveSpacing: bool): seq<Text> {
    var pieces := if keepNtc then [t] else SplitAtRegions(t, 0);
    var pieces := if keepHtml then pieces else FlatMap(pieces, p => SplitAtTags(p, 0, 0));
    NonEmpty(if preserveSpacing then pieces else TrimAll(pieces))
  }

  // ---------- counting ----------

  datatype Algorithm = Utf16 | CodePoints

  function Join(pieces: seq<Text>): Text {
    if pieces == [] then [] else pieces[0] + Join(pieces[1..])
  }

  predicate IsPair(t: Text) {
    |t| >= 2 && 0xD800 <= t[0] <= 0xDBFF && 0xDC00 <= t[1] <= 0xDFFF
  }

  /** Surrogate pairs count once. */
  function CountCodePoints(t: Text): nat {
    if t == [] then 0 else 1 + CountCodePoints(if IsPair(t) then t[2..] else t[1..])
  }

  function CountCharacters(t: Text, algorithm: Algorithm, excludeNtc: bool): nat {
    var normalized := if excludeNtc then Join(ExtractTextBetweenTags(t, false, true, true)) else RemoveNonTranslatableTags(t);
    match algorithm case Utf16 => |normalized| case CodePoints => CountCodePoints(normalized)
  }

  function TotalLength(texts: seq<Text>): nat {
    if texts == [] then 0 else |texts[0]| + TotalLength(texts[1..])
  }

  lemma {:induction false} JoinNonEmpty(pieces: seq<Text>)
    ensures Join(NonEmpty(pieces)) == Join(pieces)
  {
    if pieces != [] {
      JoinNonEmpty(pieces[1..]);
      if pieces[0] != [] {
        var rest := NonEmpty(pieces[1..]);
        assert ([pieces[0]] + rest)[1..] == rest;
      } else {
        assert NonEmpty(pieces) == NonEmpty(pieces[1..]);
      }
    }
  }

  /** Stripping tags drops two units a region. */
  lemma {:induction false} StrippedLength(t: Text, from: nat)
    requires from <= |t|
    ensures |RemoveTagsFrom(t, from)| + 2 * |RegionTexts(t, from)| == |t| - from
    decreases |t| - from
  {
    hide NextMatch;
    match NextMatch(t, from)
    case None =>
    case Some((i, j)) => StrippedLength(t, j + 1);
  }

  /** Pieces and the texts between them, alternating. */
  function Weave(pieces: seq<Text>, between: seq<Text>): Text
    requires |pieces| == |between| + 1
  {
    if between == [] then pieces[0] else pieces[0] + between[0] + Weave(pieces[1..], between[1..])
  }

  /** Region texts without their first and last unit. */
  function Contents(regions: seq<Text>): (contents: seq<Text>)
    ensures |contents| == |regions|
  {
    seq(|regions|, i requires 0 <= i < |regions| =>
      if |regions[i]| >= 2 then regions[i][1..|regions[i]| - 1] else [])
  }

  /**
   * Nothing is lost or moved: the pieces woven with the regions are the text, and woven with the contents
   * of the regions they are the text with its tags stripped.
   */
  lemma {:induction false} TextIsWoven(t: Text, from: nat)
    requires from <= |t|
    ensures |SplitAtRegions(t, from)| == |RegionTexts(t, from)| + 1
    ensures Weave(SplitAtRegions(t, from), RegionTexts(t, from)) == t[from..]
    ensures Weave(SplitAtRegions(t, from), Contents(RegionTexts(t, from))) == RemoveTagsFrom(t, from)
    decreases |t| - from
  {
    hide NextMatch, Weave, Contents, SplitAtRegions, RegionTexts, RemoveTagsFrom;
    ScanStep(t, from);
    match NextMatch(t, from)
    case None =>
      WeaveNothing(t[from..]);
    case Some((i, j)) =>
      TextIsWoven(t, j + 1);
      WeaveStep(t[from..i], t[i..j + 1], SplitAtRegions(t, j + 1), RegionTexts(t, j + 1));
      CutApart(t, from, i, j);
  }

  lemma CutApart(t: Text, from: nat, i: nat, j: nat)
    requires from <= i < j < |t|
    ensures |t[i..j + 1]| == j - i + 1
    ensures t[i..j + 1][1..j - i] == t[i + 1..j]
    ensures t[from..] == t[from..i] + t[i..j + 1] + t[j + 1..]
  {
    var region := t[i..j + 1];
    var inner, content := region[1..j - i], t[i + 1..j];
    forall k | 0 <= k < j - i - 1 ensures inner[k] == content[k] {
      assert region[k + 1] == t[i + 1 + k];
    }
    assert t[from..i] + t[i..j + 1] == t[from..j + 1];
    assert t[from..j + 1] + t[j + 1..] == t[from..];
  }

  lemma ScanStep(t: Text, from: nat)
    requires from <= |t|
    ensures NextMatch(t, from).None? ==>
              SplitAtRegions(t, from) == [t[from..]] && RegionTexts(t, from) == [] && RemoveTagsFrom(t, from) == t[from..]
    ensures NextMatch(t, from).Some? ==>
              var m := NextMatch(t, from).value;
              && SplitAtRegions(t, from) == [t[from..m.0]] + SplitAtRegions(t, m.1 + 1)
              && RegionTexts(t, from) == [t[m.0..m.1 + 1]] + RegionTexts(t, m.1 + 1)
              && RemoveTagsFrom(t, from) == t[from..m.0] + t[m.0 + 1..m.1] + RemoveTagsFrom(t, m.1 + 1)
  {
    hide NextMatch;
    CutStep(t, from);
    TextsStep(t, from);
    StripStep(t, from);
  }

  lemma CutStep(t: Text, from: nat)
    requires from <= |t|
    ensures NextMatch(t, from).None? ==> SplitAtRegions(t, from) == [t[from..]]
    ensures NextMatch(t, from).Some? ==>
              var m := NextMatch(t, from).value;
              SplitAtRegions(t, from) == [t[from..m.0]] + SplitAtRegions(t, m.1 + 1)
  {
    hide NextMatch;
  }

  lemma TextsStep(t: Text, from: nat)
    ensures NextMatch(t, from).None? ==> RegionTexts(t, from) == []
    ensures NextMatch(t, from).Some? ==>
              var m := NextMatch(t, from).value;
              RegionTexts(t, from) == [t[m.0..m.1 + 1]] + RegionTexts(t, m.1 + 1)
  {
    hide NextMatch;
  }

  lemma StripStep(t: Text, from: nat)
    requires from <= |t|
    ensures NextMatch(t, from).None? ==> RemoveTagsFrom(t, from) == t[from..]
    ensures NextMatch(t, from).Some? ==>
              var m := NextMatch(t, from).value;
              RemoveTagsFrom(t, from) == t[from..m.0] + t[m.0 + 1..m.1] + RemoveTagsFrom(t, m.1 + 1)
  {
    hide NextMatch;
  }

  lemma WeaveNothing(piece: Text)
    ensures Weave([piece], []) == piece && Contents([]) == []
  {
  }

  lemma WeaveStep(piece: Text, region: Text, pieces: seq<Text>, regions: seq<Text>)
    requires |pieces| == |regions| + 1 && |region| >= 2
    ensures Weave([piece] + pieces, [region] + regions) == piece + region + Weave(pieces, regions)
    ensures Weave([piece] + pieces, Contents([region] + regions)) == piece + region[1..|region| - 1] + Weave(pieces, Contents(regions))
  {
    var all := [region] + regions;
    assert ([piece] + pieces)[1..] == pieces && all[1..] == regions;
    assert Contents(all)[1..] == Contents(regions);
    assert Contents(all)[0] == region[1..|region| - 1];
  }

  // ---------- HTML-like tags, and what the extracted pieces are ----------

  /** The tag pattern `<[^<>]*>` matches `t[i..j + 1]`. */
  ghost predicate IsTag(t: Text, i: nat, j: nat) {
    && i < j < |t| && t[i] == '<' as int && t[j] == '>' as int
    && forall m :: i < m < j ==> t[m] != '<' as int && t[m] != '>' as int
  }

  ghost predicate TagFree(t: Text) {
    forall i: nat, j: nat :: !IsTag(t, i, j)
  }

  ghost predicate RegionFree(t: Text) {
    forall i: nat, j: nat :: !IsRegion(t, i, j)
  }

  /** A part of a text has no tags or regions that the text does not have. */
  lemma PartIsFree(t: Text, a: nat, b: nat)
    requires a <= b <= |t|
    ensures TagFree(t) ==> TagFree(t[a..b])
    ensures RegionFree(t) ==> RegionFree(t[a..b])
  {
    forall i: nat, j: nat ensures IsTag(t[a..b], i, j) ==> IsTag(t, a + i, a + j) {
      if IsTag(t[a..b], i, j) { TagInPart(t, a, b, i, j); }
    }
    forall i: nat, j: nat ensures IsRegion(t[a..b], i, j) ==> IsRegion(t, a + i, a + j) {
      if IsRegion(t[a..b], i, j) { RegionInPart(t, a, b, i, j); }
    }
  }

  lemma TagInPart(t: Text, a: nat, b: nat, i: nat, j: nat)
    requires a <= b <= |t| && IsTag(t[a..b], i, j)
    ensures IsTag(t, a + i, a + j)
  {
    var part := t[a..b];
    forall m | a + i < m < a + j ensures t[m] != '<' as int && t[m] != '>' as int { assert t[m] == part[m - a]; }
  }

  lemma RegionInPart(t: Text, a: nat, b: nat, i: nat, j: nat)
    requires a <= b <= |t| && IsRegion(t[a..b], i, j)
    ensures IsRegion(t, a + i, a + j)
  {
    var part := t[a..b];
    forall m | a + i < m < a + j ensures !IsLineTerminator(t[m]) { assert t[m] == part[m - a]; }
  }

  lemma {:induction false} TagEndSpec(t: Text, j: nat)
    ensures TagEnd(t, j).Some? ==>
              t[TagEnd(t, j).value] == '>' as int
              && forall m :: j <= m < TagEnd(t, j).value ==> t[m] != '<' as int && t[m] != '>' as int
    ensures TagEnd(t, j).None? ==>
              forall e :: j <= e < |t| && t[e] == '>' as int ==> exists m :: j <= m < e && t[m] == '<' as int
    decreases |t| - j
  {
    if j < |t| && t[j] != '<' as int && t[j] != '>' as int { TagEndSpec(t, j + 1); }
  }

  /** The tags from a position on. */
  function TagTexts(t: Text, at: nat): seq<Text>
    decreases |t| - at
  {
    if at >= |t| then []
    else if t[at] == '<' as int && TagEnd(t, at + 1).Some? then
      var e := TagEnd(t, at + 1).value;
      [t[at..e + 1]] + TagTexts(t, e + 1)
    else TagTexts(t, at + 1)
  }

  /** Splitting at the tags loses nothing but whole tags, and leaves none: woven with them the pieces are the text. */
  lemma {:induction false} TagsAreWoven(t: Text, from: nat, at: nat)
    requires from <= at <= |t|
    requires forall i: nat, j: nat :: from <= i < at ==> !IsTag(t, i, j)
    ensures |SplitAtTags(t, from, at)| == |TagTexts(t, at)| + 1
    ensures Weave(SplitAtTags(t, from, at), TagTexts(t, at)) == t[from..]
    ensures forall p :: p in SplitAtTags(t, from, at) ==> TagFree(p)
    ensures forall g :: g in TagTexts(t, at) ==> |g| >= 2 && IsTag(g, 0, |g| - 1)
    decreases |t| - at
  {
    hide IsTag, TagFree, TagEnd, Weave, SplitAtTags, TagTexts;
    TagStep(t, from, at);
    if at == |t| {
      FreeUpTo(t, from, at);
      assert t[from..at] == t[from..];
      WeaveNothing(t[from..]);
    } else if t[at] == '<' as int && TagEnd(t, at + 1).Some? {
      var e := TagEnd(t, at + 1).value;
      TagFound(t, at, e);
      TagsAreWoven(t, e + 1, e + 1);
      FreeUpTo(t, from, at);
      WeaveOne(t[from..at], t[at..e + 1], SplitAtTags(t, e + 1, e + 1), TagTexts(t, e + 1));
      CutApart(t, from, at, e);
    } else {
      NoTagStarts(t, at);
      TagsAreWoven(t, from, at + 1);
    }
  }

  lemma TagStep(t: Text, from: nat, at: nat)
    requires from <= at <= |t|
    ensures at == |t| ==> SplitAtTags(t, from, at) == [t[from..]] && TagTexts(t, at) == []
    ensures at < |t| && t[at] == '<' as int && TagEnd(t, at + 1).Some? ==>
              var e := TagEnd(t, at + 1).value;
              && SplitAtTags(t, from, at) == [t[from..at]] + SplitAtTags(t, e + 1, e + 1)
              && TagTexts(t, at) == [t[at..e + 1]] + TagTexts(t, e + 1)
    ensures at < |t| && !(t[at] == '<' as int && TagEnd(t, at + 1).Some?) ==>
              SplitAtTags(t, from, at) == SplitAtTags(t, from, at + 1) && TagTexts(t, at) == TagTexts(t, at + 1)
  {
    hide TagEnd;
  }

  lemma FreeUpTo(t: Text, from: nat, at: nat)
    requires from <= at <= |t|
    requires forall i: nat, j: nat :: from <= i < at ==> !IsTag(t, i, j)
    ensures TagFree(t[from..at])
  {
    forall i: nat, j: nat ensures !IsTag(t[from..at], i, j) {
      if IsTag(t[from..at], i, j) { TagInPart(t, from, at, i, j); }
    }
  }

  lemma TagFound(t: Text, at: nat, e: nat)
    requires at < |t| && t[at] == '<' as int && TagEnd(t, at + 1) == Some(e)
    ensures var tag := t[at..e + 1]; |tag| == e + 1 - at >= 2 && IsTag(tag, 0, |tag| - 1)
  {
    TagEndSpec(t, at + 1);
    var tag := t[at..e + 1];
    forall m | 0 < m < |tag| - 1 ensures tag[m] != '<' as int && tag[m] != '>' as int { assert tag[m] == t[at + m]; }
  }

  lemma NoTagStarts(t: Text, at: nat)
    requires at < |t| && !(t[at] == '<' as int && TagEnd(t, at + 1).Some?)
    ensures forall j: nat :: !IsTag(t, at, j)
  {
    TagEndSpec(t, at + 1);
  }

  lemma WeaveOne(piece: Text, between: Text, pieces: seq<Text>, rest: seq<Text>)
    requires |pieces| == |rest| + 1
    ensures Weave([piece] + pieces, [between] + rest) == piece + between + Weave(pieces, rest)
  {
    assert ([piece] + pieces)[1..] == pieces && ([between] + rest)[1..] == rest;
  }

  /** Between two regions there is no place where the region pattern matches. */
  lemma {:induction false} PiecesAreRegionFree(t: Text, from: nat)
    requires from <= |t|
    ensures forall p :: p in SplitAtRegions(t, from) ==> RegionFree(p)
    decreases |t| - from
  {
    hide NextMatch, MatchEnd, RegionFree;
    NextMatchIsFirst(t, from);
    CutStep(t, from);
    match NextMatch(t, from)
    case None =>
      NoRegionBefore(t, from, |t|);
      assert t[from..|t|] == t[from..];
    case Some((i, j)) =>
      NoRegionBefore(t, from, i);
      PiecesAreRegionFree(t, j + 1);
  }

  lemma NoRegionBefore(t: Text, from: nat, to: nat)
    requires from <= to <= |t| && forall i :: from <= i < to ==> MatchEnd(t, i).None?
    ensures RegionFree(t[from..to])
  {
    forall i: nat, j: nat ensures !IsRegion(t[from..to], i, j) {
      if IsRegion(t[from..to], i, j) {
        RegionInPart(t, from, to, i, j);
        MatchEndSpec(t, from + i);
      }
    }
  }

  ghost predicate IsTrimmedText(t: Text) {
    t == [] || (!IsSpaceUnit(t[0]) && !IsSpaceUnit(t[|t| - 1]))
  }

  /** Trimming leaves a part of the text, trimmed, and drops white space only. */
  lemma {:induction false} TrimTextSpec(t: Text) returns (a: nat, b: nat)
    ensures a <= b <= |t| && TrimText(t) == t[a..b] && IsTrimmedText(TrimText(t))
    ensures forall m :: 0 <= m < a || b <= m < |t| ==> IsSpaceUnit(t[m])
    decreases |t|
  {
    a, b := 0, |t|;
    if t != [] && IsSpaceUnit(t[0]) {
      var rest := t[1..];
      a, b := TrimTextSpec(rest);
      forall m | 0 <= m < a + 1 || b + 1 <= m < |t| ensures IsSpaceUnit(t[m]) { if m > 0 { assert t[m] == rest[m - 1]; } }
      assert rest[a..b] == t[a + 1..b + 1];
      a, b := a + 1, b + 1;
    } else if t != [] && IsSpaceUnit(t[|t| - 1]) {
      var rest := t[..|t| - 1];
      a, b := TrimTextSpec(rest);
      assert rest[a..b] == t[a..b];
    }
  }

  /** What the options promise of a piece. */
  ghost predicate CleanPiece(p: Text, keepNtc: bool, keepHtml: bool) {
    (!keepNtc ==> RegionFree(p)) && (!keepHtml ==> TagFree(p))
  }

  lemma {:induction false} SplitPiecesAreClean(pieces: seq<Text>, keepNtc: bool)
    requires forall p :: p in pieces ==> CleanPiece(p, keepNtc, true)
    ensures forall p :: p in FlatMap(pieces, q => SplitAtTags(q, 0, 0)) ==> CleanPiece(p, keepNtc, false)
  {
    hide RegionFree, TagFree;
    if pieces != [] {
      assert pieces[0] in pieces;
      SplitPiecesAreClean(pieces[1..], keepNtc);
      TagsAreWoven(pieces[0], 0, 0);
      if !keepNtc { TagPiecesAreRegionFree(pieces[0], 0, 0); }
    }
  }

  lemma {:induction false} TagPiecesAreRegionFree(t: Text, from: nat, at: nat)
    requires from <= at <= |t| && RegionFree(t)
    ensures forall p :: p in SplitAtTags(t, from, at) ==> RegionFree(p)
    decreases |t| - at
  {
    hide RegionFree, TagEnd;
    PartIsFree(t, from, at);
    if at == |t| {
      assert t[from..at] == t[from..];
    } else if t[at] == '<' as int && TagEnd(t, at + 1).Some? {
      TagPiecesAreRegionFree(t, TagEnd(t, at + 1).value + 1, TagEnd(t, at + 1).value + 1);
    } else {
      TagPiecesAreRegionFree(t, from, at + 1);
    }
  }

  lemma {:induction false} TrimmedPiecesAreClean(pieces: seq<Text>, keepNtc: bool, keepHtml: bool)
    requires forall p :: p in pieces ==> CleanPiece(p, keepNtc, keepHtml)
    ensures forall p :: p in TrimAll(pieces) ==> CleanPiece(p, keepNtc, keepHtml) && IsTrimmedText(p)
  {
    hide RegionFree, TagFree, TrimText, IsTrimmedText;
    if pieces != [] {
      assert pieces[0] in pieces;
      assert TrimAll(pieces) == [TrimText(pieces[0])] + TrimAll(pieces[1..]);
      var a, b := TrimTextSpec(pieces[0]);
      PartIsFree(pieces[0], a, b);
      TrimmedPiecesAreClean(pieces[1..], keepNtc, keepHtml);
    }
  }

  lemma {:induction false} NonEmptyKeeps(pieces: seq<Text>)
    ensures forall p :: p in NonEmpty(pieces) <==> p in pieces && p != []
  {
    if pieces != [] {
      NonEmptyKeeps(pieces[1..]);
      assert pieces == [pieces[0]] + pieces[1..];
    }
  }

  /**
   * Whatever the options, no extracted piece is empty; none contains a region or a tag unless they are kept,
   * and each is trimmed unless spacing is preserved.
   */
  lemma ExtractedPiecesAreClean(t: Text, keepNtc: bool, keepHtml: bool, preserveSpacing: bool)
    ensures forall p :: p in ExtractTextBetweenTags(t, keepNtc, keepHtml, preserveSpacing) ==>
              p != [] && CleanPiece(p, keepNtc, keepHtml) && (!preserveSpacing ==> IsTrimmedText(p))
  {
    hide RegionFree, TagFree, IsTrimmedText, SplitAtRegions, SplitAtTags, FlatMap, TrimAll, NonEmpty;
    if !keepNtc { PiecesAreRegionFree(t, 0); }
    var cut := if keepNtc then [t] else SplitAtRegions(t, 0);
    assert forall p :: p in cut ==> CleanPiece(p, keepNtc, true);
    if !keepHtml { SplitPiecesAreClean(cut, keepNtc); }
    var split := if keepHtml then cut else FlatMap(cut, p => SplitAtTags(p, 0, 0));
    assert forall p :: p in split ==> CleanPiece(p, keepNtc, keepHtml);
    TrimmedPiecesAreClean(split, keepNtc, keepHtml);
    NonEmptyKeeps(if preserveSpacing then split else TrimAll(split));
  }

  /** The two tables of white space agree. */
  lemma SameSpaces(c: char)
    ensures IsSpaceUnit(c as int) <==> IsSpace(c)
  {
  }

  /** A piece with white space at its ends dropped. */
  ghost predicate TrimmedFrom(p: Text, kept: Text) {
    exists a: nat, b: nat ::
      && a <= b <= |p| && kept == p[a..b] && IsTrimmedText(kept)
      && forall m :: 0 <= m < a || b <= m < |p| ==> IsSpaceUnit(p[m])
  }

  ghost predicate BecomesPiece(piece: Text, kept: Text, preserveSpacing: bool) {
    if preserveSpacing then kept == piece else TrimmedFrom(piece, kept)
  }

  /** What becomes of the pieces, one by one: each is kept (trimmed unless spacing is preserved), or dropped when nothing is left. */
  ghost predicate KeepsInOrder(pieces: seq<Text>, kept: seq<Text>, preserveSpacing: bool)
    decreases |pieces|
  {
    if pieces == [] then kept == []
    else
      exists p: Text ::
        && BecomesPiece(pieces[0], p, preserveSpacing)
        && if p == [] then KeepsInOrder(pieces[1..], kept, preserveSpacing)
           else kept != [] && kept[0] == p && KeepsInOrder(pieces[1..], kept[1..], preserveSpacing)
  }

  /** A text that is wholly a region or wholly a tag, of a sort that is not kept. */
  ghost predicate IsCut(cut: Text, keepNtc: bool, keepHtml: bool) {
    |cut| >= 2 && ((!keepNtc && IsRegion(cut, 0, |cut| - 1)) || (!keepHtml && IsTag(cut, 0, |cut| - 1)))
  }

  lemma {:induction false} WeaveConcat(p: seq<Text>, a: seq<Text>, x: Text, q: seq<Text>, b: seq<Text>)
    requires |p| == |a| + 1 && |q| == |b| + 1
    ensures Weave(p + q, a + [x] + b) == Weave(p, a) + x + Weave(q, b)
    decreases |p|
  {
    if a == [] {
      assert p + q == [p[0]] + q && a + [x] + b == [x] + b;
      WeaveOne(p[0], x, q, b);
    } else {
      assert (p + q)[1..] == p[1..] + q && (a + [x] + b)[1..] == a[1..] + [x] + b;
      WeaveConcat(p[1..], a[1..], x, q, b);
    }
  }

  /** Splitting at the tags of every piece: the cuts so far and the tags, woven with the parts, are the text. */
  lemma {:induction false} SplitFurther(pieces: seq<Text>, cuts: seq<Text>) returns (parts: seq<Text>, allCuts: seq<Text>)
    requires |pieces| == |cuts| + 1
    ensures parts == FlatMap(pieces, p => SplitAtTags(p, 0, 0))
    ensures |parts| == |allCuts| + 1 && Weave(parts, allCuts) == Weave(pieces, cuts)
    ensures forall c :: c in allCuts ==> c in cuts || (|c| >= 2 && IsTag(c, 0, |c| - 1))
    decreases |pieces|
  {
    hide IsTag, TagFree, SplitAtTags;
    TagsAreWoven(pieces[0], 0, 0);
    var first, tags := SplitAtTags(pieces[0], 0, 0), TagTexts(pieces[0], 0);
    assert pieces[0][0..] == pieces[0];
    if cuts == [] {
      parts, allCuts := first, tags;
      assert pieces[1..] == [] && first + [] == first;
    } else {
      var rest, restCuts := SplitFurther(pieces[1..], cuts[1..]);
      parts, allCuts := first + rest, tags + [cuts[0]] + restCuts;
      WeaveConcat(first, tags, cuts[0], rest, restCuts);
      assert cuts == [cuts[0]] + cuts[1..];
    }
  }

  lemma {:induction false} CutsAreRegions(t: Text, from: nat)
    requires from <= |t|
    ensures forall c :: c in RegionTexts(t, from) ==> |c| >= 2 && IsRegion(c, 0, |c| - 1)
    decreases |t| - from
  {
    hide NextMatch, MatchEnd, IsRegion, RegionTexts;
    NextMatchIsFirst(t, from);
    TextsStep(t, from);
    match NextMatch(t, from)
    case None =>
    case Some((i, j)) =>
      MatchEndSpec(t, i);
      RegionText(t, i, j);
      CutsAreRegions(t, j + 1);
  }

  lemma RegionText(t: Text, i: nat, j: nat)
    requires IsRegion(t, i, j)
    ensures var c := t[i..j + 1]; |c| >= 2 && IsRegion(c, 0, |c| - 1)
  {
    var c := t[i..j + 1];
    forall m | 0 < m < |c| - 1 ensures !IsLineTerminator(c[m]) { assert c[m] == t[i + m]; }
  }

  lemma KeepsCons(pieces: seq<Text>, kept: seq<Text>, preserveSpacing: bool, p: Text)
    requires pieces != [] && BecomesPiece(pieces[0], p, preserveSpacing)
    requires p == [] ==> KeepsInOrder(pieces[1..], kept, preserveSpacing)
    requires p != [] ==> kept != [] && kept[0] == p && KeepsInOrder(pieces[1..], kept[1..], preserveSpacing)
    ensures KeepsInOrder(pieces, kept, preserveSpacing)
  {
    hide BecomesPiece;
  }

  lemma {:induction false} PreservedInOrder(pieces: seq<Text>)
    ensures KeepsInOrder(pieces, NonEmpty(pieces), true)
    decreases |pieces|
  {
    if pieces != [] {
      hide KeepsInOrder;
      PreservedInOrder(pieces[1..]);
      assert pieces[0] != [] ==> NonEmpty(pieces)[1..] == NonEmpty(pieces[1..]);
      assert pieces[0] == [] ==> NonEmpty(pieces) == NonEmpty(pieces[1..]);
      KeepsCons(pieces, NonEmpty(pieces), true, pieces[0]);
    }
  }

  lemma {:induction false} TrimmedInOrder(pieces: seq<Text>)
    ensures KeepsInOrder(pieces, NonEmpty(TrimAll(pieces)), false)
    decreases |pieces|
  {
    if pieces != [] {
      hide TrimmedFrom, TrimText, KeepsInOrder;
      TrimmedInOrder(pieces[1..]);
      var p, trimmed := TrimText(pieces[0]), TrimAll(pieces);
      TrimTextIsTrimmedFrom(pieces[0]);
      assert trimmed[0] == p && trimmed[1..] == TrimAll(pieces[1..]);
      assert p != [] ==> NonEmpty(trimmed)[1..] == NonEmpty(trimmed[1..]);
      assert p == [] ==> NonEmpty(trimmed) == NonEmpty(trimmed[1..]);
      KeepsCons(pieces, NonEmpty(trimmed), false, p);
    }
  }

  lemma TrimTextIsTrimmedFrom(t: Text)
    ensures TrimmedFrom(t, TrimText(t))
  {
    var a, b := TrimTextSpec(t);
  }

  /**
   * Nothing is lost: for all options the text is woven of pieces and of whole regions and tags that are not
   * kept, and what is extracted are those pieces, in order, trimmed unless spacing is preserved, without the
   * ones of which nothing is left.
   */
  lemma ExtractedPiecesAreComplete(t: Text, keepNtc: bool, keepHtml: bool, preserveSpacing: bool)
    returns (pieces: seq<Text>, cuts: seq<Text>)
    ensures |pieces| == |cuts| + 1 && Weave(pieces, cuts) == t
    ensures forall c :: c in cuts ==> IsCut(c, keepNtc, keepHtml)
    ensures KeepsInOrder(pieces, ExtractTextBetweenTags(t, keepNtc, keepHtml, preserveSpacing), preserveSpacing)
  {
    hide Weave, SplitAtRegions, RegionTexts, SplitAtTags, KeepsInOrder, FlatMap, IsRegion, IsTag, NonEmpty, TrimAll, RemoveTagsFrom;
    pieces, cuts := [t], [];
    WeaveNothing(t);
    if !keepNtc {
      TextIsWoven(t, 0);
      CutsAreRegions(t, 0);
      pieces, cuts := SplitAtRegions(t, 0), RegionTexts(t, 0);
      assert t[0..] == t;
    }
    if !keepHtml {
      pieces, cuts := SplitFurther(pieces, cuts);
    }
    if preserveSpacing { PreservedInOrder(pieces); } else { TrimmedInOrder(pieces); }
  }

  /** Surrogate pairs, high followed by low. */
  function CountPairs(t: Text): nat {
    if |t| < 2 then 0
    else (if 0xD800 <= t[0] < 0xDC00 && 0xDC00 <= t[1] < 0xE000 then 1 else 0) + CountPairs(t[1..])
  }

  /** The code points of any text are its units less one for every surrogate pair. */
  lemma {:induction false} CodePointsAreUnitsLessPairs(t: Text)
    ensures CountCodePoints(t) + CountPairs(t) == |t|
    decreases |t|
  {
    if t != [] {
      if IsPair(t) {
        CodePointsAreUnitsLessPairs(t[2..]);
        if |t| > 2 { assert t[1..][1..] == t[2..]; } else { assert t[2..] == []; }
        assert CountPairs(t[1..]) == CountPairs(t[2..]);
      } else {
        CodePointsAreUnitsLessPairs(t[1..]);
      }
    }
  }

  lemma CodePointCounts(t: Text)
    ensures CountCharacters(t, CodePoints, false) == |RemoveNonTranslatableTags(t)| - CountPairs(RemoveNonTranslatableTags(t))
    ensures CountCharacters(t, CodePoints, true) == |Join(SplitAtRegions(t, 0))| - CountPairs(Join(SplitAtRegions(t, 0)))
  {
    CodePointsAreUnitsLessPairs(RemoveNonTranslatableTags(t));
    CodePointsAreUnitsLessPairs(Join(SplitAtRegions(t, 0)));
    JoinNonEmpty(SplitAtRegions(t, 0));
  }

  /** The tags are U+E101 and U+E102; a region holds one unit at least, a closing tag too, but no line terminator. */
  lemma RegionVectors()
    ensures RegionTexts([0xE101, 0x61, 0xE102], 0) == [[0xE101, 0x61, 0xE102]]
    ensures RegionTexts([0xE101, 0xE102, 0xE102], 0) == [[0xE101, 0xE102, 0xE102]]
    ensures RegionTexts([0xE101, 0xE102], 0) == [] && RegionTexts([0xE102, 0x61, 0xE101], 0) == []
    ensures forall u :: u in {0x0A, 0x0D, 0x2028, 0x2029} ==> RegionTexts([0xE101, u, 0xE102], 0) == []
  {
    OnlyRegion([0xE101, 0x61, 0xE102]);
    OnlyRegion([0xE101, 0xE102, 0xE102]);
    forall t: Text | t in {[0xE101, 0xE102], [0xE102, 0x61, 0xE101]} ensures RegionTexts(t, 0) == [] { NoRegion(t); }
    forall u | u in {0x0A, 0x0D, 0x2028, 0x2029} ensures RegionTexts([0xE101, u, 0xE102], 0) == [] { NoRegion([0xE101, u, 0xE102]); }
  }

  lemma OnlyRegion(t: Text)
    requires |t| == 3 && MatchEnd(t, 0) == Some(2)
    ensures RegionTexts(t, 0) == [t]
  {
    assert NextMatch(t, 3) == None && RegionTexts(t, 3) == [];
    assert t[0..3] == t;
  }

  lemma NoRegion(t: Text)
    requires |t| <= 3 && forall i :: 0 <= i < |t| ==> MatchEnd(t, i).None?
    ensures RegionTexts(t, 0) == []
  {
    NextMatchIsFirst(t, 0);
  }

  // ---------- counts ----------

  /** Cutting drops the regions and nothing else. */
  lemma {:induction false} CutLength(t: Text, from: nat)
    requires from <= |t|
    ensures |Join(SplitAtRegions(t, from))| + TotalLength(RegionTexts(t, from)) == |t| - from
    decreases |t| - from
  {
    hide NextMatch;
    match NextMatch(t, from)
    case None =>
      assert [t[from..]][1..] == [];
      assert Join([t[from..]]) == t[from..] + Join([]);
    case Some((i, j)) =>
      CutLength(t, j + 1);
      assert SplitAtRegions(t, from)[1..] == SplitAtRegions(t, j + 1);
      assert RegionTexts(t, from)[1..] == RegionTexts(t, j + 1);
  }

  /** The texts the comparison extracts are those of the regions, and there is one piece more than regions. */
  lemma {:induction false} TextsOfRegions(t: Text, from: nat)
    requires from <= |t|
    ensures |RegionTexts(t, from)| == |Regions(t, from)| && |SplitAtRegions(t, from)| == |Regions(t, from)| + 1
    ensures forall k :: 0 <= k < |Regions(t, from)| ==>
              Regions(t, from)[k].0 <= Regions(t, from)[k].1 < |t|
              && RegionTexts(t, from)[k] == t[Regions(t, from)[k].0..Regions(t, from)[k].1 + 1]
    decreases |t| - from
  {
    hide NextMatch;
    match NextMatch(t, from)
    case None =>
    case Some((i, j)) => TextsOfRegions(t, j + 1);
  }

  /**
   * For every text: the default UTF-16 count is the length less two units per region, and the count
   * without non-translatable content is the length less the regions, the very ones the comparison sees.
   */
  lemma CountsAgree(t: Text)
    ensures CountCharacters(t, Utf16, false) == |t| - 2 * |RegionTexts(t, 0)|
    ensures CountCharacters(t, Utf16, true) == |t| - TotalLength(RegionTexts(t, 0))
  {
    StrippedLength(t, 0);
    CutLength(t, 0);
    JoinNonEmpty(SplitAtRegions(t, 0));
  }
}
