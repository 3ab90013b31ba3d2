/**
 * Three independent lookups of a response in a contract: the server's choice of a representation,
 * the server's choice of SSE event schemas, and the client's reading of status and content type.
 */
module ContractResponses {
  import opened JsText

  // Schemas are opaque; SSE schemas are keyed by event name.
  datatype Descriptor = JsonBody(schema: int) | BlobBody | SseBody(events: map<string, int>)

  // A bare schema, or a content-map entry with its media types in declaration order.
  datatype Entry =
    | JsonEntry(schema: int)
    | ContentEntry(content: Option<seq<(string, Descriptor)>>, allowNoBody: bool)

  // Status keys ("200", "4xx", "default") with their entries, in iteration order.
  type Contract = seq<(string, Entry)>

  datatype ResponseKind = NoContent | Blob | Json(schema: int) | Sse(events: map<string, int>)

  function Find<T>(pairs: seq<(string, T)>, key: string): Option<T> {
    if pairs == [] then None
    else if pairs[0].0 == key then Some(pairs[0].1)
    else Find(pairs[1..], key)
  }

  ghost predicate DistinctKeys<T>(pairs: seq<(string, T)>) {
    forall i, j :: 0 <= i < j < |pairs| ==> pairs[i].0 != pairs[j].0
  }

  /** Objects have each key once. */
  ghost predicate WellFormed(contract: Contract) {
    && DistinctKeys(contract)
    && forall i :: 0 <= i < |contract| ==>
         contract[i].1.ContentEntry? && contract[i].1.content.Some? ==> DistinctKeys(contract[i].1.content.value)
  }

  // ---------- keys ----------

  function Digits(n: nat): string {
    if n < 10 then [('0' as int + n) as char] else Digits(n / 10) + [('0' as int + n % 10) as char]
  }

  function StatusText(status: int): string {
    if status < 0 then "-" + Digits(-status) else Digits(status)
  }

  /** The client's range key, by intervals. */
  function GetRangeKey(status: int): Option<string> {
    if 100 <= status < 200 then Some("1xx")
    else if 200 <= status < 300 then Some("2xx")
    else if 300 <= status < 400 then Some("3xx")
    else if 400 <= status < 500 then Some("4xx")
    else if 500 <= status < 600 then Some("5xx")
    else None
  }

  /** The server's range key, by division. */
  function RangeKeyByDivision(status: int): Option<string> {
    if 100 <= status < 600 then Some(StatusText(status / 100) + "xx") else None
  }

  lemma RangeKeysAgree(status: int)
    ensures RangeKeyByDivision(status) == GetRangeKey(status)
  {
    if 100 <= status < 600 {
      var q := status / 100;
      if q == 1 { assert Digits(q) == "1" && "1" + "xx" == "1xx"; }
      else if q == 2 { assert Digits(q) == "2" && "2" + "xx" == "2xx"; }
      else if q == 3 { assert Digits(q) == "3" && "3" + "xx" == "3xx"; }
      else if q == 4 { assert Digits(q) == "4" && "4" + "xx" == "4xx"; }
      else { assert Digits(q) == "5" && "5" + "xx" == "5xx"; }
    }
  }

  // ---------- media types ----------

  function Lower(c: char): char {
    if 'A' <= c <= 'Z' then (c as int + 32) as char else c
  }

  function ToLowerCase(s: string): (r: string)
    ensures |r| == |s|
  {
    seq(|s|, i requires 0 <= i < |s| => Lower(s[i]))
  }

  function BeforeParameters(contentType: string): string {
    Split(contentType, ';')[0]
  }

  function NormalizeMediaType(contentType: string): string {
    ToLowerCase(Trim(BeforeParameters(contentType)))
  }

  // ---------- the client ----------

  function DescriptorToKind(d: Descriptor): ResponseKind {
    match d
    case BlobBody => Blob
    case SseBody(events) => Sse(events)
    case JsonBody(schema) => Json(schema)
  }

  /** First declared media type equal after normalisation. */
  function MatchMediaType(content: seq<(string, Descriptor)>, target: string): Option<Descriptor> {
    if content == [] then None
    else if NormalizeMediaType(content[0].0) == target then Some(content[0].1)
    else MatchMediaType(content[1..], target)
  }

  function ResolveContentEntry(entry: Entry, contentType: Option<string>, strict: bool): Option<ResponseKind>
    requires entry.ContentEntry?
  {
    match entry.content
    case None => Some(NoContent)
    case Some(content) =>
      var fallback := if !strict && |content| == 1 then Some(DescriptorToKind(content[0].1)) else None;
      if contentType == None || contentType == Some("") then
        if entry.allowNoBody then Some(NoContent) else fallback
      else
        match MatchMediaType(content, NormalizeMediaType(contentType.value))
        case Some(d) => Some(DescriptorToKind(d))
        case None => fallback
  }

  function ResolveContractResponse(entry: Entry, contentType: Option<string>, strict: bool): Option<ResponseKind> {
    match entry
    case ContentEntry(_, _) => ResolveContentEntry(entry, contentType, strict)
    case JsonEntry(schema) =>
      if (contentType.Some? && contentType != Some("") && NormalizeMediaType(contentType.value) == "application/json")
         || !strict
      then Some(Json(schema)) else None
  }

  function ResolveResponseEntry(contract: Contract, status: int, contentType: Option<string>, strict: bool): Option<ResponseKind> {
    var exact := Find(contract, StatusText(status));
    if exact.Some? then ResolveContractResponse(exact.value, contentType, strict)
    else
      var rangeKey := GetRangeKey(status);
      var range := if rangeKey.Some? then Find(contract, rangeKey.value) else None;
      if range.Some? then ResolveContractResponse(range.value, contentType, strict)
      else
        var default_ := Find(contract, "default");
        if default_.Some? then ResolveContractResponse(default_.value, contentType, strict) else None
  }

  // ---------- the server ----------

  // A handler result; of the body only whether it is null matters here.
  datatype HandlerResult = HandlerResult(status: int, contentType: Option<string>, bodyIsNull: bool)

  // `contentType` is None for a body-less response.
  datatype Resolved = Resolved(status: int, contentType: Option<string>, isSse: bool)

  datatype Error = UndeclaredStatus | UndeclaredContentType | NoContentType | NoSseResponse | SelectionRequired | UndeclaredSse

  function OrElse<T>(a: Option<T>, b: Option<T>): Option<T> {
    if a.Some? then a else b
  }

  function ServerEntry(contract: Contract, status: int): Option<Entry> {
    var rangeKey := RangeKeyByDivision(status);
    OrElse(
      OrElse(Find(contract, StatusText(status)), if rangeKey.Some? then Find(contract, rangeKey.value) else None),
      Find(contract, "default"))
  }

  function ResolveResponseRepresentation(contract: Contract, r: HandlerResult): Result<Resolved, Error> {
    match ServerEntry(contract, r.status)
    case None => Err(UndeclaredStatus)
    case Some(entry) =>
      if r.contentType.Some? then
        var descriptor := if entry.ContentEntry? && entry.content.Some? then Find(entry.content.value, r.contentType.value) else None;
        match descriptor
        case None => Err(UndeclaredContentType)
        case Some(d) => Ok(Resolved(r.status, r.contentType, d.SseBody?))
      else
        match entry
        case JsonEntry(_) => Ok(Resolved(r.status, Some("application/json"), false))
        case ContentEntry(content, allowNoBody) =>
          if allowNoBody && r.bodyIsNull then Ok(Resolved(r.status, None, false))
          else if content.Some? && content.value != [] then
            Ok(Resolved(r.status, Some(content.value[0].0), content.value[0].1.SseBody?))
          else Err(NoContentType)
  }

  datatype Selection = Selection(statusCode: string, contentType: string, events: map<string, int>)

  /** The SSE representations of one content map, then of the whole contract, in order. */
  function SelectionsIn(statusCode: string, content: seq<(string, Descriptor)>): seq<Selection> {
    if content == [] then []
    else
      (match content[0].1 case SseBody(events) => [Selection(statusCode, content[0].0, events)] case _ => [])
      + SelectionsIn(statusCode, content[1..])
  }

  function SelectionsOf(contract: Contract): seq<Selection> {
    if contract == [] then []
    else EntrySelections(contract[0]) + SelectionsOf(contract[1..])
  }

  function EntrySelections(keyed: (string, Entry)): seq<Selection> {
    if keyed.1.ContentEntry? && keyed.1.content.Some? then SelectionsIn(keyed.0, keyed.1.content.value) else []
  }

  method GetSseSelections(contract: Contract) returns (selections: seq<Selection>)
    ensures selections == SelectionsOf(contract)
  {
    hide SelectionsOf, SelectionsIn;
    NoSelections("");
    selections := [];
    for i := 0 to |contract|
      invariant selections == SelectionsOf(contract[..i])
    {
      SelectionsSnoc(contract[..i], contract[i]);
      Extend(contract, i);
      var (statusCode, entry) := contract[i];
      if !entry.ContentEntry? || entry.content.None? {
        continue;
      }
      var content := entry.content.value;
      NoSelections(statusCode);
      for j := 0 to |content|
        invariant selections == SelectionsOf(contract[..i]) + SelectionsIn(statusCode, content[..j])
      {
        SelectionsInSnoc(statusCode, content[..j], content[j]);
        OneSelection(statusCode, content[j]);
        Extend(content, j);
        var (contentType, descriptor) := content[j];
        if descriptor.SseBody? {
          selections := selections + [Selection(statusCode, contentType, descriptor.events)];
        }
      }
      assert content[..|content|] == content;
    }
    assert contract[..|contract|] == contract;
  }

  lemma Extend<T>(s: seq<T>, i: nat)
    requires i < |s|
    ensures s[..i + 1] == s[..i] + [s[i]]
  {
  }

  lemma NoSelections(statusCode: string)
    ensures SelectionsIn(statusCode, []) == [] && SelectionsOf([]) == []
  {
  }

  lemma OneSelection(statusCode: string, only: (string, Descriptor))
    ensures SelectionsIn(statusCode, [only]) ==
            if only.1.SseBody? then [Selection(statusCode, only.0, only.1.events)] else []
  {
    assert [only][1..] == [];
  }

  lemma {:induction false} SelectionsInSnoc(statusCode: string, content: seq<(string, Descriptor)>, last: (string, Descriptor))
    ensures SelectionsIn(statusCode, content + [last]) == SelectionsIn(statusCode, content) + SelectionsIn(statusCode, [last])
  {
    if content == [] {
      assert content + [last] == [last];
    } else {
      assert (content + [last])[1..] == content[1..] + [last];
      SelectionsInSnoc(statusCode, content[1..], last);
    }
  }

  lemma {:induction false} SelectionsSnoc(contract: Contract, last: (string, Entry))
    ensures SelectionsOf(contract + [last]) == SelectionsOf(contract) + EntrySelections(last)
  {
    if contract == [] {
      assert contract + [last] == [last] && [last][1..] == [];
    } else {
      assert (contract + [last])[1..] == contract[1..] + [last];
      SelectionsSnoc(contract[1..], last);
    }
  }

  function FindSelection(selections: seq<Selection>, statusCode: string, contentType: string): Option<Selection> {
    if selections == [] then None
    else if selections[0].statusCode == statusCode && selections[0].contentType == contentType then Some(selections[0])
    else FindSelection(selections[1..], statusCode, contentType)
  }

  // A status given to start() is a number or a status key.
  datatype StatusCode = Code(n: int) | Key(text: string)

  function ResolveSseSelection(selections: seq<Selection>, statusCode: Option<StatusCode>, contentType: Option<string>): Result<Selection, Error> {
    if selections == [] then Err(NoSseResponse)
    else if |selections| == 1 then Ok(selections[0])
    else if statusCode == None || contentType == None then Err(SelectionRequired)
    else
      var exactKey := match statusCode.value case Code(n) => StatusText(n) case Key(text) => text;
      var rangeKey := match statusCode.value case Code(n) => RangeKeyByDivision(n) case Key(_) => None;
      var found :=
        OrElse(
          OrElse(
            FindSelection(selections, exactKey, contentType.value),
            if rangeKey.Some? then FindSelection(selections, rangeKey.value, contentType.value) else None),
          FindSelection(selections, "default", contentType.value));
      match found
      case Some(s) => Ok(s)
      case None => Err(UndeclaredSse)
  }

  // ---------- what the handler result selected ----------

  /** The descriptor that a resolved content type names in the selected entry. */
  function SelectedDescriptor(contract: Contract, resolved: Resolved): Option<Descriptor> {
    match ServerEntry(contract, resolved.status)
    case Some(ContentEntry(Some(content), _)) => (if resolved.contentType.Some? then Find(content, resolved.contentType.value) else None)
    case _ => None
  }

  /** The kind a resolved representation stands for. */
  function SelectedKind(contract: Contract, resolved: Resolved): Option<ResponseKind> {
    match ServerEntry(contract, resolved.status)
    case None => None
    case Some(JsonEntry(schema)) => Some(Json(schema))
    case Some(_) =>
      if resolved.contentType.None? then Some(NoContent)
      else match SelectedDescriptor(contract, resolved) case Some(d) => Some(DescriptorToKind(d)) case None => None
  }

  lemma {:induction false} FindFirst<T>(pairs: seq<(string, T)>, i: nat)
    requires DistinctKeys(pairs) && i < |pairs|
    ensures Find(pairs, pairs[i].0) == Some(pairs[i].1)
  {
    if i > 0 { FindFirst(pairs[1..], i - 1); }
  }

  lemma {:induction false} NotFound<T>(pairs: seq<(string, T)>, key: string)
    requires forall i :: 0 <= i < |pairs| ==> pairs[i].0 != key
    ensures Find(pairs, key) == None
  {
    if pairs != [] { NotFound(pairs[1..], key); }
  }

  lemma HeadKeyOnlyAtHead<T>(pairs: seq<(string, T)>)
    requires DistinctKeys(pairs) && pairs != []
    ensures Find(pairs[1..], pairs[0].0) == None
  {
    NotFound(pairs[1..], pairs[0].0);
  }

  lemma {:induction false} FoundAt<T>(pairs: seq<(string, T)>, key: string) returns (i: nat)
    requires Find(pairs, key).Some?
    ensures i < |pairs| && pairs[i].0 == key && pairs[i].1 == Find(pairs, key).value
  {
    if pairs[0].0 == key {
      i := 0;
    } else {
      i := FoundAt(pairs[1..], key);
      i := i + 1;
    }
  }

  lemma EntryIsWellFormed(contract: Contract, status: int)
    requires WellFormed(contract) && ServerEntry(contract, status).Some?
    ensures var e := ServerEntry(contract, status).value;
            e.ContentEntry? && e.content.Some? ==> DistinctKeys(e.content.value)
  {
    var key := EntryKey(contract, status);
    var i := FoundAt(contract, key);
  }

  /** The status key under which the server finds the entry. */
  function EntryKey(contract: Contract, status: int): string {
    var rangeKey := RangeKeyByDivision(status);
    if Find(contract, StatusText(status)).Some? then StatusText(status)
    else if rangeKey.Some? && Find(contract, rangeKey.value).Some? then rangeKey.value
    else "default"
  }

  /** Every accepted handler result selects a definite kind, and is marked SSE exactly when that kind is. */
  lemma AcceptedResultSelects(contract: Contract, r: HandlerResult)
    requires WellFormed(contract) && ResolveResponseRepresentation(contract, r).Ok?
    ensures var resolved := ResolveResponseRepresentation(contract, r).value;
            && SelectedKind(contract, resolved).Some?
            && (resolved.isSse <==> SelectedKind(contract, resolved).value.Sse?)
            && (resolved.contentType.None? ==> r.bodyIsNull && SelectedKind(contract, resolved) == Some(NoContent))
  {
    EntryIsWellFormed(contract, r.status);
    var e := ServerEntry(contract, r.status).value;
    if r.contentType.None? && e.ContentEntry? && e.content.Some? && e.content.value != [] {
      FindFirst(e.content.value, 0);
    }
  }

  // ---------- server and client agree ----------

  ghost predicate DistinctNormalized(content: seq<(string, Descriptor)>) {
    forall i, j :: 0 <= i < j < |content| ==> NormalizeMediaType(content[i].0) != NormalizeMediaType(content[j].0)
  }

  lemma {:induction false} MatchUnique(content: seq<(string, Descriptor)>, i: nat)
    requires DistinctNormalized(content) && i < |content|
    ensures MatchMediaType(content, NormalizeMediaType(content[i].0)) == Some(content[i].1)
  {
    if i > 0 { MatchUnique(content[1..], i - 1); }
  }

  /** What the client receives for a resolved response: no header, or one equal to the type after normalisation. */
  predicate HeaderFor(resolved: Resolved, header: Option<string>) {
    match resolved.contentType
    case None => header == None
    case Some(contentType) =>
      header.Some? && header.value != "" && NormalizeMediaType(header.value) == NormalizeMediaType(contentType)
  }

  lemma ClientEntry(contract: Contract, status: int, contentType: Option<string>, strict: bool)
    ensures ResolveResponseEntry(contract, status, contentType, strict) ==
            match ServerEntry(contract, status)
            case None => None
            case Some(e) => ResolveContractResponse(e, contentType, strict)
  {
    RangeKeysAgree(status);
  }

  /**
   * For any resolved response, the strict client reads the first declared media type that is equal after
   * normalisation; it agrees with the server exactly when that one has the kind the server selected.
   */
  lemma ClientReadsFirstMatch(contract: Contract, r: HandlerResult, header: Option<string>)
    requires WellFormed(contract) && ResolveResponseRepresentation(contract, r).Ok?
    requires HeaderFor(ResolveResponseRepresentation(contract, r).value, header)
    ensures var resolved := ResolveResponseRepresentation(contract, r).value;
            var read := ResolveResponseEntry(contract, r.status, header, true);
            var e := ServerEntry(contract, r.status).value;
            read == SelectedKind(contract, resolved) <==>
            (e.ContentEntry? && e.content.Some? && resolved.contentType.Some? ==>
              MatchMediaType(e.content.value, NormalizeMediaType(resolved.contentType.value)).Some?
              && DescriptorToKind(MatchMediaType(e.content.value, NormalizeMediaType(resolved.contentType.value)).value)
                 == SelectedKind(contract, resolved).value)
  {
    hide NormalizeMediaType, ResolveResponseEntry, Find, WellFormed, ServerEntry;
    AcceptedResultSelects(contract, r);
    ClientEntry(contract, r.status, header, true);
    JsonIsNormal();
  }

  /** For one status, the strict client reads the selected kind, whatever the handler returns and the header's spelling. */
  ghost predicate AgreesOn(contract: Contract, status: int) {
    forall r: HandlerResult, header ::
      r.status == status && ResolveResponseRepresentation(contract, r).Ok?
      && HeaderFor(ResolveResponseRepresentation(contract, r).value, header)
      ==> ResolveResponseEntry(contract, status, header, true)
          == SelectedKind(contract, ResolveResponseRepresentation(contract, r).value)
  }

  /** Media types that are equal after normalisation are declared with bodies of the same kind. */
  ghost predicate KindsFollowTypes(content: seq<(string, Descriptor)>) {
    forall i, j :: 0 <= i < |content| && 0 <= j < |content| && NormalizeMediaType(content[i].0) == NormalizeMediaType(content[j].0) ==>
      DescriptorToKind(content[i].1) == DescriptorToKind(content[j].1)
  }

  /** Client and server agree on a status exactly when its media types equal after normalisation have one kind. */
  lemma AgreementIff(contract: Contract, status: int)
    requires WellFormed(contract)
    ensures AgreesOn(contract, status) <==>
            var e := ServerEntry(contract, status);
            e.Some? && e.value.ContentEntry? && e.value.content.Some? ==> KindsFollowTypes(e.value.content.value)
  {
    hide NormalizeMediaType, ResolveResponseEntry, ResolveResponseRepresentation, WellFormed, ServerEntry, SelectedKind, KindsFollowTypes, HeaderFor;
    var e := ServerEntry(contract, status);
    if e.Some? && e.value.ContentEntry? && e.value.content.Some? {
      var content := e.value.content.value;
      if KindsFollowTypes(content) {
        forall r: HandlerResult, header |
          r.status == status && ResolveResponseRepresentation(contract, r).Ok?
          && HeaderFor(ResolveResponseRepresentation(contract, r).value, header)
          ensures ResolveResponseEntry(contract, status, header, true)
                  == SelectedKind(contract, ResolveResponseRepresentation(contract, r).value)
        {
          KindsAgree(contract, r, header);
        }
      }
      if AgreesOn(contract, status) { AgreementFixesKinds(contract, status); }
    } else {
      forall r: HandlerResult, header |
        r.status == status && ResolveResponseRepresentation(contract, r).Ok?
        && HeaderFor(ResolveResponseRepresentation(contract, r).value, header)
        ensures ResolveResponseEntry(contract, status, header, true)
                == SelectedKind(contract, ResolveResponseRepresentation(contract, r).value)
      {
        ResolvedHasEntry(contract, r);
        ClientReadsFirstMatch(contract, r, header);
      }
    }
  }

  lemma ResolvedHasEntry(contract: Contract, r: HandlerResult)
    requires ResolveResponseRepresentation(contract, r).Ok?
    ensures ServerEntry(contract, r.status).Some?
    ensures ResolveResponseRepresentation(contract, r).value.status == r.status
  {
    hide ServerEntry, Find;
  }

  lemma {:induction false} MatchAt(content: seq<(string, Descriptor)>, i: nat) returns (m: nat)
    requires i < |content|
    ensures m < |content| && NormalizeMediaType(content[m].0) == NormalizeMediaType(content[i].0)
    ensures MatchMediaType(content, NormalizeMediaType(content[i].0)) == Some(content[m].1)
  {
    hide NormalizeMediaType;
    if NormalizeMediaType(content[0].0) == NormalizeMediaType(content[i].0) {
      m := 0;
    } else {
      m := MatchAt(content[1..], i - 1);
      m := m + 1;
    }
  }

  lemma KindsAgree(contract: Contract, r: HandlerResult, header: Option<string>)
    requires WellFormed(contract) && ResolveResponseRepresentation(contract, r).Ok?
    requires HeaderFor(ResolveResponseRepresentation(contract, r).value, header)
    requires var e := ServerEntry(contract, r.status);
             e.Some? && e.value.ContentEntry? && e.value.content.Some? && KindsFollowTypes(e.value.content.value)
    ensures ResolveResponseEntry(contract, r.status, header, true)
            == SelectedKind(contract, ResolveResponseRepresentation(contract, r).value)
  {
    hide NormalizeMediaType, ResolveResponseEntry, WellFormed, ServerEntry, DescriptorToKind;
    var resolved := ResolveResponseRepresentation(contract, r).value;
    AcceptedResultSelects(contract, r);
    ClientReadsFirstMatch(contract, r, header);
    var content := ServerEntry(contract, r.status).value.content.value;
    if resolved.contentType.Some? {
      var i := FoundAt(content, resolved.contentType.value);
      var m := MatchAt(content, i);
      assert DescriptorToKind(content[m].1) == DescriptorToKind(content[i].1);
    }
  }

  lemma AgreementFixesKinds(contract: Contract, status: int)
    requires WellFormed(contract) && AgreesOn(contract, status)
    requires var e := ServerEntry(contract, status); e.Some? && e.value.ContentEntry? && e.value.content.Some?
    ensures KindsFollowTypes(ServerEntry(contract, status).value.content.value)
  {
    hide NormalizeMediaType, ResolveResponseEntry, WellFormed, ServerEntry, DescriptorToKind, AgreesOn;
    var content := ServerEntry(contract, status).value.content.value;
    forall i, j | 0 <= i < |content| && 0 <= j < |content| && NormalizeMediaType(content[i].0) == NormalizeMediaType(content[j].0)
      ensures DescriptorToKind(content[i].1) == DescriptorToKind(content[j].1)
    {
      var header := content[i].0 + ";" + "";
      NormalizationIgnoresCaseAndParameters(content[i].0, content[i].0, "");
      ReadsDeclaredKind(contract, status, header, i);
      ReadsDeclaredKind(contract, status, header, j);
    }
  }

  /** Where they agree, a header is read as the kind of every declared type it equals after normalisation. */
  lemma ReadsDeclaredKind(contract: Contract, status: int, header: string, i: nat)
    requires WellFormed(contract) && AgreesOn(contract, status) && header != ""
    requires var e := ServerEntry(contract, status);
             e.Some? && e.value.ContentEntry? && e.value.content.Some? && i < |e.value.content.value|
             && NormalizeMediaType(header) == NormalizeMediaType(e.value.content.value[i].0)
    ensures ResolveResponseEntry(contract, status, Some(header), true)
            == Some(DescriptorToKind(ServerEntry(contract, status).value.content.value[i].1))
  {
    hide NormalizeMediaType, ResolveResponseEntry, WellFormed, ServerEntry, DescriptorToKind;
    var content := ServerEntry(contract, status).value.content.value;
    EntryIsWellFormed(contract, status);
    FindFirst(content, i);
    var r := HandlerResult(status, Some(content[i].0), false);
    assert ResolveResponseRepresentation(contract, r).Ok?;
    assert HeaderFor(ResolveResponseRepresentation(contract, r).value, Some(header));
  }

  lemma OnlyDefault(entry: Entry, status: nat)
    ensures ServerEntry([("default", entry)], status) == Some(entry)
  {
    var contract := [("default", entry)];
    assert contract[1..] == [];
    StatusTextIsDigits(status);
    StatusTextIsDigits(status / 100);
    forall key | key != "" && key[0] != 'd' ensures Find(contract, key) == None { assert "default"[0] == 'd'; }
    assert RangeKeyByDivision(status).Some? ==> RangeKeyByDivision(status).value[0] == StatusText(status / 100)[0];
  }

  lemma {:induction false} StatusTextIsDigits(n: nat)
    ensures StatusText(n) != "" && StatusText(n)[0] != 'd'
  {
    if n >= 10 { StatusTextIsDigits(n / 10); }
  }

  /** JSON under one spelling of a media type and a blob under another. */
  function TwoSpellings(first: string, second: string): Contract {
    [("default", ContentEntry(Some([(first, JsonBody(1)), (second, BlobBody)]), false))]
  }

  /** With two spellings of one media type the client takes the second one's blob for the first one's JSON. */
  lemma SpellingsDisagree(first: string, second: string)
    requires first != second && second != "" && NormalizeMediaType(first) == NormalizeMediaType(second)
    ensures var contract, resolved := TwoSpellings(first, second), Resolved(200, Some(second), false);
            && WellFormed(contract)
            && ResolveResponseRepresentation(contract, HandlerResult(200, Some(second), false)) == Ok(resolved)
            && SelectedKind(contract, resolved) == Some(Blob)
            && ResolveResponseEntry(contract, 200, Some(second), true) == Some(Json(1))
  {
    var content := [(first, JsonBody(1)), (second, BlobBody)];
    var contract := TwoSpellings(first, second);
    OnlyDefault(contract[0].1, 200);
    hide ServerEntry, NormalizeMediaType, ResolveResponseEntry;
    assert content[1..][0].0 == second;
    assert Find(content, second) == Some(BlobBody);
    ClientEntry(contract, 200, Some(second), true);
  }

  lemma SpellingsOfJson()
    ensures NormalizeMediaType("application/json") == NormalizeMediaType("Application/json")
  {
    var a, b := "application/json", "Application/json";
    assert Lower(a[0]) == Lower(b[0]) && a[1..] == b[1..];
    forall i | 0 <= i < |a| ensures ToLowerCase(a)[i] == ToLowerCase(b)[i] {
      if i > 0 { assert a[1..][i - 1] == b[1..][i - 1]; }
    }
    assert ToLowerCase(a) == ToLowerCase(b);
    NormalizationIgnoresCaseAndParameters(a, b, "");
  }

  /** A contract on which client and server disagree. */
  lemma JsonSpellingsDisagree()
    ensures WellFormed(TwoSpellings("application/json", "Application/json"))
    ensures !AgreesOn(TwoSpellings("application/json", "Application/json"), 200)
  {
    hide NormalizeMediaType, ResolveResponseEntry, ResolveResponseRepresentation, SelectedKind, WellFormed, TwoSpellings;
    var first, second := "application/json", "Application/json";
    assert first[0] != second[0];
    SpellingsOfJson();
    SpellingsDisagree(first, second);
    var r := HandlerResult(200, Some(second), false);
    assert HeaderFor(ResolveResponseRepresentation(TwoSpellings(first, second), r).value, Some(second));
  }

  lemma JsonIsNormal()
    ensures NormalizeMediaType("application/json") == "application/json"
  {
    var s := "application/json";
    forall c | c in s ensures 'a' <= c <= 'z' || c == '/' {
      var i :| 0 <= i < |s| && s[i] == c;
    }
    LowerCaseWord(s);
  }

  lemma LowerCaseWord(s: string)
    requires forall c :: c in s ==> 'a' <= c <= 'z' || c == '/'
    ensures NormalizeMediaType(s) == s
  {
    NoParameters(s);
    forall c | c in s ensures !IsSpace(c) && Lower(c) == c {}
    hide BeforeParameters, Trim, IsSpace, Lower;
    if s != "" { assert s[0] in s && s[|s| - 1] in s; }
    TrimIsTrimmed(s);
    forall i | 0 <= i < |s| ensures ToLowerCase(s)[i] == s[i] { assert s[i] in s; }
    assert ToLowerCase(s) == s;
  }

  lemma {:induction false} NoParameters(s: string)
    requires ';' !in s
    ensures BeforeParameters(s) == s
  {
    if s != "" {
      NoParameters(s[1..]);
      assert [s[0]] + s[1..] == s;
    }
  }

  /** With media types distinct after normalisation, the client reads exactly the kind the server selected. */
  lemma ServerAndClientAgree(contract: Contract, r: HandlerResult, header: Option<string>)
    requires WellFormed(contract) && ResolveResponseRepresentation(contract, r).Ok?
    requires HeaderFor(ResolveResponseRepresentation(contract, r).value, header)
    requires var e := ServerEntry(contract, r.status);
             e.Some? && e.value.ContentEntry? && e.value.content.Some? ==> DistinctNormalized(e.value.content.value)
    ensures ResolveResponseEntry(contract, r.status, header, true)
            == SelectedKind(contract, ResolveResponseRepresentation(contract, r).value)
    ensures SelectedKind(contract, ResolveResponseRepresentation(contract, r).value).Some?
  {
    var resolved := ResolveResponseRepresentation(contract, r).value;
    AcceptedResultSelects(contract, r);
    ClientReadsFirstMatch(contract, r, header);
    var e := ServerEntry(contract, r.status).value;
    if e.ContentEntry? && e.content.Some? && resolved.contentType.Some? {
      var i := FoundAt(e.content.value, resolved.contentType.value);
      MatchUnique(e.content.value, i);
    }
  }

  /**
   * The non-strict client reads whatever the strict one reads; where that reads nothing it falls back to the
   * entry's only descriptor, and to nothing when there are several.
   */
  lemma NonStrictExtendsStrict(contract: Contract, status: int, header: Option<string>)
    ensures var strict := ResolveResponseEntry(contract, status, header, true);
            var lenient := ResolveResponseEntry(contract, status, header, false);
            if strict.Some? then lenient == strict
            else
              match ServerEntry(contract, status)
              case None => lenient == None
              case Some(JsonEntry(schema)) => lenient == Some(Json(schema))
              case Some(ContentEntry(content, _)) =>
                content.Some? && lenient == if |content.value| == 1 then Some(DescriptorToKind(content.value[0].1)) else None
  {
    ClientEntry(contract, status, header, true);
    ClientEntry(contract, status, header, false);
  }

  // ---------- what the contract says, in the caller's words ----------

  function DigitValue(c: char): int {
    c as int - '0' as int
  }

  /** The number a decimal numeral stands for. */
  function NumeralValue(s: string): int {
    if s == "" then 0 else NumeralValue(s[..|s| - 1]) * 10 + DigitValue(s[|s| - 1])
  }

  /** A status key that spells the status: its decimal numeral, without leading zeros. */
  predicate Spells(key: string, status: nat) {
    && key != "" && (forall i :: 0 <= i < |key| ==> '0' <= key[i] <= '9')
    && (|key| > 1 ==> key[0] != '0')
    && NumeralValue(key) == status
  }

  /** Exactly one key spells a status: its text. */
  lemma {:induction false} StatusTextSpells(status: nat, key: string)
    ensures Spells(key, status) <==> key == StatusText(status)
    decreases status
  {
    if status >= 10 { NumeralOfText(status / 10); }
    NumeralOfText(status);
    if Spells(key, status) { SpellingIsUnique(key, status); }
  }

  lemma {:induction false} NumeralOfText(n: nat)
    ensures Spells(Digits(n), n)
    ensures n > 0 ==> Digits(n)[0] != '0'
  {
    if n >= 10 {
      NumeralOfText(n / 10);
      var s := Digits(n);
      assert s[..|s| - 1] == Digits(n / 10);
    } else {
      var s := Digits(n);
      assert s[..0] == "";
    }
  }

  lemma {:induction false} SpellingIsUnique(key: string, n: nat)
    requires Spells(key, n)
    ensures key == Digits(n)
    decreases |key|
  {
    var init, last := key[..|key| - 1], key[|key| - 1];
    assert key == init + [last];
    if |key| == 1 {
      assert NumeralValue(init) == 0;
    } else {
      NumeralIsPositive(init);
      SpellingIsUnique(init, NumeralValue(init));
      assert n / 10 == NumeralValue(init) && n % 10 == DigitValue(last);
    }
  }

  lemma {:induction false} NumeralIsPositive(s: string)
    requires s != "" && s[0] != '0' && forall i :: 0 <= i < |s| ==> '0' <= s[i] <= '9'
    ensures NumeralValue(s) > 0
  {
    if |s| > 1 { NumeralIsPositive(s[..|s| - 1]); } else { assert s[..0] == ""; }
  }

  /** The range key of a status. */
  predicate CoversRange(key: string, status: int) {
    || (key == "1xx" && 100 <= status <= 199)
    || (key == "2xx" && 200 <= status <= 299)
    || (key == "3xx" && 300 <= status <= 399)
    || (key == "4xx" && 400 <= status <= 499)
    || (key == "5xx" && 500 <= status <= 599)
  }

  /** The entry for a status: that of the key spelling it, else of its range key, else of "default". */
  ghost predicate EntryFor(contract: Contract, status: nat, entry: Entry) {
    if exists i :: 0 <= i < |contract| && Spells(contract[i].0, status) then
      exists i :: 0 <= i < |contract| && Spells(contract[i].0, status) && contract[i].1 == entry
    else if exists i :: 0 <= i < |contract| && CoversRange(contract[i].0, status) then
      exists i :: 0 <= i < |contract| && CoversRange(contract[i].0, status) && contract[i].1 == entry
    else exists i :: 0 <= i < |contract| && contract[i].0 == "default" && contract[i].1 == entry
  }

  lemma FoundIff<T>(pairs: seq<(string, T)>, key: string)
    requires DistinctKeys(pairs)
    ensures Find(pairs, key).Some? <==> exists i :: 0 <= i < |pairs| && pairs[i].0 == key
    ensures forall i :: 0 <= i < |pairs| && pairs[i].0 == key ==> Find(pairs, key) == Some(pairs[i].1)
  {
    forall i | 0 <= i < |pairs| && pairs[i].0 == key ensures Find(pairs, key) == Some(pairs[i].1) { FindFirst(pairs, i); }
    if Find(pairs, key).Some? { var i := FoundAt(pairs, key); }
  }

  /** The lookups of server and client find the entry for the status, by that precedence. */
  lemma EntryIsFound(contract: Contract, status: nat, entry: Entry)
    requires WellFormed(contract)
    ensures ServerEntry(contract, status) == Some(entry) <==> EntryFor(contract, status, entry)
  {
    hide Find, StatusText, GetRangeKey, Spells;
    var exact := StatusText(status);
    forall key ensures Spells(key, status) <==> key == exact { StatusTextSpells(status, key); }
    RangeKeysAgree(status);
    RangeKeyCovers(status);
    FoundIff(contract, exact);
    FoundIff(contract, "default");
    if GetRangeKey(status).Some? { FoundIff(contract, GetRangeKey(status).value); }
  }

  lemma RangeKeyCovers(status: int)
    ensures forall key :: CoversRange(key, status) <==> GetRangeKey(status) == Some(key)
  {
  }

  /** The kind of response a body declaration stands for. */
  predicate IsKindOf(kind: ResponseKind, d: Descriptor) {
    match d
    case JsonBody(schema) => kind == Json(schema)
    case BlobBody => kind == Blob
    case SseBody(events) => kind == Sse(events)
  }

  /** What the server answers, from the entry for the status: every case of every handler result. */
  lemma ServerAnswers(contract: Contract, r: HandlerResult, entry: Entry)
    requires WellFormed(contract) && r.status >= 0 && EntryFor(contract, r.status, entry)
    ensures ResolveResponseRepresentation(contract, r) ==
            match entry
            case JsonEntry(_) =>
              if r.contentType.Some? then Err(UndeclaredContentType) else Ok(Resolved(r.status, Some("application/json"), false))
            case ContentEntry(None, allowNoBody) =>
              if r.contentType.Some? then Err(UndeclaredContentType)
              else if allowNoBody && r.bodyIsNull then Ok(Resolved(r.status, None, false)) else Err(NoContentType)
            case ContentEntry(Some(content), allowNoBody) =>
              if r.contentType.Some? then
                if exists i :: 0 <= i < |content| && content[i].0 == r.contentType.value then
                  Ok(Resolved(r.status, r.contentType,
                    exists i :: 0 <= i < |content| && content[i].0 == r.contentType.value && content[i].1.SseBody?))
                else Err(UndeclaredContentType)
              else if allowNoBody && r.bodyIsNull then Ok(Resolved(r.status, None, false))
              else if content == [] then Err(NoContentType)
              else Ok(Resolved(r.status, Some(content[0].0), content[0].1.SseBody?))
  {
    EntryIsFound(contract, r.status, entry);
    EntryIsWellFormed(contract, r.status);
    hide ServerEntry, EntryFor, Find, WellFormed;
    if entry.ContentEntry? && entry.content.Some? && r.contentType.Some? {
      FoundIff(entry.content.value, r.contentType.value);
    }
  }

  lemma UndeclaredStatusIsRejected(contract: Contract, r: HandlerResult)
    requires WellFormed(contract) && r.status >= 0
    ensures ResolveResponseRepresentation(contract, r) == Err(UndeclaredStatus) <==>
            forall entry :: !EntryFor(contract, r.status, entry)
  {
    hide EntryFor, Find, WellFormed, ServerEntry;
    forall entry ensures ServerEntry(contract, r.status) == Some(entry) <==> EntryFor(contract, r.status, entry) {
      EntryIsFound(contract, r.status, entry);
    }
    if ServerEntry(contract, r.status).Some? {
      assert EntryFor(contract, r.status, ServerEntry(contract, r.status).value);
    }
  }

  /** What the strict client reads, from the entry for the status and a header of a declared media type. */
  lemma ClientReads(contract: Contract, status: nat, header: string, entry: Entry, i: nat)
    requires WellFormed(contract) && EntryFor(contract, status, entry) && header != ""
    ensures entry.JsonEntry? ==>
              ResolveResponseEntry(contract, status, Some(header), true) ==
              if NormalizeMediaType(header) == "application/json" then Some(Json(entry.schema)) else None
    ensures entry.ContentEntry? && entry.content.Some? && i < |entry.content.value| && DistinctNormalized(entry.content.value)
            && NormalizeMediaType(header) == NormalizeMediaType(entry.content.value[i].0) ==>
              var read := ResolveResponseEntry(contract, status, Some(header), true);
              read.Some? && IsKindOf(read.value, entry.content.value[i].1)
    ensures entry.ContentEntry? && (entry.content.None? || entry.allowNoBody) ==>
              ResolveResponseEntry(contract, status, None, true) == Some(NoContent)
  {
    EntryIsFound(contract, status, entry);
    ClientEntry(contract, status, Some(header), true);
    ClientEntry(contract, status, None, true);
    hide ServerEntry, EntryFor, ResolveResponseEntry, NormalizeMediaType, DistinctNormalized, WellFormed;
    if entry.ContentEntry? && entry.content.Some? && i < |entry.content.value| && DistinctNormalized(entry.content.value) {
      MatchUnique(entry.content.value, i);
    }
  }

  /** An SSE body declared in the contract, with its status key and media type. */
  ghost predicate DeclaresSse(contract: Contract, s: Selection) {
    exists i, j ::
      && 0 <= i < |contract| && contract[i].0 == s.statusCode
      && contract[i].1.ContentEntry? && contract[i].1.content.Some?
      && 0 <= j < |contract[i].1.content.value|
      && contract[i].1.content.value[j] == (s.contentType, SseBody(s.events))
  }

  ghost predicate AllDifferent(s: seq<Selection>) {
    forall i, j :: 0 <= i < j < |s| ==> s[i] != s[j]
  }

  lemma DifferentConcat(a: seq<Selection>, b: seq<Selection>)
    requires AllDifferent(a) && AllDifferent(b) && forall x :: x in a ==> x !in b
    ensures AllDifferent(a + b)
  {
    forall i, j | 0 <= i < j < |a + b| ensures (a + b)[i] != (a + b)[j] {
      if i < |a| <= j { assert a[i] in a && b[j - |a|] in b; }
    }
  }

  /** The collected selections are exactly the declared SSE bodies, each once. */
  lemma {:induction false} SelectionsExactly(contract: Contract)
    requires WellFormed(contract)
    ensures forall s :: s in SelectionsOf(contract) <==> DeclaresSse(contract, s)
    ensures AllDifferent(SelectionsOf(contract))
  {
    if contract != [] {
      var head, rest := contract[0], contract[1..];
      RestIsWellFormed(contract);
      SelectionsExactly(rest);
      HeadSelections(head);
      hide SelectionsIn, DistinctKeys;
      forall s ensures DeclaresSse(contract, s) <==> DeclaresSse([head], s) || DeclaresSse(rest, s) { DeclaresCons(contract, s); }
      forall s | DeclaresSse([head], s) ensures !DeclaresSse(rest, s) { KeyIsNew(contract, s); }
      DifferentConcat(EntrySelections(head), SelectionsOf(rest));
    }
  }

  lemma DeclaresCons(contract: Contract, s: Selection)
    requires contract != []
    ensures DeclaresSse(contract, s) <==> DeclaresSse([contract[0]], s) || DeclaresSse(contract[1..], s)
  {
    var head, rest := [contract[0]], contract[1..];
    if DeclaresSse(contract, s) {
      var i, j :| 0 <= i < |contract| && contract[i].0 == s.statusCode
                  && contract[i].1.ContentEntry? && contract[i].1.content.Some?
                  && 0 <= j < |contract[i].1.content.value|
                  && contract[i].1.content.value[j] == (s.contentType, SseBody(s.events));
      if i == 0 { assert head[0] == contract[i]; } else { assert rest[i - 1] == contract[i]; }
    }
    if DeclaresSse(head, s) { assert contract[0] == head[0]; }
    if DeclaresSse(rest, s) {
      var i, j :| 0 <= i < |rest| && rest[i].0 == s.statusCode
                  && rest[i].1.ContentEntry? && rest[i].1.content.Some?
                  && 0 <= j < |rest[i].1.content.value|
                  && rest[i].1.content.value[j] == (s.contentType, SseBody(s.events));
      assert contract[i + 1] == rest[i];
    }
  }

  lemma KeyIsNew(contract: Contract, s: Selection)
    requires WellFormed(contract) && contract != [] && DeclaresSse([contract[0]], s)
    ensures !DeclaresSse(contract[1..], s)
  {
    assert forall i :: 0 <= i < |contract[1..]| ==> contract[1..][i] == contract[i + 1];
  }

  lemma HeadSelections(head: (string, Entry))
    requires WellFormed([head])
    ensures forall s :: s in EntrySelections(head) <==> DeclaresSse([head], s)
    ensures AllDifferent(EntrySelections(head))
  {
    var contract := [head];
    assert contract[0] == head;
    if head.1.ContentEntry? && head.1.content.Some? {
      SelectionsOfContent(head.0, head.1.content.value);
      hide SelectionsIn;
    }
  }

  lemma {:induction false} SelectionsOfContent(statusCode: string, content: seq<(string, Descriptor)>)
    requires DistinctKeys(content)
    ensures forall s :: s in SelectionsIn(statusCode, content) <==>
              s.statusCode == statusCode && exists j :: 0 <= j < |content| && content[j] == (s.contentType, SseBody(s.events))
    ensures AllDifferent(SelectionsIn(statusCode, content))
  {
    if content != [] {
      var rest := content[1..];
      assert forall i :: 0 < i < |content| ==> content[i] == rest[i - 1];
      SelectionsOfContent(statusCode, rest);
      assert content[0].1.SseBody? ==> Selection(statusCode, content[0].0, content[0].1.events) !in SelectionsIn(statusCode, rest);
      DifferentConcat(
        if content[0].1.SseBody? then [Selection(statusCode, content[0].0, content[0].1.events)] else [], SelectionsIn(statusCode, rest));
    }
  }

  /** Which of several SSE bodies a status and a media type select: by the exact key, the range key, then the default. */
  ghost predicate SelectsSse(selections: seq<Selection>, status: nat, contentType: string, s: Selection) {
    && s in selections && s.contentType == contentType
    && (|| Spells(s.statusCode, status)
        || (CoversRange(s.statusCode, status) && forall o :: o in selections && o.contentType == contentType ==> !Spells(o.statusCode, status))
        || (s.statusCode == "default" && forall o :: o in selections && o.contentType == contentType ==>
              !Spells(o.statusCode, status) && !CoversRange(o.statusCode, status)))
  }

  /** Every outcome of starting an SSE session for a numeric status. */
  lemma SseSessionStarts(selections: seq<Selection>, status: Option<nat>, contentType: Option<string>)
    ensures var r := ResolveSseSelection(selections, if status.Some? then Some(Code(status.value)) else None, contentType);
            if selections == [] then r == Err(NoSseResponse)
            else if |selections| == 1 then r == Ok(selections[0])
            else if status == None || contentType == None then r == Err(SelectionRequired)
            else if r.Ok? then SelectsSse(selections, status.value, contentType.value, r.value)
            else r == Err(UndeclaredSse) && forall s :: !SelectsSse(selections, status.value, contentType.value, s)
  {
    if |selections| > 1 && status.Some? && contentType.Some? {
      var n, t := status.value, contentType.value;
      forall key ensures Spells(key, n) <==> key == StatusText(n) { StatusTextSpells(n, key); }
      RangeKeysAgree(n);
      RangeKeyCovers(n);
      forall key ensures FindSelection(selections, key, t).None? <==> forall s :: s in selections ==> s.statusCode != key || s.contentType != t
                 ensures FindSelection(selections, key, t).Some? ==>
                           var s := FindSelection(selections, key, t).value; s in selections && s.statusCode == key && s.contentType == t
      {
        SelectionIsFound(selections, key, t);
      }
      hide FindSelection, StatusText, Spells, CoversRange, GetRangeKey, RangeKeyByDivision;
    }
  }

  lemma {:induction false} SelectionIsFound(selections: seq<Selection>, key: string, contentType: string)
    ensures FindSelection(selections, key, contentType).None? <==>
            forall s :: s in selections ==> s.statusCode != key || s.contentType != contentType
    ensures FindSelection(selections, key, contentType).Some? ==>
              var s := FindSelection(selections, key, contentType).value;
              s in selections && s.statusCode == key && s.contentType == contentType
  {
    if selections != [] {
      SelectionIsFound(selections[1..], key, contentType);
      assert selections == [selections[0]] + selections[1..];
    }
  }

  // ---------- headers with parameters or other letter case ----------

  /** A media type that is trimmed, in lower case and without parameters is its own normal form. */
  lemma NormalFormIsKept(s: string)
    requires ';' !in s && IsTrimmed(s) && forall i :: 0 <= i < |s| ==> !('A' <= s[i] <= 'Z')
    ensures NormalizeMediaType(s) == s
  {
    NoParameters(s);
    TrimIsTrimmed(s);
    assert ToLowerCase(s) == s;
  }

  lemma {:induction false} LowerSplit(s: string, t: string)
    requires ToLowerCase(s) == ToLowerCase(t)
    ensures ToLowerCase(BeforeParameters(s)) == ToLowerCase(BeforeParameters(t))
  {
    if s != "" {
      assert Lower(s[0]) == ToLowerCase(s)[0] == ToLowerCase(t)[0] == Lower(t[0]);
      assert ToLowerCase(s[1..]) == ToLowerCase(s)[1..] == ToLowerCase(t)[1..] == ToLowerCase(t[1..]);
      LowerSplit(s[1..], t[1..]);
      var a, b := BeforeParameters(s[1..]), BeforeParameters(t[1..]);
      if s[0] != ';' {
        assert ToLowerCase([s[0]] + a) == [Lower(s[0])] + ToLowerCase(a);
        assert ToLowerCase([t[0]] + b) == [Lower(t[0])] + ToLowerCase(b);
      }
    }
  }

  lemma {:induction false} LowerTrimStart(s: string)
    ensures ToLowerCase(TrimStart(s)) == TrimStart(ToLowerCase(s))
  {
    if s != "" {
      assert ToLowerCase(s)[1..] == ToLowerCase(s[1..]);
      LowerTrimStart(s[1..]);
    }
  }

  lemma {:induction false} LowerTrimEnd(s: string)
    ensures ToLowerCase(TrimEnd(s)) == TrimEnd(ToLowerCase(s))
  {
    if s != "" {
      assert ToLowerCase(s)[..|s| - 1] == ToLowerCase(s[..|s| - 1]);
      LowerTrimEnd(s[..|s| - 1]);
    }
  }

  /** Changing letter case or appending parameters does not change the normalised media type. */
  lemma NormalizationIgnoresCaseAndParameters(contentType: string, variant: string, parameters: string)
    requires ToLowerCase(variant) == ToLowerCase(contentType)
    ensures NormalizeMediaType(variant) == NormalizeMediaType(contentType)
    ensures NormalizeMediaType(variant + ";" + parameters) == NormalizeMediaType(contentType)
  {
    LowerSplit(variant, contentType);
    LowerTrimStart(BeforeParameters(variant));
    LowerTrimStart(BeforeParameters(contentType));
    LowerTrimEnd(TrimStart(BeforeParameters(variant)));
    LowerTrimEnd(TrimStart(BeforeParameters(contentType)));
    FirstPiece(variant, parameters);
  }

  lemma {:induction false} FirstPiece(s: string, parameters: string)
    ensures BeforeParameters(s + ";" + parameters) == BeforeParameters(s)
  {
    var t := s + ";" + parameters;
    if s == "" {
      assert t[0] == ';';
    } else {
      assert t[0] == s[0] && t[1..] == s[1..] + ";" + parameters;
      FirstPiece(s[1..], parameters);
    }
  }

  // ---------- the SSE selection ----------

  lemma {:induction false} FindInEntry(statusCode: string, content: seq<(string, Descriptor)>, key: string, contentType: string)
    requires DistinctKeys(content)
    ensures FindSelection(SelectionsIn(statusCode, content), key, contentType) ==
            if key == statusCode && Find(content, contentType).Some? && Find(content, contentType).value.SseBody?
            then Some(Selection(statusCode, contentType, Find(content, contentType).value.events)) else None
  {
    if content != [] {
      FindInEntry(statusCode, content[1..], key, contentType);
      HeadKeyOnlyAtHead(content);
      if content[0].1.SseBody? {
        assert SelectionsIn(statusCode, content)[1..] == SelectionsIn(statusCode, content[1..]);
      } else {
        assert SelectionsIn(statusCode, content) == SelectionsIn(statusCode, content[1..]);
      }
    }
  }

  lemma {:induction false} FindSelectionConcat(a: seq<Selection>, b: seq<Selection>, key: string, contentType: string)
    ensures FindSelection(a + b, key, contentType) == OrElse(FindSelection(a, key, contentType), FindSelection(b, key, contentType))
  {
    if a == [] {
      assert a + b == b;
    } else {
      assert (a + b)[1..] == a[1..] + b;
      FindSelectionConcat(a[1..], b, key, contentType);
    }
  }

  /** Looking up a selection is looking up the status key and then the content type in the contract. */
  lemma {:induction false} FindInContract(contract: Contract, key: string, contentType: string)
    requires WellFormed(contract)
    ensures FindSelection(SelectionsOf(contract), key, contentType) == DeclaredSse(contract, key, contentType)
  {
    if contract != [] {
      hide FindSelection, EntrySelections, DistinctKeys;
      var head, rest := contract[0], contract[1..];
      RestIsWellFormed(contract);
      FindInContract(rest, key, contentType);
      FindSelectionConcat(EntrySelections(head), SelectionsOf(rest), key, contentType);
      FindInHead(head, key, contentType);
      HeadKeyOnlyAtHead(contract);
    }
  }

  lemma RestIsWellFormed(contract: Contract)
    requires WellFormed(contract) && contract != []
    ensures WellFormed(contract[1..])
  {
    var rest := contract[1..];
    assert forall i :: 0 <= i < |rest| ==> rest[i] == contract[i + 1];
  }

  lemma FindInHead(head: (string, Entry), key: string, contentType: string)
    requires head.1.ContentEntry? && head.1.content.Some? ==> DistinctKeys(head.1.content.value)
    ensures FindSelection(EntrySelections(head), key, contentType) ==
            if key == head.0 then DeclaredSse([head], key, contentType) else None
  {
    assert [head][1..] == [];
    if head.1.ContentEntry? && head.1.content.Some? {
      hide SelectionsIn;
      FindInEntry(head.0, head.1.content.value, key, contentType);
    }
  }

  function DeclaredSse(contract: Contract, key: string, contentType: string): Option<Selection> {
    var entry: Option<Entry> := Find(contract, key);
    match entry
    case Some(ContentEntry(Some(content), _)) =>
      var descriptor: Option<Descriptor> := Find(content, contentType);
      (match descriptor
       case Some(SseBody(events)) => Some(Selection(key, contentType, events))
       case _ => None)
    case _ => None
  }

  /**
   * Whenever a handler result selects an SSE representation, starting the session with the resolved status
   * and content type succeeds and yields the event schemas of that very descriptor.
   */
  lemma SseSelectionIsTheSelectedDescriptor(contract: Contract, r: HandlerResult)
    requires WellFormed(contract) && ResolveResponseRepresentation(contract, r).Ok?
    requires ResolveResponseRepresentation(contract, r).value.isSse
    ensures var resolved := ResolveResponseRepresentation(contract, r).value;
            var selected := ResolveSseSelection(SelectionsOf(contract), Some(Code(resolved.status)), resolved.contentType);
            && selected.Ok?
            && SelectedDescriptor(contract, resolved) == Some(SseBody(selected.value.events))
  {
    var resolved := ResolveResponseRepresentation(contract, r).value;
    AcceptedResultSelects(contract, r);
    var contentType := resolved.contentType.value;
    var key := EntryKey(contract, r.status);
    var wanted := DeclaredSse(contract, key, contentType);
    assert wanted.Some?;
    FindInContract(contract, key, contentType);
    FindInContract(contract, StatusText(r.status), contentType);
    FindInContract(contract, "default", contentType);
    var rangeKey := RangeKeyByDivision(r.status);
    if rangeKey.Some? { FindInContract(contract, rangeKey.value, contentType); }
    var selections := SelectionsOf(contract);
    if |selections| == 1 {
      assert FindSelection(selections, key, contentType) == Some(selections[0]) by {
        assert selections[1..] == [];
      }
    }
  }
}
