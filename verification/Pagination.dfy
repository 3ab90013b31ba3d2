/** Cursor pagination: building a page response, and collecting all pages through cursors. */
module Pagination {
  import opened JsText

  // An item's string-valued properties.
  type Item = map<string, string>

  datatype Built = Raw(cursor: string) | Payload(object_: Item)

  // `undefined`, an array of keys, or a builder function. With a page limit of 0 a builder is handed a
  // missing item; None as its result means that it throws.
  datatype CursorSpec = ById | ByKeys(keys: seq<string>) | ByBuilder(build: Option<Item> -> Option<Built>)

  // `cursor` is absent on an empty page or when the cursor property is missing.
  datatype Meta = Meta(count: nat, cursor: Option<string>, hasMore: bool)

  datatype Page = Page(data: seq<Item>, meta: Meta)

  datatype Error = EmptyCursorKeys | NoLastElement | BuilderThrew

  function Picked(source: Item, names: seq<string>): Item {
    map k | k in source && k in names :: source[k]
  }

  method Pick(source: Item, names: seq<string>) returns (result: Item)
    ensures result == Picked(source, names)
  {
    result := map[];
    var idx := 0;
    while idx < |names|
      invariant 0 <= idx <= |names|
      invariant result == Picked(source, names[..idx])
    {
      assert names[..idx + 1] == names[..idx] + [names[idx]];
      if names[idx] in source {
        result := result[names[idx] := source[names[idx]]];
      }
      idx := idx + 1;
    }
    assert names[..idx] == names;
  }

  /** The cursor of an item, or of a missing one; `encode` stands for the encoding of cursor objects. */
  function CursorOf(item: Option<Item>, spec: CursorSpec, encode: Item -> string): Result<Option<string>, Error> {
    match spec
    case ByBuilder(build) =>
      (match build(item)
       case None => Err(BuilderThrew)
       case Some(Raw(cursor)) => Ok(Some(cursor))
       case Some(Payload(o)) => Ok(Some(encode(o))))
    case ById => if item.None? then Err(NoLastElement) else Ok(Get(item.value, "id"))
    case ByKeys(keys) =>
      if item.None? then Err(NoLastElement)
      else if |keys| == 1 then Ok(Get(item.value, keys[0]))
      else Ok(Some(encode(Picked(item.value, keys))))
  }

  /** The items' own words: the id by default, the value of a single key, exactly the named properties of several. */
  ghost predicate ReportsCursor(cursor: Option<string>, last: Item, spec: CursorSpec, encode: Item -> string) {
    match spec
    case ById => cursor == if "id" in last then Some(last["id"]) else None
    case ByKeys(keys) =>
      if |keys| == 1 then cursor == if keys[0] in last then Some(last[keys[0]]) else None
      else exists picked: Item ::
             && (forall k :: k in picked <==> k in keys && k in last)
             && (forall k :: k in picked ==> picked[k] == last[k])
             && cursor == Some(encode(picked))
    case ByBuilder(build) =>
      match build(Some(last))
      case None => false
      case Some(Raw(text)) => cursor == Some(text)
      case Some(Payload(object_)) => cursor == Some(encode(object_))
  }

  lemma CursorIsReported(last: Item, spec: CursorSpec, encode: Item -> string)
    ensures CursorOf(Some(last), spec, encode).Ok? ==>
              ReportsCursor(CursorOf(Some(last), spec, encode).value, last, spec, encode)
    ensures !spec.ByBuilder? ==> CursorOf(Some(last), spec, encode).Ok?
  {
    if spec.ByKeys? {
      var picked := Picked(last, spec.keys);
      assert forall k :: k in picked <==> k in spec.keys && k in last;
    }
  }

  /** The last item a page keeps; a limit of 0 keeps none. */
  function LastKept(page: seq<Item>, pageLimit: nat): Option<Item> {
    var count := Min(|page|, pageLimit);
    if count == 0 then None else Some(page[count - 1])
  }

  function Get(item: Item, key: string): Option<string> {
    if key in item then Some(item[key]) else None
  }

  function Min(a: nat, b: nat): nat {
    if a <= b then a else b
  }

  method GetMetaForNextPage(page: seq<Item>, pageLimit: nat, spec: CursorSpec, encode: Item -> string) returns (r: Result<Meta, Error>)
    ensures spec == ByKeys([]) ==> r == Err(EmptyCursorKeys)
    ensures spec != ByKeys([]) && page == [] ==> r == Ok(Meta(0, None, false))
    ensures spec != ByKeys([]) && page != [] ==>
              var cursor := CursorOf(LastKept(page, pageLimit), spec, encode);
              r == if cursor.Err? then Err(cursor.error) else Ok(Meta(Min(|page|, pageLimit), cursor.value, |page| > pageLimit))
  {
    if spec.ByKeys? && |spec.keys| == 0 { return Err(EmptyCursorKeys); }
    if |page| == 0 { return Ok(Meta(0, None, false)); }
    var count := Min(|page|, pageLimit);
    var lastElement := if count == 0 then None else Some(page[count - 1]);
    var cursor;
    match spec {
      case ById =>
        if lastElement.None? { return Err(NoLastElement); }
        cursor := Get(lastElement.value, "id");
      case ByBuilder(build) =>
        var built := build(lastElement);
        if built.None? { return Err(BuilderThrew); }
        cursor := Some(if built.value.Raw? then built.value.cursor else encode(built.value.object_));
      case ByKeys(keys) =>
        if lastElement.None? { return Err(NoLastElement); }
        if |keys| == 1 {
          cursor := Get(lastElement.value, keys[0]);
        } else {
          var picked := Pick(lastElement.value, keys);
          cursor := Some(encode(picked));
        }
    }
    return Ok(Meta(count, cursor, |page| > pageLimit));
  }

  method CreatePaginatedResponse(page: seq<Item>, pageLimit: nat, spec: CursorSpec, encode: Item -> string) returns (r: Result<Page, Error>)
    ensures spec == ByKeys([]) ==> r == Err(EmptyCursorKeys)
    ensures spec != ByKeys([]) && page == [] ==> r == Ok(Page([], Meta(0, None, false)))
    ensures spec != ByKeys([]) && page != [] ==>
              var cursor := CursorOf(LastKept(page, pageLimit), spec, encode);
              if cursor.Err? then r == Err(cursor.error)
              else
                && r.Ok? && r.value.data == page[..Min(|page|, pageLimit)]
                && r.value.meta == Meta(|r.value.data|, cursor.value, |page| > pageLimit)
    ensures spec != ByKeys([]) && page != [] && pageLimit > 0 && r.Ok? ==>
              ReportsCursor(r.value.meta.cursor, Last(r.value.data), spec, encode)
    ensures spec != ByKeys([]) && page != [] && pageLimit > 0 && !spec.ByBuilder? ==> r.Ok?
  {
    if page != [] && pageLimit > 0 { CursorIsReported(page[Min(|page|, pageLimit) - 1], spec, encode); }
    var meta := GetMetaForNextPage(page, pageLimit, spec, encode);
    match meta {
      case Err(e) => return Err(e);
      case Ok(m) => return Ok(Page(page[..Min(|page|, pageLimit)], m));
    }
  }

  // ---------- a backend over a list ----------

  datatype Backend = Backend(items: seq<Item>, spec: CursorSpec, encode: Item -> string, defaultLimit: nat)

  function Cursor(b: Backend, i: nat): Option<string>
    requires i < |b.items|
  {
    match CursorOf(Some(b.items[i]), b.spec, b.encode) case Ok(cursor) => cursor case Err(_) => None
  }

  /** Position after the first item with the cursor; past the end when no item has it. */
  function PositionAfter(b: Backend, cursor: string, from: nat): (at: nat)
    requires from <= |b.items|
    ensures from <= at <= |b.items|
    decreases |b.items| - from
  {
    if from == |b.items| then from
    else if Cursor(b, from) == Some(cursor) then from + 1
    else PositionAfter(b, cursor, from + 1)
  }

  /** Where the items after a cursor start. A missing or empty cursor is not sent: the list starts over. */
  function Start(b: Backend, after: Option<string>): (at: nat)
    ensures at <= |b.items|
  {
    if after == None || after == Some("") then 0 else PositionAfter(b, after.value, 0)
  }

  /** The answer to a call whose items start at `at`. */
  ghost function PageAt(b: Backend, limit: nat, at: nat): Result<Page, Error>
    requires limit > 0 && at <= |b.items|
  {
    if b.spec == ByKeys([]) then Err(EmptyCursorKeys)
    else if at == |b.items| then Ok(Page([], Meta(0, None, false)))
    else
      var end := Min(at + limit, |b.items|);
      match CursorOf(Some(b.items[end - 1]), b.spec, b.encode)
      case Err(e) => Err(e)
      case Ok(cursor) => Ok(Page(b.items[at..end], Meta(end - at, cursor, at + limit < |b.items|)))
  }

  /** One call: fetch one item more than the limit after the cursor and answer with a page. */
  method ApiCall(b: Backend, limit: nat, after: Option<string>) returns (r: Result<Page, Error>)
    requires limit > 0 && after != Some("")
    ensures r == PageAt(b, limit, Start(b, after))
  {
    var at := Start(b, after);
    var fetched := b.items[at..Min(at + limit + 1, |b.items|)];
    r := CreatePaginatedResponse(fetched, limit, b.spec, b.encode);
    FetchedPage(b.items, at, limit);
  }

  lemma FetchedPage(items: seq<Item>, at: nat, limit: nat)
    requires limit > 0 && at <= |items|
    ensures var fetched, end := items[at..Min(at + limit + 1, |items|)], Min(at + limit, |items|);
            && Min(|fetched|, limit) == end - at
            && (fetched == [] <==> at == |items|)
            && (|fetched| > limit <==> at + limit < |items|)
            && fetched[..end - at] == items[at..end]
            && LastKept(fetched, limit) == if at == |items| then None else Some(items[end - 1])
  {
  }

  // ---------- collecting the pages ----------

  datatype Collected = Running | Done(entries: seq<Item>) | Failed(error: Error)

  function Prepend(entries: seq<Item>, rest: Collected): Collected {
    match rest case Done(more) => Done(entries + more) case _ => rest
  }

  /** What collecting from a position on has come to after a number of calls. */
  ghost function Collect(b: Backend, limit: nat, at: nat, calls: nat): Collected
    requires limit > 0 && at <= |b.items|
    decreases calls
  {
    if calls == 0 then Running
    else
      match PageAt(b, limit, at)
      case Err(e) => Failed(e)
      case Ok(page) =>
        if !page.meta.hasMore then Done(page.data)
        else Prepend(page.data, Collect(b, limit, Start(b, page.meta.cursor), calls - 1))
  }

  ghost predicate Stops(b: Backend, limit: nat, at: nat)
    requires limit > 0 && at <= |b.items|
  {
    exists calls :: Collect(b, limit, at, calls) != Running
  }

  /** The page size: a limit of 0 is not sent, and leaves the size to the backend. */
  function PageSize(b: Backend, limit: Option<nat>): (size: nat)
    requires b.defaultLimit > 0
    ensures size > 0
  {
    if limit.Some? && limit.value != 0 then limit.value else b.defaultLimit
  }

  /**
   * The collecting loop, for every backend on which it stops: what it returns, or throws, in the fewest calls
   * after which that is known.
   */
  method GetPaginatedEntries(b: Backend, limit: Option<nat>, after: Option<string>)
    returns (r: Result<seq<Item>, Error>, calls: nat)
    requires b.defaultLimit > 0 && Stops(b, PageSize(b, limit), Start(b, after))
    ensures calls > 0 && Collect(b, PageSize(b, limit), Start(b, after), calls - 1) == Running
    ensures Collect(b, PageSize(b, limit), Start(b, after), calls) == if r.Ok? then Done(r.value) else Failed(r.error)
    ensures Aligned(b, PageSize(b, limit), Start(b, after)) <==> r == Ok(b.items[Start(b, after)..])
    ensures Aligned(b, PageSize(b, limit), Start(b, after)) ==> calls == PagesFor(|b.items| - Start(b, after), PageSize(b, limit))
  {
    hide Collect, PageAt, Start, Aligned, SoFar, PagesFor;
    var size := PageSize(b, limit);
    var resultArray: seq<Item> := [];
    var currentCursor := after;
    ghost var first := Start(b, after);
    ghost var bound: nat :| Collect(b, size, first, bound) != Running;
    calls := 0;
    SoFarStarts(b, size, first);
    while true
      invariant calls <= bound && SoFar(b, size, first, calls, Start(b, currentCursor), resultArray)
      decreases bound - calls
    {
      EmptyCursorStarts(b);
      ghost var at := Start(b, currentCursor);
      var page := ApiCall(b, size, if currentCursor == Some("") then None else currentCursor);
      SoFarStep(b, size, first, calls, at, resultArray, bound);
      calls := calls + 1;
      if page.Err? { return Err(page.error), calls; }
      if !page.value.meta.hasMore { return Ok(resultArray + page.value.data), calls; }
      resultArray := resultArray + page.value.data;
      currentCursor := page.value.meta.cursor;
    }
  }

  /** After some calls of collecting from `first`: what was collected, and where collecting stands. */
  ghost predicate SoFar(b: Backend, limit: nat, first: nat, calls: nat, at: nat, entries: seq<Item>)
    requires limit > 0 && first <= |b.items| && at <= |b.items|
  {
    forall m: nat :: Collect(b, limit, first, calls + m) == Prepend(entries, Collect(b, limit, at, m))
  }

  lemma SoFarStarts(b: Backend, limit: nat, first: nat)
    requires limit > 0 && first <= |b.items|
    ensures SoFar(b, limit, first, 0, first, [])
  {
    hide Collect;
    forall m: nat ensures Collect(b, limit, first, 0 + m) == Prepend([], Collect(b, limit, first, m)) {
      if Collect(b, limit, first, m).Done? {
        assert [] + Collect(b, limit, first, m).entries == Collect(b, limit, first, m).entries;
      }
    }
  }

  lemma SoFarStep(b: Backend, limit: nat, first: nat, calls: nat, at: nat, entries: seq<Item>, bound: nat)
    requires limit > 0 && first <= |b.items| && at <= |b.items| && SoFar(b, limit, first, calls, at, entries)
    requires calls <= bound && Collect(b, limit, first, bound) != Running
    ensures calls < bound && Collect(b, limit, first, calls) == Running
    ensures var page := PageAt(b, limit, at);
            if page.Ok? && page.value.meta.hasMore then
              SoFar(b, limit, first, calls + 1, Start(b, page.value.meta.cursor), entries + page.value.data)
            else
              && Collect(b, limit, first, calls + 1) == (if page.Ok? then Done(entries + page.value.data) else Failed(page.error))
              && (Aligned(b, limit, first) <==> Collect(b, limit, first, calls + 1) == Done(b.items[first..]))
              && (Aligned(b, limit, first) ==> calls + 1 == PagesFor(|b.items| - first, limit))
  {
    hide Collect, PageAt, Start, Aligned, PagesFor;
    CollectStep(b, limit, at, 0);
    assert Collect(b, limit, first, calls + 0) == Prepend(entries, Running);
    assert Collect(b, limit, first, calls + 1) == Prepend(entries, Collect(b, limit, at, 1));
    CollectStep(b, limit, at, 1);
    var page := PageAt(b, limit, at);
    if page.Ok? && page.value.meta.hasMore {
      var next := Start(b, page.value.meta.cursor);
      forall m: nat ensures Collect(b, limit, first, calls + 1 + m) == Prepend(entries + page.value.data, Collect(b, limit, next, m)) {
        CollectStep(b, limit, at, m + 1);
        assert Collect(b, limit, first, calls + (m + 1)) == Prepend(entries, Collect(b, limit, at, m + 1));
        PrependTwice(entries, page.value.data, Collect(b, limit, next, m));
      }
    } else {
      CollectedCases(b, limit, first, calls + 1);
    }
  }

  /** One call of collecting. */
  lemma CollectStep(b: Backend, limit: nat, at: nat, calls: nat)
    requires limit > 0 && at <= |b.items|
    ensures Collect(b, limit, at, 0) == Running
    ensures calls > 0 && PageAt(b, limit, at).Err? ==> Collect(b, limit, at, calls) == Failed(PageAt(b, limit, at).error)
    ensures calls > 0 && PageAt(b, limit, at).Ok? ==>
              var page := PageAt(b, limit, at).value;
              Collect(b, limit, at, calls) ==
              if !page.meta.hasMore then Done(page.data)
              else Prepend(page.data, Collect(b, limit, Start(b, page.meta.cursor), calls - 1))
  {
    hide PageAt, Start;
  }

  lemma PrependTwice(a: seq<Item>, b: seq<Item>, rest: Collected)
    ensures Prepend(a, Prepend(b, rest)) == Prepend(a + b, rest)
  {
    if rest.Done? { assert a + (b + rest.entries) == a + b + rest.entries; }
  }

  /** An empty cursor starts where no cursor does. */
  lemma EmptyCursorStarts(b: Backend)
    ensures Start(b, Some("")) == Start(b, None)
  {
  }

  // ---------- when the collected items are the right ones ----------

  /** The item's cursor leads to the position right after it: it is there, not empty, and no earlier item has it. */
  ghost predicate LeadsOn(b: Backend, i: nat)
    requires i < |b.items|
  {
    match CursorOf(Some(b.items[i]), b.spec, b.encode)
    case Ok(Some(cursor)) => cursor != "" && forall j :: 0 <= j < i ==> Cursor(b, j) != Some(cursor)
    case _ => false
  }

  /** Every page that is not the last one ends in an item that leads on, and the last page has a cursor to report. */
  ghost predicate Aligned(b: Backend, limit: nat, at: nat)
    requires limit > 0 && at <= |b.items|
    decreases |b.items| - at
  {
    && b.spec != ByKeys([])
    && if at + limit < |b.items| then LeadsOn(b, at + limit - 1) && Aligned(b, limit, at + limit)
       else at == |b.items| || CursorOf(Some(b.items[|b.items| - 1]), b.spec, b.encode).Ok?
  }

  lemma {:induction false} FirstWithCursor(b: Backend, cursor: string, i: nat, from: nat)
    requires from <= i < |b.items| && Cursor(b, i) == Some(cursor)
    ensures PositionAfter(b, cursor, from) <= i + 1
    ensures PositionAfter(b, cursor, from) == i + 1 <==> forall j :: from <= j < i ==> Cursor(b, j) != Some(cursor)
    decreases i - from
  {
    if from < i && Cursor(b, from) != Some(cursor) { FirstWithCursor(b, cursor, i, from + 1); }
  }

  /** The cursor of an item never skips an item, and leads on exactly as said. */
  lemma CursorLeads(b: Backend, i: nat)
    requires i < |b.items| && CursorOf(Some(b.items[i]), b.spec, b.encode).Ok?
    ensures Start(b, Cursor(b, i)) <= i + 1
    ensures Start(b, Cursor(b, i)) == i + 1 <==> LeadsOn(b, i)
  {
    hide CursorOf;
    var cursor := Cursor(b, i);
    if cursor.Some? && cursor != Some("") { FirstWithCursor(b, cursor.value, i, 0); }
  }

  /** Calls for a number of remaining items: one at least, else enough to cover them. */
  function PagesFor(remaining: nat, limit: nat): nat
    requires limit > 0
    decreases remaining
  {
    if remaining <= limit then 1 else 1 + PagesFor(remaining - limit, limit)
  }

  function Times(calls: nat, size: nat): nat {
    calls * size
  }

  lemma TimesStep(calls: nat, size: nat)
    ensures Times(calls + 1, size) == Times(calls, size) + size && Times(0, size) == 0
  {
    assert (calls + 1) * size == calls * size + size;
  }

  /** That is max(1, ceil(remaining / limit)). */
  lemma {:induction false} PagesAreRoundedUp(remaining: nat, limit: nat)
    requires limit > 0
    ensures PagesFor(remaining, limit) >= 1 && (remaining == 0 ==> PagesFor(remaining, limit) == 1)
    ensures remaining > 0 ==>
              Times(PagesFor(remaining, limit) - 1, limit) < remaining <= Times(PagesFor(remaining, limit), limit)
    decreases remaining
  {
    hide Times;
    TimesStep(0, limit);
    if remaining > limit {
      PagesAreRoundedUp(remaining - limit, limit);
      TimesStep(PagesFor(remaining - limit, limit), limit);
      TimesStep(PagesFor(remaining - limit, limit) - 1, limit);
    }
  }

  /** From an aligned position collecting stops after just these calls, with all items from there on, in order. */
  lemma {:induction false} AlignedCollects(b: Backend, limit: nat, at: nat, calls: nat)
    requires limit > 0 && at <= |b.items| && Aligned(b, limit, at)
    ensures Collect(b, limit, at, calls) == if calls < PagesFor(|b.items| - at, limit) then Running else Done(b.items[at..])
    decreases |b.items| - at
  {
    hide Collect, Start, PageAt, Aligned;
    CollectStep(b, limit, at, calls);
    AlignedPage(b, limit, at);
    if at + limit < |b.items| {
      if calls > 0 { AlignedCollects(b, limit, at + limit, calls - 1); }
      Halves(b.items, at, at + limit);
    } else {
      Halves(b.items, at, |b.items|);
    }
  }

  lemma AlignedPage(b: Backend, limit: nat, at: nat)
    requires limit > 0 && at <= |b.items| && Aligned(b, limit, at)
    ensures PageAt(b, limit, at).Ok?
    ensures var page := PageAt(b, limit, at).value;
            && page.data == b.items[at..Min(at + limit, |b.items|)]
            && (page.meta.hasMore <==> at + limit < |b.items|)
            && (page.meta.hasMore ==> Start(b, page.meta.cursor) == at + limit && Aligned(b, limit, at + limit))
  {
    hide Start, CursorOf;
    if at + limit < |b.items| { CursorLeads(b, at + limit - 1); }
  }

  lemma Halves(items: seq<Item>, at: nat, end: nat)
    requires at <= end <= |items|
    ensures items[at..end] + items[end..] == items[at..]
    ensures end == |items| ==> items[at..end] == items[at..]
  {
  }

  /** What is collected never falls short of the remaining items, and is exactly them only from an aligned position. */
  lemma {:induction false} OnlyAlignedCollects(b: Backend, limit: nat, at: nat, calls: nat)
    requires limit > 0 && at <= |b.items| && Collect(b, limit, at, calls).Done?
    ensures var entries := Collect(b, limit, at, calls).entries;
            |entries| >= |b.items| - at && (entries == b.items[at..] ==> Aligned(b, limit, at))
    decreases calls
  {
    hide Collect, Start, CursorOf, LeadsOn;
    CollectStep(b, limit, at, calls);
    if at + limit < |b.items| {
      var end := at + limit;
      CursorLeads(b, end - 1);
      var next := Start(b, Cursor(b, end - 1));
      OnlyAlignedCollects(b, limit, next, calls - 1);
      var rest := Collect(b, limit, next, calls - 1).entries;
      assert Collect(b, limit, at, calls).entries == b.items[at..end] + rest;
      if b.items[at..end] + rest == b.items[at..] {
        assert |rest| == |b.items| - end;
        assert rest == (b.items[at..end] + rest)[limit..] == b.items[at..][limit..] == b.items[end..];
      }
    }
  }

  /** Collecting returns exactly the items after the start cursor if and only if the pages are aligned. */
  lemma CollectsSuffixIff(b: Backend, limit: nat, at: nat)
    requires limit > 0 && at <= |b.items|
    ensures (exists calls :: Collect(b, limit, at, calls) == Done(b.items[at..])) <==> Aligned(b, limit, at)
  {
    hide Collect, Aligned;
    if Aligned(b, limit, at) { AlignedCollects(b, limit, at, PagesFor(|b.items| - at, limit)); }
    if calls :| Collect(b, limit, at, calls) == Done(b.items[at..]) { OnlyAlignedCollects(b, limit, at, calls); }
  }

  lemma CollectedCases(b: Backend, limit: nat, at: nat, calls: nat)
    requires limit > 0 && at <= |b.items| && calls > 0
    requires Collect(b, limit, at, calls - 1) == Running && Collect(b, limit, at, calls) != Running
    ensures Aligned(b, limit, at) <==> Collect(b, limit, at, calls) == Done(b.items[at..])
    ensures Aligned(b, limit, at) ==> calls == PagesFor(|b.items| - at, limit)
  {
    hide Collect, Aligned;
    if Aligned(b, limit, at) {
      AlignedCollects(b, limit, at, calls);
      AlignedCollects(b, limit, at, calls - 1);
    }
    if Collect(b, limit, at, calls).Done? { OnlyAlignedCollects(b, limit, at, calls); }
  }

  /** Cursors exist, are non-empty and pairwise distinct. */
  ghost predicate GoodCursors(b: Backend) {
    && b.spec != ByKeys([])
    && (forall i :: 0 <= i < |b.items| ==> Cursor(b, i).Some? && Cursor(b, i) != Some(""))
    && (forall i, j :: 0 <= i < j < |b.items| ==> Cursor(b, i) != Cursor(b, j))
  }

  /** Good cursors collect every suffix, for every page size. */
  lemma {:induction false} GoodCursorsCollect(b: Backend, limit: nat, at: nat)
    requires GoodCursors(b) && limit > 0 && at <= |b.items|
    ensures Aligned(b, limit, at)
    ensures Collect(b, limit, at, PagesFor(|b.items| - at, limit)) == Done(b.items[at..])
    decreases |b.items| - at
  {
    hide Collect;
    if at + limit < |b.items| {
      assert Cursor(b, at + limit - 1).Some?;
      GoodCursorsCollect(b, limit, at + limit);
    } else if at < |b.items| {
      assert Cursor(b, |b.items| - 1).Some?;
    }
    AlignedCollects(b, limit, at, PagesFor(|b.items| - at, limit));
  }

  /** Every item has an id, not empty, and no two have the same. */
  ghost predicate DistinctIds(items: seq<Item>) {
    && (forall i :: 0 <= i < |items| ==> "id" in items[i] && items[i]["id"] != "")
    && forall i, j :: 0 <= i < j < |items| ==> items[i]["id"] != items[j]["id"]
  }

  /**
   * Over a list with distinct, non-empty ids and the default cursor, collecting from any position stops, in
   * max(1, ceil(n / limit)) calls, with all items from there on, in order.
   */
  lemma DistinctIdsCollect(b: Backend, limit: nat, at: nat)
    requires b.spec.ById? && DistinctIds(b.items) && limit > 0 && at <= |b.items|
    ensures Stops(b, limit, at)
    ensures exists calls :: Collect(b, limit, at, calls) == Done(b.items[at..]) && IsRoundedUp(|b.items| - at, limit, calls)
  {
    hide Collect, PagesFor;
    IdsAreCursors(b);
    GoodCursorsCollect(b, limit, at);
    RoundedUp(|b.items| - at, limit);
  }

  /** max(1, ceil(n / limit)). */
  predicate IsRoundedUp(n: nat, limit: nat, calls: nat) {
    if n == 0 then calls == 1 else calls > 0 && (calls - 1) * limit < n <= calls * limit
  }

  lemma RoundedUp(n: nat, limit: nat)
    requires limit > 0
    ensures IsRoundedUp(n, limit, PagesFor(n, limit))
  {
    hide PagesFor;
    PagesAreRoundedUp(n, limit);
  }

  lemma IdsAreCursors(b: Backend)
    requires b.spec.ById? && DistinctIds(b.items)
    ensures GoodCursors(b)
    ensures forall i :: 0 <= i < |b.items| ==> Cursor(b, i) == Some(b.items[i]["id"])
  {
  }

  /** Without a cursor the first item comes first; after an item's id, the item that follows it. */
  lemma StartsAfterId(b: Backend, i: nat)
    requires b.spec.ById? && DistinctIds(b.items) && i < |b.items|
    ensures Start(b, None) == 0 && Start(b, Some(b.items[i]["id"])) == i + 1
  {
    IdsAreCursors(b);
    FirstWithCursor(b, b.items[i]["id"], i, 0);
  }

  // ---------- when collecting stops ----------

  /** Once known, the result does not change with more calls. */
  lemma {:induction false} ResultIsStable(b: Backend, limit: nat, at: nat, calls: nat, more: nat)
    requires limit > 0 && at <= |b.items| && calls <= more && Collect(b, limit, at, calls) != Running
    ensures Collect(b, limit, at, more) == Collect(b, limit, at, calls)
    decreases calls
  {
    hide Collect, PageAt, Start;
    CollectStep(b, limit, at, calls);
    CollectStep(b, limit, at, more);
    var page := PageAt(b, limit, at);
    if page.Ok? && page.value.meta.hasMore {
      ResultIsStable(b, limit, Start(b, page.value.meta.cursor), calls - 1, more - 1);
    }
  }

  /** The positions visited are all different when collecting stops: as many as the calls it takes. */
  lemma {:induction false} VisitedPositions(b: Backend, limit: nat, at: nat, calls: nat) returns (visited: set<nat>)
    requires limit > 0 && at <= |b.items| && calls > 0
    requires Collect(b, limit, at, calls) != Running && Collect(b, limit, at, calls - 1) == Running
    ensures |visited| == calls
    ensures forall p :: p in visited ==> p <= |b.items| && Collect(b, limit, p, calls) != Running
    decreases calls
  {
    hide Collect, PageAt, Start;
    CollectStep(b, limit, at, calls);
    CollectStep(b, limit, at, calls - 1);
    if calls == 1 {
      visited := {at};
    } else {
      var next := Start(b, PageAt(b, limit, at).value.meta.cursor);
      visited := VisitedPositions(b, limit, next, calls - 1);
      forall p | p in visited ensures Collect(b, limit, p, calls) != Running { ResultIsStable(b, limit, p, calls - 1, calls); }
      assert at !in visited;
      visited := visited + {at};
    }
  }

  lemma {:induction false} FewPositions(positions: set<nat>, n: nat)
    requires forall p :: p in positions ==> p < n
    ensures |positions| <= n
    decreases n
  {
    if n == 0 {
      assert positions == {};
    } else {
      FewPositions(positions - {n - 1}, n - 1);
      if n - 1 in positions { assert |positions - {n - 1}| == |positions| - 1; } else { assert positions - {n - 1} == positions; }
    }
  }

  lemma FewestCalls(b: Backend, limit: nat, at: nat, enough: nat) returns (calls: nat)
    requires limit > 0 && at <= |b.items| && Collect(b, limit, at, enough) != Running
    ensures 0 < calls <= enough
    ensures Collect(b, limit, at, calls) != Running && Collect(b, limit, at, calls - 1) == Running
  {
    hide Collect;
    CollectStep(b, limit, at, 0);
    calls := enough;
    while Collect(b, limit, at, calls - 1) != Running
      invariant 0 < calls <= enough && Collect(b, limit, at, calls) != Running
      decreases calls
    {
      calls := calls - 1;
    }
  }

  /** Collecting stops at all if and only if it does within one call more than there are items. */
  lemma StopsWithin(b: Backend, limit: nat, at: nat)
    requires limit > 0 && at <= |b.items|
    ensures Stops(b, limit, at) <==> Collect(b, limit, at, |b.items| + 1) != Running
  {
    hide Collect;
    if enough :| Collect(b, limit, at, enough) != Running {
      var calls := FewestCalls(b, limit, at, enough);
      var visited := VisitedPositions(b, limit, at, calls);
      FewPositions(visited, |b.items| + 1);
      ResultIsStable(b, limit, at, calls, |b.items| + 1);
    }
  }

  ghost predicate NeverThrows(b: Backend) {
    b.spec != ByKeys([]) && forall i :: 0 <= i < |b.items| ==> CursorOf(Some(b.items[i]), b.spec, b.encode).Ok?
  }

  /**
   * With cursors that can be computed, collecting stops from every start and for every page size if and only
   * if every item but the last one leads on.
   */
  lemma StopsEverywhereIff(b: Backend)
    requires NeverThrows(b)
    ensures (forall limit: nat, at: nat :: limit > 0 && at <= |b.items| ==> Stops(b, limit, at))
            <==> forall i :: 0 <= i && i + 1 < |b.items| ==> LeadsOn(b, i)
  {
    hide Collect, LeadsOn, CursorOf;
    if forall i :: 0 <= i && i + 1 < |b.items| ==> LeadsOn(b, i) {
      forall limit: nat, at: nat | limit > 0 && at <= |b.items| ensures Stops(b, limit, at) {
        AllAligned(b, limit, at);
        AlignedCollects(b, limit, at, PagesFor(|b.items| - at, limit));
      }
    } else {
      var i := FirstStray(b);
      forall calls: nat ensures Collect(b, 1, 0, calls) == Running { NeverPast(b, i, 0, calls); }
      assert !Stops(b, 1, 0);
    }
  }

  lemma {:induction false} AllAligned(b: Backend, limit: nat, at: nat)
    requires limit > 0 && at <= |b.items| && NeverThrows(b)
    requires forall i :: 0 <= i && i + 1 < |b.items| ==> LeadsOn(b, i)
    ensures Aligned(b, limit, at)
    decreases |b.items| - at
  {
    hide LeadsOn, CursorOf;
    if at + limit < |b.items| { AllAligned(b, limit, at + limit); }
  }

  lemma FirstStray(b: Backend) returns (i: nat)
    requires exists k :: 0 <= k && k + 1 < |b.items| && !LeadsOn(b, k)
    ensures i + 1 < |b.items| && !LeadsOn(b, i)
    ensures forall j :: 0 <= j < i ==> LeadsOn(b, j)
  {
    hide LeadsOn;
    i := 0;
    while LeadsOn(b, i)
      invariant i + 1 < |b.items| && forall j :: 0 <= j < i ==> LeadsOn(b, j)
      decreases |b.items| - i
    {
      i := i + 1;
    }
  }

  /** One item at a time, collecting never gets past the first item that does not lead on. */
  lemma {:induction false} NeverPast(b: Backend, i: nat, at: nat, calls: nat)
    requires NeverThrows(b) && at <= i && i + 1 < |b.items| && !LeadsOn(b, i)
    ensures Collect(b, 1, at, calls) == Running
    decreases calls
  {
    hide Collect, Start, LeadsOn, CursorOf;
    CollectStep(b, 1, at, calls);
    if calls > 0 {
      CursorLeads(b, at);
      NeverPast(b, i, Start(b, Cursor(b, at)), calls - 1);
    }
  }

  /** Two items without an id: the cursor is missing, so the first page comes again and again. */
  lemma MissingIdNeverStops(encode: Item -> string)
    ensures var b := Backend([map[], map[]], ById, encode, 1);
            !Stops(b, 1, 0)
  {
    var b := Backend([map[], map[]], ById, encode, 1);
    forall calls: nat ensures Collect(b, 1, 0, calls) == Running { NeverPast(b, 0, 0, calls); }
  }
}
