/**
  The page script's state rules with the DOM taken away: the scrape history list, the
  tab strip (`tabs` and `activeTabId`), what `persistTabs` stores, and which result rows
  the search box and the inline toggle leave visible.
 */
module ClientState {
  import opened Maybe
  import opened JsText
  import opened ClientText
  import StaticScrape

  // ---------------------------------------------------------------- history

  /**
    A stored history entry: a plain URL string written by older versions, or an object
    with the item count (None for `null`) and the error flag (None while unset).
   */
  datatype HistoryItem = Legacy(url: string) | Entry(url: string, count: Option<int>, error: Option<bool>)

  const MaxHistory: nat := 10

  /** `arr.map(it => typeof it === 'string' ? { url: it } : it)` */
  function Normalize(items: seq<HistoryItem>): (r: seq<HistoryItem>)
    ensures |r| == |items|
    ensures forall i :: 0 <= i < |items| ==> r[i].Entry? && r[i].url == items[i].url
    ensures forall i :: 0 <= i < |items| && items[i].Entry? ==> r[i] == items[i]
    decreases |items|
  {
    if items == [] then []
    else
      var head := if items[0].Legacy? then Entry(items[0].url, None, None) else items[0];
      [head] + Normalize(items[1..])
  }

  /** `arr.find(it => it.url === url)`, as the position of the first entry with that URL. */
  function FindUrl(items: seq<HistoryItem>, url: string): (r: Option<nat>)
    ensures r.Some? ==> r.value < |items| && items[r.value].url == url &&
                        forall j :: 0 <= j < r.value ==> items[j].url != url
    ensures r.None? ==> forall j :: 0 <= j < |items| ==> items[j].url != url
    decreases |items|
  {
    if items == [] then None
    else if items[0].url == url then Some(0)
    else
      match FindUrl(items[1..], url)
      case None => None
      case Some(k) => Some(k + 1)
  }

  /** The list `saveHistory(url, count, error)` stores, given the stored list before it. */
  function Saved(items: seq<HistoryItem>, url: string, count: Option<int>, error: bool): seq<HistoryItem> {
    var arr := Normalize(items);
    var arr' :=
      match FindUrl(arr, url)
      case Some(i) => arr[i := arr[i].(count := count, error := Some(error))]
      case None => [Entry(url, count, Some(error))] + arr;
    if |arr'| > MaxHistory then arr'[..MaxHistory] else arr'
  }

  /** The list `removeHistory(targetUrl)` stores: every entry for that URL dropped, the rest in order. */
  function Removed(items: seq<HistoryItem>, targetUrl: string): seq<HistoryItem>
    decreases |items|
  {
    if items == [] then []
    else (if items[0].url != targetUrl then [items[0]] else []) + Removed(items[1..], targetUrl)
  }

  /** URLs of the entries, in order. */
  function Urls(items: seq<HistoryItem>): seq<string>
    decreases |items|
  {
    if items == [] then [] else [items[0].url] + Urls(items[1..])
  }

  predicate DistinctUrls(items: seq<HistoryItem>) {
    forall i, j :: 0 <= i < j < |items| ==> items[i].url != items[j].url
  }

  /**
    Saving keeps at most ten entries, all normalised. A URL already listed keeps its
    position and gets the new count and flag, every other entry staying as it was; a new
    URL goes first, shifting the others down by one.
   */
  lemma SavedSpec(items: seq<HistoryItem>, url: string, count: Option<int>, error: bool)
    ensures var r := Saved(items, url, count, error);
      var arr := Normalize(items);
      |r| <= MaxHistory &&
      (forall i :: 0 <= i < |r| ==> r[i].Entry?) &&
      (FindUrl(arr, url).Some? ==>
        var k := FindUrl(arr, url).value;
        |r| == (if |arr| > MaxHistory then MaxHistory else |arr|) &&
        (k < MaxHistory ==> r[k] == Entry(url, count, Some(error))) &&
        (forall j :: 0 <= j < |r| && j != k ==> r[j] == arr[j])) &&
      (FindUrl(arr, url).None? ==>
        r[0] == Entry(url, count, Some(error)) &&
        (forall j :: 0 < j < |r| ==> r[j] == arr[j - 1]))
  {
  }

  /**
    When the stored list holds at most ten entries (as saving itself ensures), the saved
    URL is always listed afterwards.
   */
  lemma SavedListsUrl(items: seq<HistoryItem>, url: string, count: Option<int>, error: bool)
    requires |items| <= MaxHistory
    ensures exists i :: 0 <= i < |Saved(items, url, count, error)| &&
                        Saved(items, url, count, error)[i] == Entry(url, count, Some(error))
  {
    SavedSpec(items, url, count, error);
    var arr := Normalize(items);
    if FindUrl(arr, url).Some? {
      var k := FindUrl(arr, url).value;
      assert Saved(items, url, count, error)[k] == Entry(url, count, Some(error));
    } else {
      assert Saved(items, url, count, error)[0] == Entry(url, count, Some(error));
    }
  }

  /** Saving never introduces a second entry for a URL. */
  lemma SavedKeepsDistinct(items: seq<HistoryItem>, url: string, count: Option<int>, error: bool)
    requires DistinctUrls(items)
    ensures DistinctUrls(Saved(items, url, count, error))
  {
    SavedSpec(items, url, count, error);
    var arr := Normalize(items);
    assert DistinctUrls(arr);
    var r := Saved(items, url, count, error);
    if FindUrl(arr, url).Some? {
      var k := FindUrl(arr, url).value;
      forall i, j | 0 <= i < j < |r| ensures r[i].url != r[j].url {
        if i == k {
          assert r[j] == arr[j];
        } else if j == k {
          assert r[i] == arr[i];
        } else {
          assert r[i] == arr[i] && r[j] == arr[j];
        }
      }
    } else {
      forall i, j | 0 <= i < j < |r| ensures r[i].url != r[j].url {
        assert r[j] == arr[j - 1];
        if i > 0 {
          assert r[i] == arr[i - 1];
        }
      }
    }
  }

  /** An entry survives removal exactly when its URL differs from the target. */
  lemma {:induction false} RemovedMember(items: seq<HistoryItem>, targetUrl: string, x: HistoryItem)
    ensures x in Removed(items, targetUrl) <==> x in items && x.url != targetUrl
    decreases |items|
  {
    if items != [] {
      RemovedMember(items[1..], targetUrl, x);
      assert x in items <==> x == items[0] || x in items[1..];
    }
  }

  /** The surviving URLs keep their relative order: removal filters the URL list. */
  lemma {:induction false} RemovedFiltersUrls(items: seq<HistoryItem>, targetUrl: string)
    ensures Urls(Removed(items, targetUrl)) == FilterOut(Urls(items), targetUrl)
    ensures |Removed(items, targetUrl)| <= |items|
    ensures (forall j :: 0 <= j < |items| ==> items[j].url != targetUrl) ==> Removed(items, targetUrl) == items
    decreases |items|
  {
    if items != [] {
      RemovedFiltersUrls(items[1..], targetUrl);
      UrlsAppend(if items[0].url != targetUrl then [items[0]] else [], Removed(items[1..], targetUrl));
    }
  }

  /** `xs.filter(x => x !== t)` */
  function FilterOut(xs: seq<string>, t: string): seq<string>
    decreases |xs|
  {
    if xs == [] then [] else (if xs[0] != t then [xs[0]] else []) + FilterOut(xs[1..], t)
  }

  lemma {:induction false} UrlsAppend(a: seq<HistoryItem>, b: seq<HistoryItem>)
    ensures Urls(a + b) == Urls(a) + Urls(b)
    decreases |a|
  {
    if a == [] {
      assert a + b == b;
    } else {
      assert (a + b)[1..] == a[1..] + b;
      UrlsAppend(a[1..], b);
    }
  }

  /** Removing twice is the same as removing once. */
  lemma RemovedIdempotent(items: seq<HistoryItem>, targetUrl: string)
    ensures Removed(Removed(items, targetUrl), targetUrl) == Removed(items, targetUrl)
  {
    var r := Removed(items, targetUrl);
    forall j | 0 <= j < |r| ensures r[j].url != targetUrl {
      RemovedMember(items, targetUrl, r[j]);
    }
    RemovedFiltersUrls(r, targetUrl);
  }

  /** The history list kept in browser storage, which `saveHistory` and `removeHistory` rewrite. */
  class History {
    var items: seq<HistoryItem>

    constructor (stored: seq<HistoryItem>)
      ensures items == stored
    {
      items := stored;
    }

    /** `saveHistory(url, count, error)` */
    method Save(url: string, count: Option<int>, error: bool)
      modifies this
      ensures items == Saved(old(items), url, count, error)
      ensures |items| <= MaxHistory
    {
      var arr := Normalize(items);
      var existing := FindUrl(arr, url);
      if existing.Some? {
        var i := existing.value;
        arr := arr[i := arr[i].(count := count, error := Some(error))];
      } else {
        arr := [Entry(url, count, Some(error))] + arr;
      }
      if |arr| > MaxHistory {
        arr := arr[..MaxHistory];
      }
      items := arr;
    }

    /** `removeHistory(targetUrl)` */
    method Remove(targetUrl: string)
      modifies this
      ensures items == Removed(old(items), targetUrl)
      ensures forall x :: x in items <==> x in old(items) && x.url != targetUrl
    {
      RemovedMember(items, targetUrl, Legacy(""));
      forall x ensures x in Removed(items, targetUrl) <==> x in items && x.url != targetUrl {
        RemovedMember(items, targetUrl, x);
      }
      items := Removed(items, targetUrl);
    }
  }

  // ---------------------------------------------------------------- tabs

  datatype Status = Loading | Done | Failed

  /** A message shown on a tab: its text and whether it is an error. */
  datatype Message = Message(text: string, isError: bool)

  /** A tab's own search term and inline toggle. */
  datatype View = View(searchTerm: string, showInline: bool)

  datatype Tab = Tab(
    id: string,
    url: string,
    labelText: string,
    status: Status,
    images: seq<StaticScrape.ImageRecord>,
    headContent: string,
    view: View,
    scrapingMethod: string,
    fallbackUsed: bool,
    message: Option<Message>)

  /** The tab strip: `tabs` and `activeTabId` (None for `null`). */
  datatype Strip = Strip(tabs: seq<Tab>, active: Option<string>)

  /** The position of the first tab with the given id (`tabs.find` / `tabs.findIndex`). */
  function FindTab(tabs: seq<Tab>, id: string): (r: Option<nat>)
    ensures r.Some? ==> r.value < |tabs| && tabs[r.value].id == id &&
                        forall j :: 0 <= j < r.value ==> tabs[j].id != id
    ensures r.None? ==> forall j :: 0 <= j < |tabs| ==> tabs[j].id != id
    decreases |tabs|
  {
    if tabs == [] then None
    else if tabs[0].id == id then Some(0)
    else
      match FindTab(tabs[1..], id)
      case None => None
      case Some(k) => Some(k + 1)
  }

  /** The first position holding an id is what `FindTab` returns. */
  lemma FindTabFirst(tabs: seq<Tab>, id: string, i: nat)
    requires i < |tabs| && tabs[i].id == id
    requires forall j :: 0 <= j < i ==> tabs[j].id != id
    ensures FindTab(tabs, id) == Some(i)
  {
  }

  /** `getActiveTab()` */
  function ActiveIndex(s: Strip): (r: Option<nat>)
    ensures r.Some? ==> r.value < |s.tabs| && s.active == Some(s.tabs[r.value].id)
    ensures r.Some? ==> forall j :: 0 <= j < r.value ==> s.tabs[j].id != s.active.value
    ensures r.None? && s.active.Some? ==> forall j :: 0 <= j < |s.tabs| ==> s.tabs[j].id != s.active.value
  {
    if s.active.None? then None else FindTab(s.tabs, s.active.value)
  }

  /** `findLoadingTabByUrl(url)` */
  function FindLoading(tabs: seq<Tab>, url: string): (r: Option<nat>)
    ensures r.Some? ==> r.value < |tabs| && tabs[r.value].status == Loading && tabs[r.value].url == url &&
                        forall j :: 0 <= j < r.value ==> !(tabs[j].status == Loading && tabs[j].url == url)
    ensures r.None? ==> forall j :: 0 <= j < |tabs| ==> !(tabs[j].status == Loading && tabs[j].url == url)
    decreases |tabs|
  {
    if tabs == [] then None
    else if tabs[0].status == Loading && tabs[0].url == url then Some(0)
    else
      match FindLoading(tabs[1..], url)
      case None => None
      case Some(k) => Some(k + 1)
  }

  /**
    What switching to a tab does to its message: an informational message goes once the
    tab is no longer loading, an empty one is cleared, anything else stays.
   */
  function Settle(t: Tab): (r: Tab)
    ensures r.(message := None) == t.(message := None)
    ensures r.message.Some? ==> r.message == t.message && r.message.value.text != ""
    ensures t.status == Loading ==> (r.message.None? <==> t.message.None? || t.message.value.text == "")
  {
    match t.message
    case None => t
    case Some(m) => if m.text == "" || (t.status != Loading && !m.isError) then t.(message := None) else t
  }

  /**
    `switchTab(id)`: the tab becomes active and the first tab with that id settles its
    message; every other tab stays as it was.
   */
  function SwitchTo(s: Strip, id: string): (r: Strip)
    ensures r.active == Some(id) && |r.tabs| == |s.tabs|
    ensures forall j :: 0 <= j < |s.tabs| ==>
      r.tabs[j] == if FindTab(s.tabs, id) == Some(j) then Settle(s.tabs[j]) else s.tabs[j]
  {
    match FindTab(s.tabs, id)
    case None => Strip(s.tabs, Some(id))
    case Some(k) => Strip(s.tabs[k := Settle(s.tabs[k])], Some(id))
  }

  /** The tab `createOrReuseTab` opens for a URL. */
  function NewTab(id: string, url: string): Tab {
    Tab(id, url, TabLabelFromUrl(Some(url)), Loading, [], "", View("", false), "-", false, None)
  }

  const MaxTabs: nat := 4
  const MaxTabsMessage: string := "Maximum of 4 tabs reached. Please close a tab to open a new one."

  /** The strip after `createOrReuseTab`, and the position of the tab it returns (None for `null`). */
  datatype Opened = Opened(strip: Strip, tab: Option<nat>)

  /**
    `createOrReuseTab(url)` with `freshId` standing for `createTabId()`: reuse a loading tab
    for the same URL; otherwise reuse the active tab when it is idle and empty; otherwise
    open a new tab unless four are already open, in which case the active tab gets an
    error message and nothing opens.
   */
  function CreateOrReuse(s: Strip, url: string, freshId: string): Opened {
    match FindLoading(s.tabs, url)
    case Some(k) => Opened(SwitchTo(s, s.tabs[k].id), Some(k))
    case None =>
      match ActiveIndex(s)
      case Some(a) =>
        var t := s.tabs[a];
        if |t.images| > 0 || t.status == Loading then OpenNew(s, url, freshId)
        else
          var t' := t.(url := url, labelText := TabLabelFromUrl(Some(url)), status := Loading, images := [], headContent := "");
          Opened(SwitchTo(Strip(s.tabs[a := t'], s.active), t.id), Some(a))
      case None => OpenNew(s, url, freshId)
  }

  /**
    The strip after the max-tabs refusal: `showMessage` stores the error on the active tab,
    if there is one; every other tab and the active id stay as they were.
   */
  function Refused(s: Strip): (r: Strip)
    ensures r.active == s.active && |r.tabs| == |s.tabs|
    ensures forall j :: 0 <= j < |s.tabs| ==>
      r.tabs[j] == if ActiveIndex(s) == Some(j) then s.tabs[j].(message := Some(Message(MaxTabsMessage, true))) else s.tabs[j]
  {
    match ActiveIndex(s)
    case None => s
    case Some(a) => Strip(s.tabs[a := s.tabs[a].(message := Some(Message(MaxTabsMessage, true)))], s.active)
  }

  function OpenNew(s: Strip, url: string, freshId: string): Opened {
    if |s.tabs| >= MaxTabs then Opened(Refused(s), None)
    else
      Opened(SwitchTo(Strip(s.tabs + [NewTab(freshId, url)], Some(freshId)), freshId), Some(|s.tabs|))
  }

  /**
    The returned tab is loading the requested URL and is the active one. A loading tab for
    the same URL is reused rather than duplicated, and switched to. Otherwise an idle
    active tab (no images, not loading) is reused in place, emptied and pointed at the
    URL, with every other tab unchanged. A new tab opens exactly when there is no active
    tab or the active tab has images or is loading, and never as a fifth tab; when none
    can open, the active tab (if any) gets the max-tabs error and nothing else changes.
   */
  lemma CreateOrReuseSpec(s: Strip, url: string, freshId: string)
    ensures var o := CreateOrReuse(s, url, freshId);
      var tabs' := o.strip.tabs;
      (o.tab.Some? ==> o.tab.value < |tabs'| && tabs'[o.tab.value].url == url &&
                       tabs'[o.tab.value].status == Loading && o.strip.active == Some(tabs'[o.tab.value].id)) &&
      (FindLoading(s.tabs, url).Some? ==>
        o.tab == FindLoading(s.tabs, url) && |tabs'| == |s.tabs| &&
        o.strip == SwitchTo(s, s.tabs[FindLoading(s.tabs, url).value].id)) &&
      (FindLoading(s.tabs, url).None? && ActiveIndex(s).Some? &&
       |s.tabs[ActiveIndex(s).value].images| == 0 && s.tabs[ActiveIndex(s).value].status != Loading ==>
        var a := ActiveIndex(s).value;
        o.tab == Some(a) && |tabs'| == |s.tabs| && o.strip.active == s.active &&
        tabs'[a].url == url && tabs'[a].labelText == TabLabelFromUrl(Some(url)) &&
        tabs'[a].images == [] && tabs'[a].headContent == "" &&
        tabs'[a] == Settle(s.tabs[a].(url := url, labelText := TabLabelFromUrl(Some(url)), status := Loading, images := [], headContent := "")) &&
        (forall j :: 0 <= j < |s.tabs| && j != a ==> tabs'[j] == s.tabs[j])) &&
      (FindLoading(s.tabs, url).None? && |s.tabs| < MaxTabs &&
       (ActiveIndex(s).None? || |s.tabs[ActiveIndex(s).value].images| > 0 ||
        s.tabs[ActiveIndex(s).value].status == Loading) ==>
        |tabs'| == |s.tabs| + 1) &&
      (|tabs'| <= |s.tabs| + 1) &&
      (|tabs'| == |s.tabs| + 1 ==>
        |s.tabs| < MaxTabs && o.tab == Some(|s.tabs|) && tabs'[|s.tabs|] == NewTab(freshId, url) &&
        (ActiveIndex(s).None? || |s.tabs[ActiveIndex(s).value].images| > 0 ||
         s.tabs[ActiveIndex(s).value].status == Loading)) &&
      (|s.tabs| <= MaxTabs ==> |tabs'| <= MaxTabs) &&
      (o.tab.None? ==> |s.tabs| >= MaxTabs && o.strip == Refused(s))
  {
    var o := CreateOrReuse(s, url, freshId);
    match FindLoading(s.tabs, url)
    case Some(k) =>
      var id := s.tabs[k].id;
      var j := FindTab(s.tabs, id).value;
      assert o.strip.tabs[k] == s.tabs[k] || o.strip.tabs[k] == Settle(s.tabs[k]);
    case None =>
      match ActiveIndex(s)
      case Some(a) =>
        var t := s.tabs[a];
        if !(|t.images| > 0 || t.status == Loading) {
          var t' := t.(url := url, labelText := TabLabelFromUrl(Some(url)), status := Loading, images := [], headContent := "");
          var mid := Strip(s.tabs[a := t'], s.active);
          FindTabFirst(mid.tabs, t.id, a);
          assert o.strip.tabs[a] == Settle(t');
        } else {
          OpenNewSpec(s, url, freshId);
        }
      case None =>
        OpenNewSpec(s, url, freshId);
  }

  lemma OpenNewSpec(s: Strip, url: string, freshId: string)
    ensures var o := OpenNew(s, url, freshId);
      var tabs' := o.strip.tabs;
      (o.tab.Some? ==> |s.tabs| < MaxTabs && |tabs'| == |s.tabs| + 1 && o.tab == Some(|s.tabs|) &&
                       tabs'[|s.tabs|].url == url && tabs'[|s.tabs|].status == Loading &&
                       o.strip.active == Some(tabs'[|s.tabs|].id) && tabs'[|s.tabs|] == NewTab(freshId, url)) &&
      (o.tab.None? ==> |s.tabs| >= MaxTabs && o.strip == Refused(s))
  {
    if |s.tabs| < MaxTabs {
      var mid := Strip(s.tabs + [NewTab(freshId, url)], Some(freshId));
      var o := OpenNew(s, url, freshId);
      assert o.strip.tabs[|s.tabs|] == mid.tabs[|s.tabs|] || o.strip.tabs[|s.tabs|] == Settle(mid.tabs[|s.tabs|]);
      assert Settle(NewTab(freshId, url)) == NewTab(freshId, url);
    }
  }

  /** `tabs.splice(idx, 1)` */
  function RemoveAt(tabs: seq<Tab>, idx: nat): (r: seq<Tab>)
    requires idx < |tabs|
    ensures |r| == |tabs| - 1
    ensures forall j :: 0 <= j < |r| ==> r[j] == (if j < idx then tabs[j] else tabs[j + 1])
  {
    tabs[..idx] + tabs[idx + 1..]
  }

  /**
    `closeTab(id)`: an unknown id changes nothing; otherwise the first tab with the id is
    removed, and if it was active the tab before it (or the new first tab) becomes active,
    or none when no tab is left. A remaining active tab is then switched to.
   */
  function Close(s: Strip, id: string): Strip {
    match FindTab(s.tabs, id)
    case None => s
    case Some(idx) =>
      var rest := RemoveAt(s.tabs, idx);
      var active := NextActive(s, id, rest, idx);
      if active.Some? && active.value != "" then SwitchTo(Strip(rest, active), active.value)
      else Strip(rest, active)
  }

  /**
    `activeTabId` once the tab at `idx` is gone from `rest`: when it was the active one, the
    id at `max(0, idx - 1)` (falsy ids and an empty strip give `null`); otherwise unchanged.
   */
  function NextActive(s: Strip, id: string, rest: seq<Tab>, idx: nat): Option<string>
    requires idx <= |rest|
  {
    if s.active == Some(id) then
      if |rest| > 0 then
        var next := rest[if idx > 0 then idx - 1 else 0].id;
        if next == "" then None else Some(next)
      else None
    else s.active
  }

  /**
    The tabs after the one at `idx` is closed: the others in order, and only the tab
    switched to afterwards (the new active one, when its id is truthy) settled.
   */
  ghost predicate ClosedTabs(s: Strip, idx: nat, c: Strip)
    requires idx < |s.tabs|
  {
    |c.tabs| == |s.tabs| - 1 &&
    forall j :: 0 <= j < |c.tabs| ==>
      var was := if j < idx then s.tabs[j] else s.tabs[j + 1];
      c.tabs[j] ==
        if c.active.Some? && c.active.value != "" && FindTab(RemoveAt(s.tabs, idx), c.active.value) == Some(j)
        then Settle(was) else was
  }

  /**
    The active id after closing tab `id` at `idx`: when it was active, the id now at
    `max(0, idx - 1)` (`null` for a falsy id or an empty strip); otherwise unchanged.
   */
  ghost predicate ClosedActive(s: Strip, id: string, idx: nat, c: Strip)
    requires |c.tabs| == |s.tabs| - 1
  {
    (s.active == Some(id) && |c.tabs| == 0 ==> c.active.None?) &&
    (s.active == Some(id) && |c.tabs| > 0 ==>
      var next := c.tabs[if 0 < idx <= |c.tabs| then idx - 1 else 0].id;
      c.active == (if next == "" then None else Some(next))) &&
    (s.active != Some(id) ==> c.active == s.active)
  }

  /**
    What closing a tab guarantees about the strip: an unknown id changes nothing; otherwise
    exactly that tab goes, the others keep their order, the active id moves as
    `ClosedActive` says, and only the tab switched to settles its message.
   */
  lemma CloseSpec(s: Strip, id: string)
    ensures FindTab(s.tabs, id).None? ==> Close(s, id) == s
    ensures FindTab(s.tabs, id).Some? ==>
      ClosedTabs(s, FindTab(s.tabs, id).value, Close(s, id)) &&
      ClosedActive(s, id, FindTab(s.tabs, id).value, Close(s, id))
  {
    if FindTab(s.tabs, id).Some? {
      var idx := FindTab(s.tabs, id).value;
      CloseFrame(s, id, idx);
      CloseActive(s, id, idx);
    }
  }

  lemma CloseFrame(s: Strip, id: string, idx: nat)
    requires FindTab(s.tabs, id) == Some(idx)
    ensures ClosedTabs(s, idx, Close(s, id))
  {
    var rest := RemoveAt(s.tabs, idx);
    var a := NextActive(s, id, rest, idx);
    CloseUnfold(s, id, idx);
    var c := Close(s, id);
    assert c.active == a && |c.tabs| == |rest|;
    forall j | 0 <= j < |c.tabs|
      ensures c.tabs[j] == if a.Some? && a.value != "" && FindTab(rest, a.value) == Some(j) then Settle(rest[j]) else rest[j]
    {
    }
  }

  /** `Close` once the tab is found: the strip without it, switched to the next active tab. */
  lemma CloseUnfold(s: Strip, id: string, idx: nat)
    requires FindTab(s.tabs, id) == Some(idx)
    ensures var rest := RemoveAt(s.tabs, idx);
      var a := NextActive(s, id, rest, idx);
      Close(s, id) == if a.Some? && a.value != "" then SwitchTo(Strip(rest, a), a.value) else Strip(rest, a)
  {
  }

  lemma CloseActive(s: Strip, id: string, idx: nat)
    requires FindTab(s.tabs, id) == Some(idx)
    ensures |Close(s, id).tabs| == |s.tabs| - 1 && ClosedActive(s, id, idx, Close(s, id))
  {
    var rest := RemoveAt(s.tabs, idx);
    var a := NextActive(s, id, rest, idx);
    CloseUnfold(s, id, idx);
    var c := Close(s, id);
    assert c.active == a && |c.tabs| == |rest|;
    if |rest| > 0 {
      var k := if idx > 0 then idx - 1 else 0;
      assert c.tabs[k].id == rest[k].id;
    }
  }

  /** The browser state the tab operations act on. */
  class TabStrip {
    var tabs: seq<Tab>
    var activeTabId: Option<string>

    constructor ()
      ensures tabs == [] && activeTabId.None?
    {
      tabs := [];
      activeTabId := None;
    }

    function State(): Strip
      reads this
    {
      Strip(tabs, activeTabId)
    }

    /** `switchTab(id)` */
    method SwitchTab(id: string)
      modifies this
      ensures State() == SwitchTo(old(State()), id)
    {
      activeTabId := Some(id);
      var k := FindTab(tabs, id);
      if k.Some? {
        var tab := tabs[k.value];
        if tab.status != Loading && tab.message.Some? && tab.message.value.text != "" && !tab.message.value.isError {
          tab := tab.(message := None);
        }
        if !(tab.message.Some? && tab.message.value.text != "") {
          tab := tab.(message := None);
        }
        tabs := tabs[k.value := tab];
      }
    }

    /** `closeTab(id)` */
    method CloseTab(id: string)
      modifies this
      ensures State() == Close(old(State()), id)
    {
      var found := FindTab(tabs, id);
      if found.None? {
        return;
      }
      var idx := found.value;
      tabs := RemoveAt(tabs, idx);
      if activeTabId == Some(id) {
        var newIdx := if idx > 0 then idx - 1 else 0;
        if newIdx < |tabs| && tabs[newIdx].id != "" {
          activeTabId := Some(tabs[newIdx].id);
        } else {
          activeTabId := None;
        }
      }
      if activeTabId.Some? && activeTabId.value != "" {
        SwitchTab(activeTabId.value);
      }
    }

    /** `showMessage` with the max-tabs error, which lands on the active tab if there is one. */
    method ShowMaxTabsError()
      modifies this
      ensures State() == Refused(old(State()))
    {
      var active := ActiveIndex(State());
      if active.Some? {
        var a := active.value;
        tabs := tabs[a := tabs[a].(message := Some(Message(MaxTabsMessage, true)))];
      }
    }

    /** `createOrReuseTab(url)`; `freshId` is the id `createTabId()` would draw. */
    method CreateOrReuseTab(url: string, freshId: string) returns (tab: Option<nat>)
      modifies this
      ensures Opened(State(), tab) == CreateOrReuse(old(State()), url, freshId)
    {
      ghost var s0 := State();
      var loadingExisting := FindLoading(tabs, url);
      if loadingExisting.Some? {
        var k := loadingExisting.value;
        activeTabId := Some(tabs[k].id);
        assert SwitchTo(State(), tabs[k].id) == SwitchTo(s0, tabs[k].id);
        SwitchTab(tabs[k].id);
        return Some(k);
      }
      var active := ActiveIndex(State());
      if active.None? || |tabs[active.value].images| > 0 || tabs[active.value].status == Loading {
        if |tabs| >= MaxTabs {
          assert CreateOrReuse(s0, url, freshId) == Opened(Refused(s0), None);
          ShowMaxTabsError();
          return None;
        }
        assert CreateOrReuse(s0, url, freshId) == OpenNew(s0, url, freshId);
        tabs := tabs + [NewTab(freshId, url)];
        activeTabId := Some(freshId);
        SwitchTab(freshId);
        return Some(|tabs| - 1);
      }
      var a := active.value;
      var t := tabs[a];
      tabs := tabs[a := t.(url := url, labelText := TabLabelFromUrl(Some(url)), status := Loading, images := [], headContent := "")];
      assert CreateOrReuse(s0, url, freshId) == Opened(SwitchTo(State(), t.id), Some(a));
      SwitchTab(t.id);
      tab := Some(a);
    }
  }

  // ---------------------------------------------------------------- persistence

  const MaxPersistedImages: nat := 200

  /** A tab as `persistTabs` writes it: messages are not stored and images are capped. */
  datatype StoredTab = StoredTab(
    id: string,
    url: string,
    labelText: string,
    status: Status,
    images: seq<StaticScrape.ImageRecord>,
    headContent: string,
    view: View,
    scrapingMethod: string,
    fallbackUsed: bool)

  datatype StoredStrip = StoredStrip(activeTabId: Option<string>, tabs: seq<StoredTab>)

  function StoreTab(t: Tab): StoredTab {
    var images := if |t.images| > MaxPersistedImages then t.images[..MaxPersistedImages] else t.images;
    StoredTab(t.id, t.url, t.labelText, t.status, images, t.headContent, t.view, t.scrapingMethod, t.fallbackUsed)
  }

  function StoreTabs(tabs: seq<Tab>): (r: seq<StoredTab>)
    ensures |r| == |tabs|
    ensures forall i :: 0 <= i < |tabs| ==> r[i] == StoreTab(tabs[i])
    decreases |tabs|
  {
    if tabs == [] then [] else [StoreTab(tabs[0])] + StoreTabs(tabs[1..])
  }

  /** The payload `persistTabs()` writes for the current strip. */
  function Persisted(s: Strip): StoredStrip {
    StoredStrip(s.active, StoreTabs(s.tabs))
  }

  /**
    Every tab is stored, in order, with all its fields except its message; at most the
    first 200 of its images are kept, all of them when it has no more than 200.
   */
  lemma PersistedSpec(s: Strip)
    ensures var p := Persisted(s);
      p.activeTabId == s.active && |p.tabs| == |s.tabs| &&
      forall i :: 0 <= i < |s.tabs| ==>
        var st := p.tabs[i];
        var t := s.tabs[i];
        st.id == t.id && st.url == t.url && st.labelText == t.labelText && st.status == t.status && st.view == t.view &&
        st.headContent == t.headContent && st.scrapingMethod == t.scrapingMethod && st.fallbackUsed == t.fallbackUsed &&
        |st.images| <= MaxPersistedImages && st.images <= t.images &&
        (|t.images| <= MaxPersistedImages ==> st.images == t.images) &&
        (|t.images| > MaxPersistedImages ==> |st.images| == MaxPersistedImages)
  {
  }

  // ---------------------------------------------------------------- row visibility

  /** A result row: its text content and whether it shows an inline SVG. */
  datatype Row = Row(text: string, inline: bool)

  /** The search term: the box's value lower-cased (`lower` is `toLowerCase`), then trimmed. */
  function SearchTerm(value: string, lower: string -> string): string {
    Trim(lower(value))
  }

  /** A row is shown iff it matches the term (any row matches an empty one) and inline rows are allowed or it is not inline. */
  predicate RowVisible(row: Row, term: string, showInline: bool, lower: string -> string) {
    (term == "" || Contains(lower(row.text), term)) && (showInline || !row.inline)
  }

  function CountTrue(xs: seq<bool>): (n: nat)
    ensures n <= |xs|
    decreases |xs|
  {
    if xs == [] then 0 else (if xs[0] then 1 else 0) + CountTrue(xs[1..])
  }

  lemma {:induction false} CountTrueAppend(xs: seq<bool>, b: bool)
    ensures CountTrue(xs + [b]) == CountTrue(xs) + (if b then 1 else 0)
    decreases |xs|
  {
    if xs == [] {
      assert xs + [b] == [b];
    } else {
      assert (xs + [b])[1..] == xs[1..] + [b];
      CountTrueAppend(xs[1..], b);
    }
  }

  /**
    `updateRowVisibility()`: the display decision for every row and the number of rows
    left visible, as counted by `updateDisplayedCount`.
   */
  method UpdateRowVisibility(rows: seq<Row>, searchValue: string, showInline: bool, lower: string -> string)
    returns (visible: seq<bool>, count: nat)
    ensures |visible| == |rows|
    ensures forall i :: 0 <= i < |rows| ==>
      visible[i] == RowVisible(rows[i], SearchTerm(searchValue, lower), showInline, lower)
    ensures count == CountTrue(visible) && count <= |rows|
  {
    var term := SearchTerm(searchValue, lower);
    visible := [];
    count := 0;
    for i := 0 to |rows|
      invariant |visible| == i
      invariant forall k :: 0 <= k < i ==> visible[k] == RowVisible(rows[k], term, showInline, lower)
      invariant count == CountTrue(visible)
    {
      var tr := rows[i];
      var matchSearch := term == "" || Contains(lower(tr.text), term);
      var shown := matchSearch && (showInline || !tr.inline);
      CountTrueAppend(visible, shown);
      visible := visible + [shown];
      if shown {
        count := count + 1;
      }
    }
  }

  /** `Contains` is transitive: a text holding a term holds every piece of that term. */
  lemma ContainsTransitive(s: string, t: string, u: string)
    requires Contains(s, t) && Contains(t, u)
    ensures Contains(s, u)
  {
    var i := ContainsWitness(s, t);
    var j := ContainsWitness(t, u);
    forall k | 0 <= k < |u|
      ensures s[i + j + k] == u[k]
    {
      assert u[k] == t[j..j + |u|][k] == t[j + k];
      assert t[j + k] == s[i..i + |t|][j + k] == s[i + j + k];
    }
    assert s[i + j..i + j + |u|] == u;
    ContainsAt(s, u, i + j);
  }

  /**
    Extending the search term never reveals a row, and turning the inline toggle off
    hides exactly the inline rows among those visible.
   */
  lemma RowVisibleMonotone(row: Row, term: string, longer: string, showInline: bool, lower: string -> string)
    requires Contains(longer, term)
    ensures RowVisible(row, longer, showInline, lower) ==> RowVisible(row, term, showInline, lower)
    ensures RowVisible(row, term, false, lower) <==> RowVisible(row, term, true, lower) && !row.inline
  {
    if RowVisible(row, longer, showInline, lower) && term != "" && longer != "" {
      ContainsTransitive(lower(row.text), longer, term);
    }
    if longer == "" && term != "" {
      assert !StartsWith(longer, term);
    }
  }
}
