/**
  The static image-reference collection behind `POST /api/scrape`: which `img` source is
  taken, how `url(...)` references are pulled out of inline styles, how resolved URLs are
  filtered and de-duplicated, and how the output records are built and ordered.

  The parsed page is an abstract list of elements with attribute maps. WHATWG URL
  parsing, `decodeURIComponent`, the safety check, the page fetch and the image probe
  are parameters of the model.
 */
module StaticScrape {
  import opened Maybe
  import opened JsText
  import opened UrlApis

  // ---------------------------------------------------------------- documents

  /** One element as the HTML parser reports it: tag name, attributes and outer markup. */
  datatype Element = Element(tag: string, attrs: map<string, string>, outerHtml: string)

  /** A parsed page: its elements in document order. */
  type Document = seq<Element>

  /** `$(elem).attr(name)`: `undefined` (None) when the attribute is absent. */
  function Attr(e: Element, name: string): Option<string> {
    if name in e.attrs then Some(e.attrs[name]) else None
  }

  /** JavaScript truthiness of a possibly-undefined string. */
  predicate Truthy(v: Option<string>) {
    v.Some? && v.value != ""
  }

  // ---------------------------------------------------------------- URL resolution

  /** `resolveUrl(base, src)`: protocol-relative sources take the base's protocol; None is `null`. */
  function ResolveUrl(base: string, src: string, api: UrlApi): Option<string> {
    if StartsWith(src, "//") then
      match api.protocolOf(base)
      case None => None
      case Some(p) => Some(p + src)
    else
      api.resolve(src, base)
  }

  /**
    A protocol-relative source resolves exactly when the base parses, and then to the
    base's protocol followed by the source itself.
   */
  lemma ProtocolRelative(base: string, src: string, api: UrlApi)
    requires StartsWith(src, "//")
    ensures ResolveUrl(base, src, api).Some? <==> api.protocolOf(base).Some?
    ensures ResolveUrl(base, src, api).Some? ==>
      var r := ResolveUrl(base, src, api).value;
      EndsWith(r, src) && r[..|r| - |src|] == api.protocolOf(base).value &&
      r[|r| - |src|..|r| - |src| + 2] == "//"
  {
    if api.protocolOf(base).Some? {
      var r := ResolveUrl(base, src, api).value;
      assert r[|r| - |src|..] == src;
    }
  }

  /** A resolved URL that the collector keeps: it is truthy (`if (!full)`) and not a script or data URL. */
  predicate Keepable(full: string) {
    full != "" && !StartsWith(full, "data:") && !StartsWith(full, "javascript:")
  }

  function Accept(base: string, src: string, api: UrlApi): (r: Option<string>)
    ensures r.Some? ==> Keepable(r.value) && ResolveUrl(base, src, api) == r
    ensures r.None? ==> ResolveUrl(base, src, api).None? || !Keepable(ResolveUrl(base, src, api).value)
  {
    match ResolveUrl(base, src, api)
    case None => None
    case Some(full) => if Keepable(full) then Some(full) else None
  }

  function OptSeq(o: Option<string>): seq<string> {
    if o.Some? then [o.value] else []
  }

  // ---------------------------------------------------------------- img sources

  /** The lazy-loading attributes, in the order they are consulted. */
  const LazyAttributes: seq<string> :=
    ["data-src", "data-original", "data-url", "data-lazy", "data-srcset", "data-lazy-src"]

  /** The value of the first attribute in `names` that is truthy on `e`. */
  function FirstPresent(e: Element, names: seq<string>): (r: Option<string>)
    ensures r.Some? ==> r.value != ""
    decreases |names|
  {
    if names == [] then None
    else if Truthy(Attr(e, names[0])) then Attr(e, names[0])
    else FirstPresent(e, names[1..])
  }

  /** `FirstPresent` picks the earliest truthy attribute, and finds none only when there is none. */
  lemma {:induction false} FirstPresentSpec(e: Element, names: seq<string>)
    ensures FirstPresent(e, names).Some? ==>
      exists i :: 0 <= i < |names| && Attr(e, names[i]) == FirstPresent(e, names) &&
        forall j :: 0 <= j < i ==> !Truthy(Attr(e, names[j]))
    ensures FirstPresent(e, names).None? <==> forall j :: 0 <= j < |names| ==> !Truthy(Attr(e, names[j]))
    decreases |names|
  {
    if names != [] && !Truthy(Attr(e, names[0])) {
      FirstPresentSpec(e, names[1..]);
      if FirstPresent(e, names).Some? {
        var i :| 0 <= i < |names[1..]| && Attr(e, names[1..][i]) == FirstPresent(e, names[1..]) &&
          forall j :: 0 <= j < i ==> !Truthy(Attr(e, names[1..][j]));
        assert Attr(e, names[i + 1]) == FirstPresent(e, names);
        assert forall j :: 0 <= j < i + 1 ==> !Truthy(Attr(e, names[j])) by {
          forall j | 0 <= j < i + 1 ensures !Truthy(Attr(e, names[j])) {
            if j > 0 { assert names[j] == names[1..][j - 1]; }
          }
        }
      } else {
        forall j | 0 <= j < |names| ensures !Truthy(Attr(e, names[j])) {
          if j > 0 { assert names[j] == names[1..][j - 1]; }
        }
      }
    }
  }

  /** The first candidate of a srcset-like value: the part before the first comma, trimmed, cut at the first space. */
  function SrcsetToken(v: string): string {
    Split(Trim(Split(v, ',')[0]), ' ')[0]
  }

  /** `Trim(s)` is a contiguous piece of `s`. */
  lemma TrimInside(s: string) returns (a: nat)
    ensures a + |Trim(s)| <= |s| && Trim(s) == s[a..a + |Trim(s)|]
  {
    var t := TrimStart(s);
    TrimStartSpec(s);
    TrimEndSpec(t);
    a := |s| - |t|;
    var r := TrimEnd(t);
    assert Trim(s) == r;
    assert t == s[a..];
    assert r == t[..|r|];
    assert t[..|r|] == s[a..a + |r|];
  }

  /**
    The srcset token has neither commas nor spaces, lies inside the part of the value
    before its first comma, and is the leading run of that part once trimmed.
   */
  lemma SrcsetTokenSpec(v: string)
    ensures var first := Split(v, ',')[0];
      var t := SrcsetToken(v);
      StartsWith(v, first) && (|first| == |v| || v[|first|] == ',') &&
      StartsWith(Trim(first), t) && (|t| == |Trim(first)| || Trim(first)[|t|] == ' ') &&
      (forall k :: 0 <= k < |t| ==> t[k] != ',' && t[k] != ' ')
  {
    var first := Split(v, ',')[0];
    FirstPiece(v, {','});
    var tr := Trim(first);
    var a := TrimInside(first);
    FirstPiece(tr, {' '});
    var t := SrcsetToken(v);
    forall k | 0 <= k < |t| ensures t[k] != ',' && t[k] != ' ' {
      assert t[k] == tr[k] == first[a + k];
    }
  }

  /**
    The source an `img` element contributes, if any: a truthy `src`; otherwise, when
    lazy loading is on, the first truthy lazy attribute, reduced to its first
    candidate when it contains a comma. None when the result is falsy.
   */
  function ImgSource(e: Element, lazy: bool): (r: Option<string>)
    ensures r.Some? ==> r.value != ""
  {
    var src := Attr(e, "src");
    if Truthy(src) then src
    else if !lazy then None
    else
      match FirstPresent(e, LazyAttributes)
      case None => None
      case Some(v) =>
        var t := if Contains(v, ",") then SrcsetToken(v) else v;
        if t == "" then None else Some(t)
  }

  /** Lazy attributes matter only when `src` is falsy and lazy loading is on. */
  lemma ImgSourceLazyOnlyAsFallback(e: Element, lazy: bool)
    ensures Truthy(Attr(e, "src")) ==> ImgSource(e, lazy) == Attr(e, "src")
    ensures !Truthy(Attr(e, "src")) && !lazy ==> ImgSource(e, lazy).None?
    ensures !Truthy(Attr(e, "src")) && lazy ==>
      (ImgSource(e, lazy).Some? ==> FirstPresent(e, LazyAttributes).Some?) &&
      ((forall j :: 0 <= j < |LazyAttributes| ==> !Truthy(Attr(e, LazyAttributes[j]))) ==> ImgSource(e, lazy).None?)
  {
    FirstPresentSpec(e, LazyAttributes);
  }

  /** The source choice as the handler performs it: a `for` loop over the lazy attributes with an early `break`. */
  method ChooseImgSource(e: Element, lazy: bool) returns (src: Option<string>)
    ensures src == ImgSource(e, lazy)
  {
    src := Attr(e, "src");
    if !Truthy(src) && lazy {
      var i := 0;
      while i < |LazyAttributes|
        invariant 0 <= i <= |LazyAttributes|
        invariant src == Attr(e, "src")
        invariant FirstPresent(e, LazyAttributes) == FirstPresent(e, LazyAttributes[i..])
      {
        var val := Attr(e, LazyAttributes[i]);
        if Truthy(val) {
          src := val;
          break;
        }
        assert LazyAttributes[i..][1..] == LazyAttributes[i + 1..];
        i := i + 1;
      }
      if Truthy(src) && Contains(src.value, ",") {
        src := Some(SrcsetToken(src.value));
      }
    }
    if !Truthy(src) {
      src := None;
    }
  }

  // ---------------------------------------------------------------- the style url() regex

  /** A match of `/url\((['"]?)(.*?)\1\)/gi`: where it starts, where it ends, and group 2. */
  datatype RegexMatch = RegexMatch(start: nat, end: nat, body: string)

  /**
    The lazy `(.*?)` followed by `\1\)`: the first position `k >= from` such that the
    closing text `close` follows at `k`, with no line terminator between `from` and `k`.
   */
  function CloseFrom(s: string, from: nat, close: string): (r: Option<nat>)
    requires from <= |s|
    ensures r.Some? ==> from <= r.value && r.value + |close| <= |s|
    decreases |s| - from
  {
    if StartsWith(s[from..], close) then Some(from)
    else if from < |s| && !IsLineTerminator(s[from]) then CloseFrom(s, from + 1, close)
    else None
  }

  /** `CloseFrom` finds the nearest closing text on the current line. */
  lemma {:induction false} CloseFromSpec(s: string, from: nat, close: string)
    requires from <= |s|
    ensures match CloseFrom(s, from, close)
      case Some(k) =>
        s[k..k + |close|] == close &&
        (forall m :: from <= m < k ==> !IsLineTerminator(s[m]) && !StartsWith(s[m..], close))
      case None =>
        forall m :: from <= m <= |s| && StartsWith(s[m..], close) ==>
          exists t :: from <= t < m && IsLineTerminator(s[t])
    decreases |s| - from
  {
    if StartsWith(s[from..], close) {
    } else if from < |s| && !IsLineTerminator(s[from]) {
      CloseFromSpec(s, from + 1, close);
      if CloseFrom(s, from, close).None? {
        forall m | from <= m <= |s| && StartsWith(s[m..], close)
          ensures exists t :: from <= t < m && IsLineTerminator(s[t])
        {
          assert m != from;
          var t :| from + 1 <= t < m && IsLineTerminator(s[t]);
        }
      }
    } else {
      forall m | from <= m <= |s| && StartsWith(s[m..], close)
        ensures exists t :: from <= t < m && IsLineTerminator(s[t])
      {
        assert m != from;
        assert IsLineTerminator(s[from]);
      }
    }
  }

  /** `url(` at position `p`, letters compared without case (the `i` flag). */
  predicate OpensAt(s: string, p: nat) {
    p + 4 <= |s| && LowerChar(s[p]) == 'u' && LowerChar(s[p + 1]) == 'r' && LowerChar(s[p + 2]) == 'l' && s[p + 3] == '('
  }

  predicate IsQuote(c: char) {
    c == '\'' || c == '"'
  }

  /**
    The regex anchored at `p`. Group 1 first tries to take a quote; if no matching
    quote-and-parenthesis closes the body on that line, it backtracks to the empty
    group and the body runs to the first `)`.
   */
  function MatchAt(s: string, p: nat): (r: Option<RegexMatch>)
    requires p <= |s|
    ensures r.Some? ==> r.value.start == p && p + 5 <= r.value.end <= |s|
  {
    if !OpensAt(s, p) then None
    else
      var b := p + 4;
      var quoted :=
        if b < |s| && IsQuote(s[b]) then
          match CloseFrom(s, b + 1, [s[b], ')'])
          case Some(k) => Some(RegexMatch(p, k + 2, s[b + 1..k]))
          case None => None
        else None;
      if quoted.Some? then quoted
      else
        match CloseFrom(s, b, ")")
        case Some(k) => Some(RegexMatch(p, k + 1, s[b..k]))
        case None => None
  }

  /** `urlRegex.exec(s)` with `lastIndex == from`: the leftmost match starting at or after `from`. */
  function ExecFrom(s: string, from: nat): (r: Option<RegexMatch>)
    requires from <= |s|
    ensures r.Some? ==> from <= r.value.start && r.value.start + 5 <= r.value.end <= |s|
    decreases |s| - from
  {
    if MatchAt(s, from).Some? then MatchAt(s, from)
    else if from < |s| then ExecFrom(s, from + 1)
    else None
  }

  /** `exec` returns the leftmost match: no match starts between `from` and the one returned. */
  lemma {:induction false} ExecFromSpec(s: string, from: nat)
    requires from <= |s|
    ensures match ExecFrom(s, from)
      case Some(m) => MatchAt(s, m.start) == Some(m) &&
        forall q :: from <= q < m.start ==> MatchAt(s, q).None?
      case None => forall q :: from <= q <= |s| ==> MatchAt(s, q).None?
    decreases |s| - from
  {
    if MatchAt(s, from).None? && from < |s| {
      ExecFromSpec(s, from + 1);
    }
  }

  /** Group 2 of every match found by the `while (exec)` loop started at `from`, in order. */
  function StyleMatches(s: string, from: nat): seq<string>
    requires from <= |s|
    decreases |s| - from
  {
    match ExecFrom(s, from)
    case None => []
    case Some(m) => [m.body] + StyleMatches(s, m.end)
  }

  /** Every captured body is a contiguous piece of the style text on a single line. */
  lemma {:induction false} StyleMatchesOnOneLine(s: string, from: nat)
    requires from <= |s|
    ensures forall b :: b in StyleMatches(s, from) ==>
      forall k :: 0 <= k < |b| ==> !IsLineTerminator(b[k])
    decreases |s| - from
  {
    match ExecFrom(s, from)
    case None =>
    case Some(m) =>
      StyleMatchesOnOneLine(s, m.end);
      ExecFromSpec(s, from);
      BodyOnOneLine(s, m.start);
  }

  lemma BodyOnOneLine(s: string, p: nat)
    requires p <= |s| && MatchAt(s, p).Some?
    ensures forall k :: 0 <= k < |MatchAt(s, p).value.body| ==> !IsLineTerminator(MatchAt(s, p).value.body[k])
  {
    var b := p + 4;
    var body := MatchAt(s, p).value.body;
    if b < |s| && IsQuote(s[b]) && CloseFrom(s, b + 1, [s[b], ')']).Some? {
      CloseFromSpec(s, b + 1, [s[b], ')']);
      var k := CloseFrom(s, b + 1, [s[b], ')']).value;
      assert body == s[b + 1..k];
      forall i | 0 <= i < |body|
        ensures !IsLineTerminator(body[i])
      {
        assert body[i] == s[b + 1 + i];
      }
    } else {
      CloseFromSpec(s, b, ")");
      var k := CloseFrom(s, b, ")").value;
      assert body == s[b..k];
      forall i | 0 <= i < |body|
        ensures !IsLineTerminator(body[i])
      {
        assert body[i] == s[b + i];
      }
    }
  }

  /** The result of matching `url("a.png")`: the quotes are not part of the captured body. */
  lemma QuotedExample()
    ensures StyleMatches("url(\"a.png\")", 0) == ["a.png"]
  {
    var s := "url(\"a.png\")";
    var close := "\")";
    QuotedClose(s, close);
    assert OpensAt(s, 0) && IsQuote(s[4]) && [s[4], ')'] == close;
    assert s[5..10] == "a.png";
    assert MatchAt(s, 0) == Some(RegexMatch(0, 12, "a.png"));
    assert ExecFrom(s, 0) == MatchAt(s, 0);
    assert ExecFrom(s, 12) == None by {
      assert !OpensAt(s, 12);
    }
    assert StyleMatches(s, 12) == [];
  }

  /** In `url("a.png")` the closing quote and parenthesis are found at position 10. */
  lemma QuotedClose(s: string, close: string)
    requires s == "url(\"a.png\")" && close == "\")"
    ensures CloseFrom(s, 5, close) == Some(10)
  {
    assert s[5] == 'a' && s[6] == '.' && s[7] == 'p' && s[8] == 'n' && s[9] == 'g';
    assert CloseFrom(s, 10, close) == Some(10) by {
      assert s[10..] == close;
    }
    assert CloseFrom(s, 9, close) == Some(10);
    assert CloseFrom(s, 8, close) == Some(10);
    assert CloseFrom(s, 7, close) == Some(10);
    assert CloseFrom(s, 6, close) == Some(10);
  }

  // ---------------------------------------------------------------- de-duplication (a JavaScript Set)

  /** `set.add(x)` on a Set kept as its insertion-ordered contents. */
  function SetAdd(acc: seq<string>, x: string): seq<string> {
    if x in acc then acc else acc + [x]
  }

  function AddAll(acc: seq<string>, xs: seq<string>): seq<string>
    decreases |xs|
  {
    if xs == [] then acc else AddAll(SetAdd(acc, xs[0]), xs[1..])
  }

  predicate NoDup(s: seq<string>) {
    forall i, j :: 0 <= i < j < |s| ==> s[i] != s[j]
  }

  /** Adding keeps the existing contents in front, holds each value once, and holds exactly the values of both. */
  lemma {:induction false} AddAllSpec(acc: seq<string>, xs: seq<string>)
    ensures acc <= AddAll(acc, xs)
    ensures NoDup(acc) ==> NoDup(AddAll(acc, xs))
    ensures forall x :: x in AddAll(acc, xs) <==> x in acc || x in xs
    decreases |xs|
  {
    if xs != [] {
      AddAllSpec(SetAdd(acc, xs[0]), xs[1..]);
      assert forall x :: x in xs <==> x == xs[0] || x in xs[1..];
    }
  }

  lemma {:induction false} AddAllAppend(acc: seq<string>, xs: seq<string>, ys: seq<string>)
    ensures AddAll(acc, xs + ys) == AddAll(AddAll(acc, xs), ys)
    decreases |xs|
  {
    if xs == [] {
      assert xs + ys == ys;
    } else {
      assert (xs + ys)[0] == xs[0];
      assert (xs + ys)[1..] == xs[1..] + ys;
      AddAllAppend(SetAdd(acc, xs[0]), xs[1..], ys);
    }
  }

  // ---------------------------------------------------------------- what the collector gathers

  /** The kept URL an `img` element contributes (zero or one). */
  function ImgUrlsOf(e: Element, base: string, api: UrlApi, lazy: bool): seq<string> {
    if e.tag == "img" then
      match ImgSource(e, lazy)
      case None => []
      case Some(src) => OptSeq(Accept(base, src, api))
    else []
  }

  function ImgUrls(doc: Document, base: string, api: UrlApi, lazy: bool): seq<string>
    decreases |doc|
  {
    if doc == [] then [] else ImgUrlsOf(doc[0], base, api, lazy) + ImgUrls(doc[1..], base, api, lazy)
  }

  /** `$('[style*="url("]')`: a style attribute containing `url(` exactly, in lower case. */
  predicate StyleSelected(e: Element) {
    Attr(e, "style").Some? && Contains(Attr(e, "style").value, "url(")
  }

  /** The kept URLs of a list of captured bodies: empty bodies are skipped. */
  function AcceptRaws(raws: seq<string>, base: string, api: UrlApi): seq<string>
    decreases |raws|
  {
    if raws == [] then []
    else (if raws[0] == "" then [] else OptSeq(Accept(base, raws[0], api))) + AcceptRaws(raws[1..], base, api)
  }

  function StyleUrlsOf(e: Element, base: string, api: UrlApi): seq<string> {
    if StyleSelected(e) then
      var style := Attr(e, "style").value;
      AcceptRaws(StyleMatches(style, 0), base, api)
    else []
  }

  function StyleUrls(doc: Document, base: string, api: UrlApi): seq<string>
    decreases |doc|
  {
    if doc == [] then [] else StyleUrlsOf(doc[0], base, api) + StyleUrls(doc[1..], base, api)
  }

  /** The contents of `imgSrcs` after both loops, in Set insertion order. */
  function CollectedUrls(doc: Document, base: string, api: UrlApi, lazy: bool): seq<string> {
    AddAll([], ImgUrls(doc, base, api, lazy) + StyleUrls(doc, base, api))
  }

  /** A URL comes from an `img` element exactly when that element's source resolves to it and is kept. */
  lemma {:induction false} ImgUrlsMember(doc: Document, base: string, api: UrlApi, lazy: bool, u: string)
    ensures u in ImgUrls(doc, base, api, lazy) <==>
      exists i :: 0 <= i < |doc| && doc[i].tag == "img" && ImgSource(doc[i], lazy).Some? &&
        Accept(base, ImgSource(doc[i], lazy).value, api) == Some(u)
    decreases |doc|
  {
    if doc != [] {
      ImgUrlsMember(doc[1..], base, api, lazy, u);
      if u in ImgUrls(doc, base, api, lazy) && u !in ImgUrlsOf(doc[0], base, api, lazy) {
        var i :| 0 <= i < |doc[1..]| && doc[1..][i].tag == "img" && ImgSource(doc[1..][i], lazy).Some? &&
          Accept(base, ImgSource(doc[1..][i], lazy).value, api) == Some(u);
        assert doc[i + 1] == doc[1..][i];
      }
      if exists i :: 0 <= i < |doc| && doc[i].tag == "img" && ImgSource(doc[i], lazy).Some? &&
          Accept(base, ImgSource(doc[i], lazy).value, api) == Some(u) {
        var i :| 0 <= i < |doc| && doc[i].tag == "img" && ImgSource(doc[i], lazy).Some? &&
          Accept(base, ImgSource(doc[i], lazy).value, api) == Some(u);
        if i > 0 {
          assert doc[1..][i - 1] == doc[i];
        }
      }
    }
  }

  /** A URL comes from a list of bodies exactly when some non-empty body resolves to it and is kept. */
  lemma {:induction false} AcceptRawsMember(raws: seq<string>, base: string, api: UrlApi, u: string)
    ensures u in AcceptRaws(raws, base, api) <==>
      exists k :: 0 <= k < |raws| && raws[k] != "" && Accept(base, raws[k], api) == Some(u)
    decreases |raws|
  {
    if raws != [] {
      AcceptRawsMember(raws[1..], base, api, u);
      if exists k :: 0 <= k < |raws| && raws[k] != "" && Accept(base, raws[k], api) == Some(u) {
        var k :| 0 <= k < |raws| && raws[k] != "" && Accept(base, raws[k], api) == Some(u);
        if k > 0 {
          assert raws[1..][k - 1] == raws[k];
        }
      }
    }
  }

  /** Every URL from either source passes the resolution and scheme filters. */
  lemma {:induction false} ContributionsKeepable(doc: Document, base: string, api: UrlApi, lazy: bool)
    ensures forall u :: u in ImgUrls(doc, base, api, lazy) + StyleUrls(doc, base, api) ==> Keepable(u)
    decreases |doc|
  {
    if doc != [] {
      ContributionsKeepable(doc[1..], base, api, lazy);
      if StyleSelected(doc[0]) {
        var raws := StyleMatches(Attr(doc[0], "style").value, 0);
        forall u | u in AcceptRaws(raws, base, api) ensures Keepable(u) {
          AcceptRawsMember(raws, base, api, u);
        }
      }
    }
  }

  /**
    The collected URLs hold each URL once, hold exactly the URLs the `img` and style
    passes keep, and never hold an empty, `data:` or `javascript:` URL; the `img` URLs come first.
   */
  lemma CollectedUrlsSpec(doc: Document, base: string, api: UrlApi, lazy: bool)
    ensures var c := CollectedUrls(doc, base, api, lazy);
      NoDup(c) &&
      (forall u :: u in c <==> u in ImgUrls(doc, base, api, lazy) || u in StyleUrls(doc, base, api)) &&
      (forall u :: u in c ==> Keepable(u)) &&
      AddAll([], ImgUrls(doc, base, api, lazy)) <= c
  {
    var xs := ImgUrls(doc, base, api, lazy);
    var ys := StyleUrls(doc, base, api);
    AddAllSpec([], xs + ys);
    AddAllAppend([], xs, ys);
    AddAllSpec(AddAll([], xs), ys);
    ContributionsKeepable(doc, base, api, lazy);
  }

  /**
    One style attribute's `while ((match = urlRegex.exec(style)) !== null)` loop, adding
    each kept URL to `imgSrcs`.
   */
  method AddStyleUrls(style: string, base: string, api: UrlApi, acc: seq<string>) returns (imgSrcs: seq<string>)
    ensures imgSrcs == AddAll(acc, AcceptRaws(StyleMatches(style, 0), base, api))
  {
    imgSrcs := acc;
    var lastIndex := 0;
    var match_ := ExecFrom(style, lastIndex);
    while match_.Some?
      invariant lastIndex <= |style|
      invariant match_ == ExecFrom(style, lastIndex)
      invariant AddAll(imgSrcs, AcceptRaws(StyleMatches(style, lastIndex), base, api)) ==
        AddAll(acc, AcceptRaws(StyleMatches(style, 0), base, api))
      decreases |style| - lastIndex
    {
      var raw := match_.value.body;
      ghost var rest := StyleMatches(style, match_.value.end);
      assert StyleMatches(style, lastIndex) == [raw] + rest;
      assert ([raw] + rest)[1..] == rest;
      var step: seq<string> := [];
      if raw != "" {
        var full := ResolveUrl(base, raw, api);
        if full.Some? && Keepable(full.value) {
          step := [full.value];
        }
      }
      AddAllAppend(imgSrcs, step, AcceptRaws(rest, base, api));
      if step != [] {
        imgSrcs := SetAdd(imgSrcs, step[0]);
        assert AddAll(imgSrcs, []) == imgSrcs;
        assert step[1..] == [];
      }
      lastIndex := match_.value.end;
      match_ := ExecFrom(style, lastIndex);
    }
  }

  /** The two `.each` passes of the handler: `img` elements first, then styled elements. */
  method CollectSources(doc: Document, base: string, api: UrlApi, lazy: bool) returns (imgSrcs: seq<string>)
    ensures imgSrcs == CollectedUrls(doc, base, api, lazy)
  {
    imgSrcs := AddImgUrls(doc, base, api, lazy);
    imgSrcs := AddAllStyleUrls(imgSrcs, doc, base, api);
    AddAllAppend([], ImgUrls(doc, base, api, lazy), StyleUrls(doc, base, api));
  }

  /** The `$('img').each` pass over a fresh set. */
  method AddImgUrls(doc: Document, base: string, api: UrlApi, lazy: bool) returns (imgSrcs: seq<string>)
    ensures imgSrcs == AddAll([], ImgUrls(doc, base, api, lazy))
  {
    imgSrcs := [];
    var i := 0;
    while i < |doc|
      invariant 0 <= i <= |doc|
      invariant AddAll(imgSrcs, ImgUrls(doc[i..], base, api, lazy)) == AddAll([], ImgUrls(doc, base, api, lazy))
    {
      var elem := doc[i];
      assert doc[i..][1..] == doc[i + 1..];
      ghost var rest := ImgUrls(doc[i + 1..], base, api, lazy);
      AddAllAppend(imgSrcs, ImgUrlsOf(elem, base, api, lazy), rest);
      if elem.tag == "img" {
        var src := ChooseImgSource(elem, lazy);
        if src.Some? {
          var full := ResolveUrl(base, src.value, api);
          if full.Some? && Keepable(full.value) {
            imgSrcs := SetAdd(imgSrcs, full.value);
            assert [full.value][1..] == [];
          }
        }
      }
      i := i + 1;
    }
    assert doc[|doc|..] == [];
  }

  /** The `$('[style*="url("]').each` pass, adding to the set the `img` pass filled. */
  method AddAllStyleUrls(acc: seq<string>, doc: Document, base: string, api: UrlApi) returns (imgSrcs: seq<string>)
    ensures imgSrcs == AddAll(acc, StyleUrls(doc, base, api))
  {
    imgSrcs := acc;
    var j := 0;
    while j < |doc|
      invariant 0 <= j <= |doc|
      invariant AddAll(imgSrcs, StyleUrls(doc[j..], base, api)) == AddAll(acc, StyleUrls(doc, base, api))
    {
      var elem := doc[j];
      assert doc[j..][1..] == doc[j + 1..];
      AddAllAppend(imgSrcs, StyleUrlsOf(elem, base, api), StyleUrls(doc[j + 1..], base, api));
      if StyleSelected(elem) {
        var style := Attr(elem, "style").value;
        imgSrcs := AddStyleUrls(style, base, api, imgSrcs);
      }
      j := j + 1;
    }
    assert doc[|doc|..] == [];
  }


  // ---------------------------------------------------------------- records

  /** A metadata cell: the placeholder `'-'`, a string, or a number. */
  datatype Cell = Dash | Str(text: string) | Num(value: int)

  /** One JSON record of the response; `url` is None (`null`) and `content` is present only for inline SVGs. */
  datatype ImageRecord = ImageRecord(
    url: Option<string>,
    inline: bool,
    content: Option<string>,
    width: Cell,
    height: Cell,
    kind: Cell,
    size: Cell,
    filename: string)

  /** What the image probe reports for a URL: its dimensions, type and byte length, or a failure. */
  datatype Probe = Probed(width: int, height: int, kind: string, length: int) | ProbeFailed

  /** The number of bytes UTF-8 spends on one character. */
  function Utf8Width(c: char): nat {
    if c as int < 0x80 then 1 else if c as int < 0x800 then 2 else if c as int < 0x10000 then 3 else 4
  }

  /** `Buffer.byteLength(s, 'utf8')` */
  function Utf8Length(s: string): (r: nat)
    ensures |s| <= r <= 4 * |s|
    decreases |s|
  {
    if s == [] then 0 else Utf8Width(s[0]) + Utf8Length(s[1..])
  }

  /** On ASCII text the byte length is the character count. */
  lemma {:induction false} Utf8LengthAscii(s: string)
    requires forall k :: 0 <= k < |s| ==> s[k] as int < 0x80
    ensures Utf8Length(s) == |s|
    decreases |s|
  {
    if s != [] {
      Utf8LengthAscii(s[1..]);
    }
  }

  /** `attr(name) || '-'` */
  function AttrOrDash(e: Element, name: string): Cell {
    if Truthy(Attr(e, name)) then Str(Attr(e, name).value) else Dash
  }

  /** The record pushed for an inline `svg` element. */
  function InlineRecord(e: Element): ImageRecord {
    ImageRecord(None, true, Some(e.outerHtml), AttrOrDash(e, "width"), AttrOrDash(e, "height"),
      Str("svg"), Num(Utf8Length(e.outerHtml)), "-")
  }

  function SvgRecords(doc: Document): seq<ImageRecord>
    decreases |doc|
  {
    if doc == [] then []
    else (if doc[0].tag == "svg" then [InlineRecord(doc[0])] else []) + SvgRecords(doc[1..])
  }

  /** The `svg` elements of a document, in order. */
  function Svgs(doc: Document): seq<Element>
    decreases |doc|
  {
    if doc == [] then [] else (if doc[0].tag == "svg" then [doc[0]] else []) + Svgs(doc[1..])
  }

  /**
    One inline record per `svg` element, in document order, each carrying that element's
    markup with type `svg`, its UTF-8 byte size, no URL and file name `-`.
   */
  lemma {:induction false} SvgRecordsSpec(doc: Document)
    ensures |SvgRecords(doc)| == |Svgs(doc)|
    ensures forall i :: 0 <= i < |SvgRecords(doc)| ==>
      var r := SvgRecords(doc)[i];
      r.inline && r.url.None? && r.content == Some(Svgs(doc)[i].outerHtml) &&
      r.kind == Str("svg") && r.size == Num(Utf8Length(Svgs(doc)[i].outerHtml)) && r.filename == "-" &&
      r.width == AttrOrDash(Svgs(doc)[i], "width") && r.height == AttrOrDash(Svgs(doc)[i], "height")
    decreases |doc|
  {
    if doc != [] {
      SvgRecordsSpec(doc[1..]);
    }
  }

  /** `getFileName` before decoding: the last `/` segment, cut at the first `?` or `#`. */
  function RawFileName(fileUrl: string): string {
    SplitAny(Last(Split(fileUrl, '/')), {'?', '#'})[0]
  }

  /**
    The raw file name sits right after the last `/` of the URL (or at its start), holds
    no `/`, `?` or `#`, and ends at the end of the URL or just before a `?` or `#`.
   */
  lemma RawFileNameSpec(fileUrl: string)
    ensures var n := RawFileName(fileUrl);
      var i := |fileUrl| - |Last(Split(fileUrl, '/'))|;
      0 <= i && i + |n| <= |fileUrl| && fileUrl[i..i + |n|] == n &&
      (i == 0 || fileUrl[i - 1] == '/') &&
      (forall k :: i <= k < |fileUrl| ==> fileUrl[k] != '/') &&
      (forall k :: 0 <= k < |n| ==> n[k] != '?' && n[k] != '#') &&
      (i + |n| == |fileUrl| || fileUrl[i + |n|] == '?' || fileUrl[i + |n|] == '#')
  {
    var seg := Last(Split(fileUrl, '/'));
    LastPiece(fileUrl, '/');
    FirstPiece(seg, {'?', '#'});
    var i := |fileUrl| - |seg|;
    forall k | i <= k < |fileUrl| ensures fileUrl[k] != '/' {
      assert fileUrl[k] == seg[k - i];
    }
    if i + |RawFileName(fileUrl)| < |fileUrl| {
      assert fileUrl[i + |RawFileName(fileUrl)|] == seg[|RawFileName(fileUrl)|];
    }
  }

  /**
    `getFileName(fileUrl)`: the decoded raw file name, or `image` when decoding throws
    (`decode` gives None) or yields the empty string.
   */
  function GetFileName(fileUrl: string, decode: string -> Option<string>): (r: string)
    ensures r != ""
    ensures r == "image" || decode(RawFileName(fileUrl)) == Some(r)
  {
    match decode(RawFileName(fileUrl))
    case None => "image"
    case Some(d) => if d == "" then "image" else d
  }

  /** The extension guess used when probing fails: text after the last `.`, cut at the first `#` or `?`. */
  function ExtGuess(imgUrl: string): string {
    SplitAny(Last(Split(imgUrl, '.')), {'#', '?'})[0]
  }

  lemma ExtGuessSpec(imgUrl: string)
    ensures var x := ExtGuess(imgUrl);
      var i := |imgUrl| - |Last(Split(imgUrl, '.'))|;
      0 <= i && i + |x| <= |imgUrl| && imgUrl[i..i + |x|] == x &&
      (i == 0 || imgUrl[i - 1] == '.') &&
      (forall k :: i <= k < |imgUrl| ==> imgUrl[k] != '.') &&
      (forall k :: 0 <= k < |x| ==> x[k] != '#' && x[k] != '?')
  {
    var seg := Last(Split(imgUrl, '.'));
    LastPiece(imgUrl, '.');
    FirstPiece(seg, {'#', '?'});
    var i := |imgUrl| - |seg|;
    forall k | i <= k < |imgUrl| ensures imgUrl[k] != '.' {
      assert imgUrl[k] == seg[k - i];
    }
  }

  /** The record built for a collected URL: placeholders, then the probe's values or the extension fallback. */
  function RemoteRecord(imgUrl: string, probe: string -> Probe, decode: string -> Option<string>): ImageRecord {
    var meta := ImageRecord(Some(imgUrl), false, None, Dash, Dash, Dash, Dash, GetFileName(imgUrl, decode));
    match probe(imgUrl)
    case Probed(w, h, k, len) => meta.(width := Num(w), height := Num(h), kind := Str(k), size := Num(len))
    case ProbeFailed =>
      var ext := ExtGuess(imgUrl);
      if |ext| <= 5 then meta.(kind := Str(ext)) else meta
  }

  function RemoteRecords(urls: seq<string>, probe: string -> Probe, decode: string -> Option<string>): seq<ImageRecord>
    decreases |urls|
  {
    if urls == [] then [] else [RemoteRecord(urls[0], probe, decode)] + RemoteRecords(urls[1..], probe, decode)
  }

  /**
    One remote record per URL, in order; it is never inline and has no content; when the
    probe fails its size and dimensions stay `-` and its type is the extension guess if
    that has at most five characters, else `-`.
   */
  lemma {:induction false} RemoteRecordsSpec(urls: seq<string>, probe: string -> Probe, decode: string -> Option<string>)
    ensures |RemoteRecords(urls, probe, decode)| == |urls|
    ensures forall i :: 0 <= i < |urls| ==>
      var r := RemoteRecords(urls, probe, decode)[i];
      r.url == Some(urls[i]) && !r.inline && r.content.None? && r.filename == GetFileName(urls[i], decode) &&
      (probe(urls[i]).Probed? ==>
        r.width == Num(probe(urls[i]).width) && r.height == Num(probe(urls[i]).height) &&
        r.kind == Str(probe(urls[i]).kind) && r.size == Num(probe(urls[i]).length)) &&
      (probe(urls[i]).ProbeFailed? ==>
        r.width == Dash && r.height == Dash && r.size == Dash &&
        (r.kind == Dash <==> |ExtGuess(urls[i])| > 5) &&
        (r.kind != Dash ==> r.kind == Str(ExtGuess(urls[i]))))
    decreases |urls|
  {
    if urls != [] {
      RemoteRecordsSpec(urls[1..], probe, decode);
    }
  }

  /** The record-building half of the handler: the `svg` pass, then a record per collected URL. */
  method BuildRecords(doc: Document, imgSrcs: seq<string>, probe: string -> Probe, decode: string -> Option<string>)
    returns (results: seq<ImageRecord>)
    ensures results == SvgRecords(doc) + RemoteRecords(imgSrcs, probe, decode)
  {
    results := PushSvgRecords(doc);
    results := PushRemoteRecords(results, imgSrcs, probe, decode);
  }

  /** The `$('svg').each` pass: one inline record pushed per `svg` element. */
  method PushSvgRecords(doc: Document) returns (results: seq<ImageRecord>)
    ensures results == SvgRecords(doc)
  {
    results := [];
    var i := 0;
    while i < |doc|
      invariant 0 <= i <= |doc|
      invariant results + SvgRecords(doc[i..]) == SvgRecords(doc)
    {
      var elem := doc[i];
      assert doc[i..][1..] == doc[i + 1..];
      if elem.tag == "svg" {
        var svgHtml := elem.outerHtml;
        results := results + [ImageRecord(None, true, Some(svgHtml), AttrOrDash(elem, "width"),
          AttrOrDash(elem, "height"), Str("svg"), Num(Utf8Length(svgHtml)), "-")];
      }
      i := i + 1;
    }
    assert doc[|doc|..] == [];
  }

  /** The loop over the collected URLs: one remote record pushed per URL, after what `results` already holds. */
  method PushRemoteRecords(acc: seq<ImageRecord>, imgSrcs: seq<string>, probe: string -> Probe, decode: string -> Option<string>)
    returns (results: seq<ImageRecord>)
    ensures results == acc + RemoteRecords(imgSrcs, probe, decode)
  {
    results := acc;
    var j := 0;
    while j < |imgSrcs|
      invariant 0 <= j <= |imgSrcs|
      invariant results + RemoteRecords(imgSrcs[j..], probe, decode) == acc + RemoteRecords(imgSrcs, probe, decode)
    {
      var imgUrl := imgSrcs[j];
      assert imgSrcs[j..][1..] == imgSrcs[j + 1..];
      var meta := DescribeRemote(imgUrl, probe, decode);
      results := results + [meta];
      j := j + 1;
    }
    assert imgSrcs[|imgSrcs|..] == [];
  }

  /** The body of the remote-record loop: default metadata, then the probe's answer or the extension guess. */
  method DescribeRemote(imgUrl: string, probe: string -> Probe, decode: string -> Option<string>) returns (meta: ImageRecord)
    ensures meta == RemoteRecord(imgUrl, probe, decode)
  {
    meta := ImageRecord(Some(imgUrl), false, None, Dash, Dash, Dash, Dash, GetFileName(imgUrl, decode));
    var info := probe(imgUrl);
    if info.Probed? {
      meta := meta.(width := Num(info.width), height := Num(info.height), kind := Str(info.kind), size := Num(info.length));
    } else {
      var ext := ExtGuess(imgUrl);
      if |ext| <= 5 {
        meta := meta.(kind := Str(ext));
      }
    }
  }


  // ---------------------------------------------------------------- the handler

  /** An HTTP reply: an error status with its message, or the JSON array of records. */
  datatype Response = Failure(status: nat, error: string) | Records(records: seq<ImageRecord>)

  /**
    The observable outcomes of the handler. `url` is the request's `url` field (None when
    missing), `lazy` its `lazy` field (None when missing, which means true), `isSafe` the
    public-address check, and `fetch` the page download and parse (None when it throws).
   */
  function ScrapeResponse(url: Option<string>, lazy: Option<bool>, isSafe: string -> bool,
                          fetch: string -> Option<Document>, api: UrlApi,
                          probe: string -> Probe, decode: string -> Option<string>): Response
  {
    if !Truthy(url) then Failure(400, "No url provided")
    else if !isSafe(url.value) then Failure(400, "URL not allowed")
    else
      match fetch(url.value)
      case None => Failure(500, "Failed to scrape the provided URL.")
      case Some(doc) =>
        var scrapeLazy := if lazy.Some? then lazy.value else true;
        Records(SvgRecords(doc) + RemoteRecords(CollectedUrls(doc, url.value, api, scrapeLazy), probe, decode))
  }

  /** `app.post('/api/scrape', ...)` */
  method Scrape(url: Option<string>, lazy: Option<bool>, isSafe: string -> bool,
                fetch: string -> Option<Document>, api: UrlApi,
                probe: string -> Probe, decode: string -> Option<string>) returns (res: Response)
    ensures res == ScrapeResponse(url, lazy, isSafe, fetch, api, probe, decode)
  {
    if !Truthy(url) {
      return Failure(400, "No url provided");
    }
    if !isSafe(url.value) {
      return Failure(400, "URL not allowed");
    }
    var page := fetch(url.value);
    if page.None? {
      return Failure(500, "Failed to scrape the provided URL.");
    }
    var scrapeLazy := if lazy.Some? then lazy.value else true;
    var imgSrcs := CollectSources(page.value, url.value, api, scrapeLazy);
    var results := BuildRecords(page.value, imgSrcs, probe, decode);
    res := Records(results);
  }

  /**
    The handler rejects a missing URL and an unsafe one with 400, reports a failed
    fetch with 500, and otherwise answers with inline records first, then one record per
    distinct kept URL, none of them empty or a `data:` or `javascript:` URL.
   */
  lemma ScrapeSpec(url: Option<string>, lazy: Option<bool>, isSafe: string -> bool,
                   fetch: string -> Option<Document>, api: UrlApi,
                   probe: string -> Probe, decode: string -> Option<string>)
    ensures var res := ScrapeResponse(url, lazy, isSafe, fetch, api, probe, decode);
      (res.Failure? <==> !Truthy(url) || !isSafe(url.value) || fetch(url.value).None?) &&
      (res.Failure? ==> (res.status == 400 <==> !Truthy(url) || !isSafe(url.value))) &&
      (res.Records? ==>
        var out := res.records;
        (forall i, j :: 0 <= i < j < |out| && !out[i].inline ==> !out[j].inline) &&
        (forall i, j :: 0 <= i < j < |out| && !out[i].inline ==> out[i].url != out[j].url) &&
        (forall i :: 0 <= i < |out| && !out[i].inline ==> out[i].url.Some? && Keepable(out[i].url.value)) &&
        |out| == |Svgs(fetch(url.value).value)| + |CollectedUrls(fetch(url.value).value, url.value, api, if lazy.Some? then lazy.value else true)|)
  {
    var res := ScrapeResponse(url, lazy, isSafe, fetch, api, probe, decode);
    if res.Records? {
      var doc := fetch(url.value).value;
      var scrapeLazy := if lazy.Some? then lazy.value else true;
      var c := CollectedUrls(doc, url.value, api, scrapeLazy);
      var svgs := SvgRecords(doc);
      var remote := RemoteRecords(c, probe, decode);
      SvgRecordsSpec(doc);
      RemoteRecordsSpec(c, probe, decode);
      CollectedUrlsSpec(doc, url.value, api, scrapeLazy);
      var out := svgs + remote;
      assert res.records == out;
      forall i | 0 <= i < |out| && !out[i].inline
        ensures i >= |svgs| && out[i] == remote[i - |svgs|]
      {
      }
      forall i | 0 <= i < |out| && !out[i].inline
        ensures out[i].url.Some? && Keepable(out[i].url.value)
      {
        assert out[i].url == Some(c[i - |svgs|]);
        assert c[i - |svgs|] in c;
      }
    }
  }
}
