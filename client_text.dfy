/**
  The page script's pure text helpers: label truncation, client-side URL resolution, and
  the line splitting, escaping and truncation done by `formatAndHighlightHTML`.
 */
module ClientText {
  import opened Maybe
  import opened JsText
  import opened UrlApis

  // ---------------------------------------------------------------- labels

  /** `String(text || '')` for a possibly-missing string. */
  function OrEmpty(text: Option<string>): string {
    if text.Some? then text.value else ""
  }

  /** `truncateText(text, maxLen)` */
  function TruncateText(text: Option<string>, maxLen: nat): (r: string)
    ensures var t := OrEmpty(text);
      |r| <= maxLen + 3 &&
      (|t| <= maxLen ==> r == t) &&
      (|t| > maxLen ==> |r| == maxLen + 3 && r[..maxLen] == t[..maxLen] && EndsWith(r, "..."))
  {
    var t := OrEmpty(text);
    if |t| > maxLen then t[..maxLen] + "..." else t
  }

  /** Truncating a truncated text changes nothing more. */
  lemma TruncateIdempotent(text: Option<string>, maxLen: nat)
    ensures TruncateText(Some(TruncateText(text, maxLen)), maxLen) == TruncateText(text, maxLen)
  {
    var t := OrEmpty(text);
    if |t| > maxLen {
      var r := TruncateText(text, maxLen);
      assert r[..maxLen] + "..." == r;
    }
  }

  /** `tabLabelFromUrl(url)`: the URL text truncated at thirty characters. */
  function TabLabelFromUrl(url: Option<string>): (r: string)
    ensures r == TruncateText(url, 30)
    ensures |r| <= 33
  {
    var text := OrEmpty(url);
    if |text| > 30 then text[..30] + "..." else text
  }

  // ---------------------------------------------------------------- resolveClientUrl

  predicate ScriptOrData(s: string) {
    StartsWith(s, "data:") || StartsWith(s, "javascript:")
  }

  /**
    `resolveClientUrl(base, src)`: a falsy source is returned unchanged; `data:` and
    `javascript:` sources come back trimmed; protocol-relative ones get the base's
    protocol; anything else is resolved against the base. Whenever resolution throws,
    the original source is returned.
   */
  function ResolveClientUrl(base: string, src: Option<string>, api: UrlApi): (r: Option<string>)
    ensures r.None? <==> src.None?
    ensures src.Some? && src.value != "" && !ScriptOrData(Trim(src.value)) && !StartsWith(Trim(src.value), "//") ==>
      r == if api.resolve(Trim(src.value), base).Some? then api.resolve(Trim(src.value), base) else src
  {
    if src.None? || src.value == "" then src
    else
      var trimmed := Trim(src.value);
      if ScriptOrData(trimmed) then Some(trimmed)
      else if StartsWith(trimmed, "//") then
        match api.protocolOf(base)
        case None => src
        case Some(p) => Some(p + trimmed)
      else
        match api.resolve(trimmed, base)
        case None => src
        case Some(href) => Some(href)
  }

  /**
    Fixed prefixes: empty input is returned as is; `data:`/`javascript:` input is
    returned trimmed, and resolving that again changes nothing; protocol-relative input
    becomes the base's protocol followed by the trimmed source, or the original source
    when the base does not parse.
   */
  lemma ResolveClientUrlPrefixes(base: string, src: string, api: UrlApi)
    ensures src == "" ==> ResolveClientUrl(base, Some(src), api) == Some("")
    ensures src != "" && ScriptOrData(Trim(src)) ==>
      ResolveClientUrl(base, Some(src), api) == Some(Trim(src)) &&
      ResolveClientUrl(base, ResolveClientUrl(base, Some(src), api), api) == Some(Trim(src))
    ensures src != "" && !ScriptOrData(Trim(src)) && StartsWith(Trim(src), "//") ==>
      ResolveClientUrl(base, Some(src), api) ==
        (if api.protocolOf(base).Some? then Some(api.protocolOf(base).value + Trim(src)) else Some(src))
  {
    TrimIdempotent(src);
  }

  // ---------------------------------------------------------------- formatAndHighlightHTML

  /** `s.replace(/c/g, rep)` for a single character `c`. */
  function ReplaceChar(s: string, c: char, rep: string): string
    decreases |s|
  {
    if s == [] then []
    else (if s[0] == c then rep else [s[0]]) + ReplaceChar(s[1..], c, rep)
  }

  lemma {:induction false} ReplaceCharAppend(a: string, b: string, c: char, rep: string)
    ensures ReplaceChar(a + b, c, rep) == ReplaceChar(a, c, rep) + ReplaceChar(b, c, rep)
    decreases |a|
  {
    if a == [] {
      assert a + b == b;
    } else {
      assert (a + b)[1..] == a[1..] + b;
      ReplaceCharAppend(a[1..], b, c, rep);
    }
  }

  lemma {:induction false} ReplaceCharAbsent(s: string, c: char, rep: string)
    requires forall k :: 0 <= k < |s| ==> s[k] != c
    ensures ReplaceChar(s, c, rep) == s
    decreases |s|
  {
    if s != [] {
      ReplaceCharAbsent(s[1..], c, rep);
    }
  }

  /** The entity escaping of each line: `&` first, then `<`, then `>`. */
  function EscapeHtml(s: string): string {
    ReplaceChar(ReplaceChar(ReplaceChar(s, '&', "&amp;"), '<', "&lt;"), '>', "&gt;")
  }

  /** The intended escaping of one character. */
  function EscapeChar(c: char): string {
    if c == '&' then "&amp;" else if c == '<' then "&lt;" else if c == '>' then "&gt;" else [c]
  }

  function EscapeEach(s: string): string
    decreases |s|
  {
    if s == [] then [] else EscapeChar(s[0]) + EscapeEach(s[1..])
  }

  lemma ReplaceCharSingle(x: char, c: char, rep: string)
    ensures ReplaceChar([x], c, rep) == if x == c then rep else [x]
  {
    assert [x][1..] == [];
  }

  /** The three passes escape every character on its own: escaping `&` first never re-escapes an entity. */
  lemma {:induction false} EscapeHtmlPerChar(s: string)
    ensures EscapeHtml(s) == EscapeEach(s)
    decreases |s|
  {
    if s != [] {
      var x := s[0];
      var rest := s[1..];
      assert s == [x] + rest;
      EscapeHtmlPerChar(rest);
      ReplaceCharAppend([x], rest, '&', "&amp;");
      var a1 := ReplaceChar([x], '&', "&amp;");
      var b1 := ReplaceChar(rest, '&', "&amp;");
      ReplaceCharAppend(a1, b1, '<', "&lt;");
      var a2 := ReplaceChar(a1, '<', "&lt;");
      var b2 := ReplaceChar(b1, '<', "&lt;");
      ReplaceCharAppend(a2, b2, '>', "&gt;");
      EscapeOneChar(x);
    }
  }

  /** The three passes applied to one character give its entity. */
  lemma EscapeOneChar(x: char)
    ensures ReplaceChar(ReplaceChar(ReplaceChar([x], '&', "&amp;"), '<', "&lt;"), '>', "&gt;") == EscapeChar(x)
  {
    ReplaceCharSingle(x, '&', "&amp;");
    if x == '&' {
      ReplaceCharAbsent("&amp;", '<', "&lt;");
      ReplaceCharAbsent("&amp;", '>', "&gt;");
    } else {
      ReplaceCharSingle(x, '<', "&lt;");
      if x == '<' {
        ReplaceCharAbsent("&lt;", '>', "&gt;");
      } else {
        ReplaceCharSingle(x, '>', "&gt;");
      }
    }
  }

  /** Escaped text holds no angle brackets, so no markup of the page survives into the listing. */
  lemma {:induction false} EscapeEachNoBrackets(s: string)
    ensures forall k :: 0 <= k < |EscapeEach(s)| ==> EscapeEach(s)[k] != '<' && EscapeEach(s)[k] != '>'
    decreases |s|
  {
    if s != [] {
      EscapeEachNoBrackets(s[1..]);
    }
  }

  /** Reads the three entities back. */
  function Unescape(s: string): string
    decreases |s|
  {
    if s == [] then []
    else if StartsWith(s, "&amp;") then "&" + Unescape(s[5..])
    else if StartsWith(s, "&lt;") then "<" + Unescape(s[4..])
    else if StartsWith(s, "&gt;") then ">" + Unescape(s[4..])
    else [s[0]] + Unescape(s[1..])
  }

  /** Unescaping reads one escaped character back and continues after it. */
  lemma UnescapeStep(x: char, rest: string)
    ensures Unescape(EscapeChar(x) + rest) == [x] + Unescape(rest)
  {
    if x == '&' {
      UnescapeEntity("&amp;", '&', rest);
    } else if x == '<' {
      UnescapeEntity("&lt;", '<', rest);
    } else if x == '>' {
      UnescapeEntity("&gt;", '>', rest);
    } else {
      var e := [x] + rest;
      assert e[0] == x && e[1..] == rest;
    }
  }

  lemma UnescapeEntity(entity: string, x: char, rest: string)
    requires (entity == "&amp;" && x == '&') || (entity == "&lt;" && x == '<') || (entity == "&gt;" && x == '>')
    ensures Unescape(entity + rest) == [x] + Unescape(rest)
  {
    var e := entity + rest;
    assert e[..|entity|] == entity && e[|entity|..] == rest;
    assert e[1] == entity[1];
  }

  lemma {:induction false} UnescapeEscapeEach(s: string)
    ensures Unescape(EscapeEach(s)) == s
    decreases |s|
  {
    if s != [] {
      UnescapeEscapeEach(s[1..]);
      UnescapeStep(s[0], EscapeEach(s[1..]));
      assert s == [s[0]] + s[1..];
    }
  }

  /** Escaping loses nothing and leaves no angle bracket. */
  lemma EscapeHtmlSpec(s: string)
    ensures Unescape(EscapeHtml(s)) == s
    ensures forall k :: 0 <= k < |EscapeHtml(s)| ==> EscapeHtml(s)[k] != '<' && EscapeHtml(s)[k] != '>'
  {
    EscapeHtmlPerChar(s);
    UnescapeEscapeEach(s);
    EscapeEachNoBrackets(s);
  }

  /** Escaping `<` before `&` would escape the ampersands of the entities it had just written. */
  lemma WrongOrderDoubleEscapes()
    ensures ReplaceChar(ReplaceChar("<", '<', "&lt;"), '&', "&amp;") == "&amp;lt;"
    ensures EscapeHtml("<") == "&lt;"
  {
    EscapeOneChar('<');
    ReplaceCharSingle('<', '<', "&lt;");
    var s := "&lt;";
    var tail := s[1..];
    assert s == "&" + tail;
    ReplaceCharAppend("&", tail, '&', "&amp;");
    ReplaceCharSingle('&', '&', "&amp;");
    ReplaceCharAbsent(tail, '&', "&amp;");
    assert ReplaceChar(s, '&', "&amp;") == "&amp;" + tail;
  }

  /** `.replace(/></g, '>\n<')` */
  function BreakBetweenTags(s: string): (r: string)
    ensures s != [] ==> r != [] && r[0] == s[0]
    decreases |s|
  {
    if s == [] then []
    else if StartsWith(s, "><") then ">\n<" + BreakBetweenTags(s[2..])
    else [s[0]] + BreakBetweenTags(s[1..])
  }

  /** No tag close is directly followed by a tag open. */
  predicate NoTagPair(r: string) {
    forall k :: 0 <= k < |r| - 1 ==> !(r[k] == '>' && r[k + 1] == '<')
  }

  /** After the first replacement no tag close is directly followed by a tag open. */
  lemma {:induction false} BreakBetweenTagsSpec(s: string)
    ensures NoTagPair(BreakBetweenTags(s))
    decreases |s|
  {
    if s != [] {
      if StartsWith(s, "><") {
        BreakBetweenTagsSpec(s[2..]);
        var t := BreakBetweenTags(s[2..]);
        var r := ">\n<" + t;
        assert r == BreakBetweenTags(s);
        forall k | 0 <= k < |r| - 1 ensures !(r[k] == '>' && r[k + 1] == '<') {
          if k >= 3 {
            assert r[k] == t[k - 3] && r[k + 1] == t[k - 2];
          } else if k == 0 { assert r[1] == '\n'; }
          else if k == 1 { assert r[1] == '\n'; }
          else { assert r[2] == '<'; }
        }
      } else {
        BreakBetweenTagsSpec(s[1..]);
        var t := BreakBetweenTags(s[1..]);
        var r := [s[0]] + t;
        assert r == BreakBetweenTags(s);
        forall k | 0 <= k < |r| - 1 ensures !(r[k] == '>' && r[k + 1] == '<') {
          if k >= 1 {
            assert r[k] == t[k - 1] && r[k + 1] == t[k];
          } else if s[0] == '>' {
            assert t[0] == s[1];
          }
        }
      }
    }
  }

  /** The length of the run of whitespace at the start of `s`. */
  function WhitespaceRun(s: string): (n: nat)
    ensures n <= |s|
    decreases |s|
  {
    if s != [] && IsWhitespace(s[0]) then 1 + WhitespaceRun(s[1..]) else 0
  }

  /**
    `.replace(/\s*\/>/g, ' />')`: at each position the greedy `\s*` takes the whole run of
    whitespace, which can only be followed by `/>` there; otherwise the scan moves on.
   */
  function SpaceBeforeSelfClose(s: string): string
    decreases |s|
  {
    if s == [] then []
    else
      var w := WhitespaceRun(s);
      if StartsWith(s[w..], "/>") then " />" + SpaceBeforeSelfClose(s[w + 2..])
      else [s[0]] + SpaceBeforeSelfClose(s[1..])
  }

  /** The normalised markup begins with a space or with the first character of the input. */
  lemma SpaceBeforeSelfCloseHead(s: string)
    requires s != []
    ensures SpaceBeforeSelfClose(s) != []
    ensures SpaceBeforeSelfClose(s)[0] == ' ' || SpaceBeforeSelfClose(s)[0] == s[0]
  {
  }

  /** The normalised markup never opens with `/>`: a leading `/>` is always given its space. */
  lemma SpaceBeforeSelfCloseNoLead(s: string)
    ensures var r := SpaceBeforeSelfClose(s);
      !(|r| >= 2 && r[0] == '/' && r[1] == '>')
  {
    if s != [] {
      var w := WhitespaceRun(s);
      if !StartsWith(s[w..], "/>") && |s| >= 2 {
        SpaceBeforeSelfCloseHead(s[1..]);
        if s[0] == '/' {
          assert w == 0;
        }
      }
    }
  }

  /** After `.replace(/\s*\/>/g, ' />')` every `/>` has a space right before it. */
  lemma {:induction false} SpaceBeforeSelfCloseSpec(s: string)
    ensures var r := SpaceBeforeSelfClose(s);
      forall k :: 0 <= k < |r| - 1 && r[k] == '/' && r[k + 1] == '>' ==> 0 < k && r[k - 1] == ' '
    decreases |s|
  {
    if s != [] {
      var w := WhitespaceRun(s);
      var r := SpaceBeforeSelfClose(s);
      if StartsWith(s[w..], "/>") {
        var rest := s[w + 2..];
        var t := SpaceBeforeSelfClose(rest);
        SpaceBeforeSelfCloseSpec(rest);
        SpaceBeforeSelfCloseNoLead(rest);
        assert r == " />" + t;
        forall k | 0 <= k < |r| - 1 && r[k] == '/' && r[k + 1] == '>'
          ensures 0 < k && r[k - 1] == ' '
        {
          if k >= 3 {
            assert r[k] == t[k - 3] && r[k + 1] == t[k - 2];
            if k > 3 {
              assert r[k - 1] == t[k - 4];
            }
          }
        }
      } else {
        var t := SpaceBeforeSelfClose(s[1..]);
        SpaceBeforeSelfCloseSpec(s[1..]);
        SpaceBeforeSelfCloseNoLead(s[1..]);
        SpaceBeforeSelfCloseNoLead(s);
        assert r == [s[0]] + t;
        forall k | 0 <= k < |r| - 1 && r[k] == '/' && r[k + 1] == '>'
          ensures 0 < k && r[k - 1] == ' '
        {
          assert r[k] == t[k - 1] && r[k + 1] == t[k];
          if k > 1 {
            assert r[k - 1] == t[k - 2];
          }
        }
      }
    }
  }

  /** Markup without a `/` is left exactly as it was. */
  lemma {:induction false} SpaceBeforeSelfCloseNoSlash(s: string)
    requires forall k :: 0 <= k < |s| ==> s[k] != '/'
    ensures SpaceBeforeSelfClose(s) == s
    decreases |s|
  {
    if s != [] {
      var w := WhitespaceRun(s);
      assert !StartsWith(s[w..], "/>") by {
        if w < |s| {
          assert s[w..][0] == s[w];
        }
      }
      assert SpaceBeforeSelfClose(s) == [s[0]] + SpaceBeforeSelfClose(s[1..]);
      SpaceBeforeSelfCloseNoSlash(s[1..]);
      assert s == [s[0]] + s[1..];
    }
  }

  /** The markup reformatted for display: tags broken onto lines, self-closing tags normalised, trimmed. */
  function Formatted(html: string): string {
    Trim(SpaceBeforeSelfClose(BreakBetweenTags(html)))
  }

  /** The listing's lines before highlighting. */
  function SourceLines(html: string): (r: seq<string>)
    ensures |r| >= 1
  {
    Split(Formatted(html), '\n')
  }

  const MaxLinesToHighlight: nat := 500
  const LongLine: nat := 1000

  function CodeLine(inner: string): string {
    "<span class=\"code-line\">" + inner + "</span>"
  }

  /**
    One displayed line: escaped, then passed to the syntax highlighter `highlight` unless
    the escaped line is longer than 1000 characters.
   */
  function HighlightLine(line: string, highlight: string -> string): string {
    var escaped := EscapeHtml(line);
    if |escaped| > LongLine then CodeLine(escaped) else CodeLine(highlight(escaped))
  }

  function HighlightAll(lines: seq<string>, highlight: string -> string): (r: seq<string>)
    ensures |r| == |lines|
    decreases |lines|
  {
    if lines == [] then [] else [HighlightLine(lines[0], highlight)] + HighlightAll(lines[1..], highlight)
  }

  /** Line `i` of the listing is source line `i`, processed on its own. */
  lemma {:induction false} HighlightAllSpec(lines: seq<string>, highlight: string -> string)
    ensures forall i :: 0 <= i < |lines| ==> HighlightAll(lines, highlight)[i] == HighlightLine(lines[i], highlight)
    decreases |lines|
  {
    if lines != [] {
      HighlightAllSpec(lines[1..], highlight);
    }
  }

  /** The notice closing a truncated listing. */
  function MoreLinesNotice(more: nat): string {
    "<span class=\"code-line comment\">... (" + NatToString(more) + " more lines)</span>"
  }

  /** The displayed lines, before they are joined with newlines. */
  function DisplayLines(html: string, highlight: string -> string): seq<string> {
    Listing(SourceLines(html), highlight)
  }

  /** The first 500 lines processed, then the notice if any were left out. */
  function Listing(lines: seq<string>, highlight: string -> string): seq<string> {
    if |lines| > MaxLinesToHighlight then
      HighlightAll(lines[..MaxLinesToHighlight], highlight) + [MoreLinesNotice(|lines| - MaxLinesToHighlight)]
    else
      HighlightAll(lines, highlight)
  }

  /**
    At most 500 lines are highlighted, each the escaped source line at that position;
    when there are more, exactly one further line follows, reporting how many were left out.
   */
  lemma DisplayLinesSpec(html: string, highlight: string -> string)
    ensures var lines := SourceLines(html);
      var out := DisplayLines(html, highlight);
      var shown := if |lines| > MaxLinesToHighlight then MaxLinesToHighlight else |lines|;
      |out| == shown + (if |lines| > MaxLinesToHighlight then 1 else 0) &&
      |out| <= MaxLinesToHighlight + 1 &&
      (forall i :: 0 <= i < shown ==> out[i] == HighlightLine(lines[i], highlight)) &&
      (|lines| > MaxLinesToHighlight ==> out[shown] == MoreLinesNotice(|lines| - MaxLinesToHighlight))
  {
    var lines := SourceLines(html);
    if |lines| > MaxLinesToHighlight {
      var head := lines[..MaxLinesToHighlight];
      HighlightAllSpec(head, highlight);
      assert forall i :: 0 <= i < MaxLinesToHighlight ==> head[i] == lines[i];
    } else {
      HighlightAllSpec(lines, highlight);
    }
  }

  /** The truncation notice names the count: different counts give different notices. */
  lemma NoticeCount(m: nat, n: nat)
    requires m != n
    ensures MoreLinesNotice(m) != MoreLinesNotice(n)
  {
    NatToStringInjective(m, n);
    var pre := "<span class=\"code-line comment\">... (";
    var a, b := NatToString(m), NatToString(n);
    if |a| == |b| {
      assert MoreLinesNotice(m)[|pre|..|pre| + |a|] == a;
      assert MoreLinesNotice(n)[|pre|..|pre| + |b|] == b;
    } else {
      assert |MoreLinesNotice(m)| != |MoreLinesNotice(n)|;
    }
  }

  /** The `linesToProcess.map(...)` step: each line escaped, then highlighted unless it is long. */
  method HighlightLines(linesToProcess: seq<string>, highlight: string -> string) returns (highlightedLines: seq<string>)
    ensures highlightedLines == HighlightAll(linesToProcess, highlight)
  {
    highlightedLines := [];
    for i := 0 to |linesToProcess|
      invariant |highlightedLines| == i
      invariant forall k :: 0 <= k < i ==> highlightedLines[k] == HighlightLine(linesToProcess[k], highlight)
    {
      var highlighted := EscapeHtml(linesToProcess[i]);
      if |highlighted| > LongLine {
        highlighted := CodeLine(highlighted);
      } else {
        highlighted := CodeLine(highlight(highlighted));
      }
      highlightedLines := highlightedLines + [highlighted];
    }
    HighlightAllSpec(linesToProcess, highlight);
  }

  /** `formatAndHighlightHTML(html)`: the listing built line by line and joined with newlines. */
  method FormatAndHighlightHtml(html: string, highlight: string -> string) returns (out: string)
    ensures out == Join(DisplayLines(html, highlight), "\n")
  {
    var lines := SourceLines(html);
    var shouldTruncate := |lines| > MaxLinesToHighlight;
    var linesToProcess := if shouldTruncate then lines[..MaxLinesToHighlight] else lines;
    var highlightedLines := HighlightLines(linesToProcess, highlight);
    if shouldTruncate {
      highlightedLines := highlightedLines + [MoreLinesNotice(|lines| - MaxLinesToHighlight)];
    }
    out := Join(highlightedLines, "\n");
  }
}
