// Shared value types and the JavaScript string operations the modelled code relies on.

module Maybe {
  /** JavaScript's `null`/`undefined` (None) versus a present value (Some). */
  datatype Option<+T> = None | Some(value: T)
}

/** The WHATWG URL operations used by the server and the page, as functions supplied to the model. */
module UrlApis {
  import opened Maybe

  /**
    The `protocol` of `new URL(base)` and the `href` of `new URL(src, base)`; None stands
    for the constructor throwing.
   */
  datatype UrlApi = UrlApi(protocolOf: string -> Option<string>, resolve: (string, string) -> Option<string>)
}

/**
  The subset of `String.prototype` used by the modelled code, over Dafny strings.
  A Dafny `char` is a Unicode scalar value, so lengths count characters rather than
  UTF-16 code units; the two agree on text without astral-plane characters.
 */
module JsText {

  /** Characters removed by `trim()` and matched by `\s`: WhiteSpace and LineTerminator. */
  predicate IsWhitespace(c: char) {
    c == ' ' || c == '\t' || c == '\n' || c == '\r' || c == '\U{000B}' || c == '\U{000C}' ||
    c == '\U{00A0}' || c == '\U{1680}' || ('\U{2000}' <= c <= '\U{200A}') ||
    c == '\U{2028}' || c == '\U{2029}' || c == '\U{202F}' || c == '\U{205F}' ||
    c == '\U{3000}' || c == '\U{FEFF}'
  }

  /** Characters that `.` in a regular expression does not match. */
  predicate IsLineTerminator(c: char) {
    c == '\n' || c == '\r' || c == '\U{2028}' || c == '\U{2029}'
  }

  predicate StartsWith(s: string, prefix: string) {
    |prefix| <= |s| && s[..|prefix|] == prefix
  }

  predicate EndsWith(s: string, suffix: string) {
    |suffix| <= |s| && s[|s| - |suffix|..] == suffix
  }

  /** `s.includes(t)` */
  predicate Contains(s: string, t: string)
    decreases |s|
  {
    StartsWith(s, t) || (|s| > 0 && Contains(s[1..], t))
  }

  lemma {:induction false} ContainsAt(s: string, t: string, i: nat)
    requires i + |t| <= |s| && s[i..i + |t|] == t
    ensures Contains(s, t)
    decreases i
  {
    if i > 0 {
      assert s[1..][i - 1..i - 1 + |t|] == s[i..i + |t|];
      ContainsAt(s[1..], t, i - 1);
    }
  }

  lemma {:induction false} ContainsWitness(s: string, t: string) returns (i: nat)
    requires Contains(s, t)
    ensures i + |t| <= |s| && s[i..i + |t|] == t
    decreases |s|
  {
    if StartsWith(s, t) {
      i := 0;
    } else {
      var j := ContainsWitness(s[1..], t);
      i := j + 1;
      assert s[i..i + |t|] == s[1..][j..j + |t|];
    }
  }

  /** ASCII-only lower-casing. */
  function LowerChar(c: char): char {
    if 'A' <= c <= 'Z' then (c as int + 32) as char else c
  }

  function AsciiLower(s: string): (r: string)
    ensures |r| == |s|
    ensures forall i :: 0 <= i < |s| ==> r[i] == LowerChar(s[i])
  {
    if s == [] then [] else [LowerChar(s[0])] + AsciiLower(s[1..])
  }

  /** Case-insensitive substring test for a lower-case ASCII needle (a regex with the `i` flag). */
  predicate ContainsIgnoringCase(s: string, lowerNeedle: string) {
    Contains(AsciiLower(s), lowerNeedle)
  }

  // ---------------------------------------------------------------- trim

  function TrimStart(s: string): string {
    if s != [] && IsWhitespace(s[0]) then TrimStart(s[1..]) else s
  }

  function TrimEnd(s: string): string {
    if s != [] && IsWhitespace(s[|s| - 1]) then TrimEnd(s[..|s| - 1]) else s
  }

  /** `s.trim()` */
  function Trim(s: string): string {
    TrimEnd(TrimStart(s))
  }

  /** `trimStart` drops exactly the leading run of whitespace. */
  lemma {:induction false} TrimStartSpec(s: string)
    ensures var r := TrimStart(s);
      |r| <= |s| && r == s[|s| - |r|..] &&
      (r == [] || !IsWhitespace(r[0])) &&
      (forall i :: 0 <= i < |s| - |r| ==> IsWhitespace(s[i]))
    decreases |s|
  {
    if s != [] && IsWhitespace(s[0]) {
      TrimStartSpec(s[1..]);
    }
  }

  /** `trimEnd` drops exactly the trailing run of whitespace. */
  lemma {:induction false} TrimEndSpec(s: string)
    ensures var r := TrimEnd(s);
      |r| <= |s| && r == s[..|r|] &&
      (r == [] || !IsWhitespace(r[|r| - 1])) &&
      (forall i :: |r| <= i < |s| ==> IsWhitespace(s[i]))
    decreases |s|
  {
    if s != [] && IsWhitespace(s[|s| - 1]) {
      TrimEndSpec(s[..|s| - 1]);
    }
  }

  /** The result of `trim()` neither starts nor ends with whitespace. */
  lemma TrimEnds(s: string)
    ensures Trim(s) == [] || (!IsWhitespace(Trim(s)[0]) && !IsWhitespace(Trim(s)[|Trim(s)| - 1]))
  {
    var t := TrimStart(s);
    var r := TrimEnd(t);
    TrimStartSpec(s);
    TrimEndSpec(t);
    if r != [] {
      assert r[0] == t[0];
    }
  }

  /** Trimming a trimmed string changes nothing. */
  lemma TrimIdempotent(s: string)
    ensures Trim(Trim(s)) == Trim(s)
  {
    TrimEnds(s);
    var r := Trim(s);
    assert TrimStart(r) == r;
  }

  // ---------------------------------------------------------------- split / join

  /** `s.split(c)` for a one-character separator, generalised to a set of separator characters
      (`s.split(/[?#]/)`). Like JavaScript, the result is never empty. */
  function SplitAny(s: string, seps: set<char>): (r: seq<string>)
    ensures |r| >= 1
    decreases |s|
  {
    if s == [] then [""]
    else if s[0] in seps then [""] + SplitAny(s[1..], seps)
    else
      var rest := SplitAny(s[1..], seps);
      [[s[0]] + rest[0]] + rest[1..]
  }

  function Split(s: string, c: char): (r: seq<string>)
    ensures |r| >= 1
  {
    SplitAny(s, {c})
  }

  function Last<T>(s: seq<T>): T
    requires |s| > 0
  {
    s[|s| - 1]
  }

  function Join(parts: seq<string>, sep: string): string {
    if parts == [] then ""
    else if |parts| == 1 then parts[0]
    else parts[0] + sep + Join(parts[1..], sep)
  }

  /** No piece of a split holds a separator, and joining the pieces back restores the input. */
  lemma {:induction false} SplitJoin(s: string, c: char)
    ensures forall p :: p in Split(s, c) ==> c !in p
    ensures Join(Split(s, c), [c]) == s
    decreases |s|
  {
    if s != [] {
      SplitJoin(s[1..], c);
      var rest := Split(s[1..], c);
      if s[0] == c {
        assert Split(s, c) == [""] + rest;
      } else {
        assert Split(s, c) == [[s[0]] + rest[0]] + rest[1..];
        if |rest| > 1 {
          assert Join(rest, [c]) == rest[0] + [c] + Join(rest[1..], [c]);
          assert ([[s[0]] + rest[0]] + rest[1..])[1..] == rest[1..];
        }
      }
    }
  }

  /** `s.split(seps)[0]`: the longest prefix free of separators. */
  lemma {:induction false} FirstPiece(s: string, seps: set<char>)
    ensures var p := SplitAny(s, seps)[0];
      |p| <= |s| && p == s[..|p|] &&
      (forall i :: 0 <= i < |p| ==> p[i] !in seps) &&
      (|p| == |s| || s[|p|] in seps)
    decreases |s|
  {
    if s != [] && s[0] !in seps {
      FirstPiece(s[1..], seps);
      var q := SplitAny(s[1..], seps)[0];
      assert SplitAny(s, seps)[0] == [s[0]] + q;
      assert s == [s[0]] + s[1..];
    }
  }

  /** `s.split(c).pop()`: the longest suffix free of the separator. */
  lemma {:induction false} LastPiece(s: string, c: char)
    ensures var p := Last(Split(s, c));
      |p| <= |s| && p == s[|s| - |p|..] &&
      (forall i :: 0 <= i < |p| ==> p[i] != c) &&
      (|Split(s, c)| == 1 ==> p == s) &&
      (|Split(s, c)| > 1 ==> |p| < |s| && s[|s| - |p| - 1] == c)
    decreases |s|
  {
    if s != [] {
      var s1 := s[1..];
      LastPiece(s1, c);
      SplitStep(s, c);
      var q := Last(Split(s1, c));
      if s[0] == c || |Split(s1, c)| > 1 {
        assert Last(Split(s, c)) == q && |Split(s, c)| > 1;
        assert s[|s| - |q|..] == s1[|s1| - |q|..];
        if |Split(s1, c)| > 1 {
          assert s[|s| - |q| - 1] == s1[|s1| - |q| - 1];
        } else {
          assert |s| - |q| - 1 == 0;
        }
      } else {
        assert Split(s, c) == [[s[0]] + q];
        assert s == [s[0]] + s1;
      }
    }
  }

  /** How the pieces of `s` relate to those of its tail. */
  lemma SplitStep(s: string, c: char)
    requires s != []
    ensures var rest := Split(s[1..], c);
      (s[0] == c ==> |Split(s, c)| == |rest| + 1 && Last(Split(s, c)) == Last(rest)) &&
      (s[0] != c ==> |Split(s, c)| == |rest|) &&
      (s[0] != c && |rest| > 1 ==> Last(Split(s, c)) == Last(rest)) &&
      (s[0] != c && |rest| == 1 ==> Split(s, c) == [[s[0]] + rest[0]])
  {
    var rest := Split(s[1..], c);
    if s[0] == c {
      assert Split(s, c) == [""] + rest;
    } else {
      assert Split(s, c) == [[s[0]] + rest[0]] + rest[1..];
    }
  }

  // ---------------------------------------------------------------- numbers

  function DigitChar(d: nat): char
    requires d < 10
  {
    "0123456789"[d]
  }

  /** `String(n)` for a non-negative integer: its decimal digits. */
  function NatToString(n: nat): (r: string)
    ensures |r| >= 1
    ensures forall i :: 0 <= i < |r| ==> '0' <= r[i] <= '9'
  {
    if n < 10 then [DigitChar(n)] else NatToString(n / 10) + [DigitChar(n % 10)]
  }

  /** Reads a string of decimal digits back as a number. */
  function DecimalValue(s: string): nat {
    if s == [] then 0
    else
      var d := s[|s| - 1] as int - '0' as int;
      DecimalValue(s[..|s| - 1]) * 10 + (if 0 <= d < 10 then d else 0)
  }

  lemma {:induction false} DecimalRoundTrip(n: nat)
    ensures DecimalValue(NatToString(n)) == n
  {
    if n < 10 {
      DecimalAppendDigit([], n);
      assert [] + [DigitChar(n)] == NatToString(n);
    } else {
      DecimalRoundTrip(n / 10);
      DecimalAppendDigit(NatToString(n / 10), n % 10);
    }
  }

  /** Appending a digit multiplies the value by ten and adds the digit. */
  lemma DecimalAppendDigit(s: string, d: nat)
    requires d < 10
    ensures DecimalValue(s + [DigitChar(d)]) == DecimalValue(s) * 10 + d
  {
    var t := s + [DigitChar(d)];
    assert t[..|t| - 1] == s;
    assert t[|t| - 1] as int - '0' as int == d;
  }

  /** Distinct numbers print differently. */
  lemma NatToStringInjective(m: nat, n: nat)
    requires m != n
    ensures NatToString(m) != NatToString(n)
  {
    DecimalRoundTrip(m);
    DecimalRoundTrip(n);
  }
}
