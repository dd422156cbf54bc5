/**
 * `sanitize_string`: every line trimmed of surrounding whitespace, and the lines
 * joined with nothing between them.
 */
module Sanitize {
  import opened Options

  // ---------------------------------------------------------------------------
  // Whitespace and trimming

  /** `char::is_whitespace`: ASCII space, tab to carriage return, and the other Unicode `White_Space` characters. */
  predicate IsWhitespace(c: char) {
    || c == ' '
    || ('\t' <= c <= '\r')
    || c == '\U{85}' || c == '\U{A0}' || c == '\U{1680}'
    || ('\U{2000}' <= c <= '\U{200A}')
    || c == '\U{2028}' || c == '\U{2029}' || c == '\U{202F}' || c == '\U{205F}' || c == '\U{3000}'
  }

  /** The end of the run of whitespace that starts at `k`. */
  function WhitespaceEnd(s: string, k: nat): (r: nat)
    requires k <= |s|
    ensures k <= r <= |s|
    ensures forall i :: k <= i < r ==> IsWhitespace(s[i])
    ensures r < |s| ==> !IsWhitespace(s[r])
    decreases |s| - k
  {
    if k < |s| && IsWhitespace(s[k]) then WhitespaceEnd(s, k + 1) else k
  }

  /** The start of the run of whitespace that ends at `hi`, going no lower than `lo`. */
  function WhitespaceStart(s: string, lo: nat, hi: nat): (r: nat)
    requires lo <= hi <= |s|
    ensures lo <= r <= hi
    ensures forall i :: r <= i < hi ==> IsWhitespace(s[i])
    ensures r > lo ==> !IsWhitespace(s[r - 1])
    decreases hi
  {
    if lo < hi && IsWhitespace(s[hi - 1]) then WhitespaceStart(s, lo, hi - 1) else hi
  }

  /** Trimmed: empty, or neither starting nor ending with whitespace. */
  predicate Trimmed(s: string) {
    s == [] || (!IsWhitespace(s[0]) && !IsWhitespace(s[|s| - 1]))
  }

  /** Where the trimmed part of `s` starts and ends. */
  function TrimStart(s: string): nat {
    WhitespaceEnd(s, 0)
  }

  function TrimEnd(s: string): (r: nat)
    ensures TrimStart(s) <= r <= |s|
  {
    WhitespaceStart(s, TrimStart(s), |s|)
  }

  /** `str::trim`: the string without its leading and trailing whitespace. */
  function Trim(s: string): (r: string)
    ensures Trimmed(r)
    ensures forall c :: c in r ==> c in s
  {
    s[TrimStart(s)..TrimEnd(s)]
  }

  /** Trimming removes whitespace only, and only at the two ends. */
  lemma TrimRemovesOnlyEdgeWhitespace(s: string)
    ensures s == s[..TrimStart(s)] + Trim(s) + s[TrimEnd(s)..]
    ensures forall i :: 0 <= i < TrimStart(s) ==> IsWhitespace(s[i])
    ensures forall i :: TrimEnd(s) <= i < |s| ==> IsWhitespace(s[i])
  {
    SplitInThree(s, TrimStart(s), TrimEnd(s));
  }

  lemma SplitInThree(s: string, a: nat, b: nat)
    requires a <= b <= |s|
    ensures s == s[..a] + s[a..b] + s[b..]
  {
    assert s[..a] + s[a..b] == s[..b];
    assert s[..b] + s[b..] == s;
  }

  /** A trimmed string is left as it is; so trimming twice is trimming once. */
  lemma TrimOfTrimmed(s: string)
    requires Trimmed(s)
    ensures Trim(s) == s
  {
    assert WhitespaceEnd(s, 0) == 0;
    assert WhitespaceStart(s, 0, |s|) == |s|;
    assert s[0..|s|] == s;
  }

  // ---------------------------------------------------------------------------
  // Lines

  /** The first `'\n'` at or after `k`. */
  function NewlineFrom(s: string, k: nat): (r: Option<nat>)
    requires k <= |s|
    ensures r.Some? ==> k <= r.value < |s| && s[r.value] == '\n'
    ensures r.Some? ==> forall j :: k <= j < r.value ==> s[j] != '\n'
    ensures r.None? ==> forall j :: k <= j < |s| ==> s[j] != '\n'
    decreases |s| - k
  {
    if k == |s| then None
    else if s[k] == '\n' then Some(k)
    else NewlineFrom(s, k + 1)
  }

  /** A line ended by `"\r\n"` loses its `'\r'` too. */
  function StripCarriageReturn(line: string): (r: string)
    ensures forall c :: c in r ==> c in line
  {
    if |line| > 0 && line[|line| - 1] == '\r' then line[..|line| - 1] else line
  }

  /**
   * `str::lines`: split at every `'\n'`, dropping a `'\r'` just before it; the
   * last line needs no terminator, and a final terminator adds no empty line.
   */
  function Lines(s: string): seq<string>
    decreases |s|
  {
    if s == [] then []
    else
      match NewlineFrom(s, 0)
      case None => [s]
      case Some(k) => [StripCarriageReturn(s[..k])] + Lines(s[k + 1..])
  }

  /** No line holds a `'\n'`. */
  lemma {:induction false} LinesHaveNoNewline(s: string)
    ensures forall i :: 0 <= i < |Lines(s)| ==> '\n' !in Lines(s)[i]
    decreases |s|
  {
    if s != [] {
      match NewlineFrom(s, 0)
      case None =>
      case Some(k) =>
        LinesHaveNoNewline(s[k + 1..]);
        assert '\n' !in s[..k];
    }
  }

  /** Each line followed by a `'\n'`, all joined. */
  function Terminated(lines: seq<string>): string {
    if lines == [] then "" else lines[0] + "\n" + Terminated(lines[1..])
  }

  /** The input, completed with a final `'\n'` if it lacked one. */
  function Completed(s: string): string {
    if s == [] || s[|s| - 1] == '\n' then s else s + "\n"
  }

  /**
   * Without carriage returns, putting the terminators back gives the input,
   * completed with a final `'\n'` if it lacked one.
   */
  lemma {:induction false} LinesRoundTrip(s: string)
    requires '\r' !in s
    ensures Terminated(Lines(s)) == Completed(s)
    decreases |s|
  {
    if s != [] {
      match NewlineFrom(s, 0)
      case None =>
        assert Lines(s) == [s];
        assert Terminated([s]) == s + "\n" + Terminated([]);
      case Some(k) =>
        var rest := s[k + 1..];
        LinesRoundTrip(rest);
        FirstLineKept(s, k);
        assert Terminated(Lines(s)) == s[..k] + "\n" + Terminated(Lines(rest));
        CompletedAfterNewline(s, k);
    }
  }

  /** Completing the part after a `'\n'` completes the whole. */
  lemma CompletedAfterNewline(s: string, k: nat)
    requires k < |s| && s[k] == '\n'
    ensures Completed(s) == s[..k] + "\n" + Completed(s[k + 1..])
  {
    SplitInThree(s, k, k + 1);
    assert s[k..k + 1] == "\n";
  }

  /** Without carriage returns, the first line is everything before the first `'\n'`. */
  lemma FirstLineKept(s: string, k: nat)
    requires '\r' !in s && s != [] && NewlineFrom(s, 0) == Some(k)
    ensures Lines(s) == [s[..k]] + Lines(s[k + 1..])
  {
    assert '\r' !in s[..k];
    if |s[..k]| > 0 {
      assert s[..k][|s[..k]| - 1] in s[..k];
    }
  }

  // ---------------------------------------------------------------------------
  // The sanitizer

  /** The first `n` lines, each trimmed, joined with nothing between them. */
  function JoinTrimmed(lines: seq<string>, n: nat): (r: string)
    requires n <= |lines|
  {
    if n == 0 then "" else JoinTrimmed(lines, n - 1) + Trim(lines[n - 1])
  }

  function Sanitized(s: string): string {
    JoinTrimmed(Lines(s), |Lines(s)|)
  }

  /** `sanitize_string`: a loop over the lines pushing each one trimmed. */
  method SanitizeString(s: string) returns (contents: string)
    ensures contents == Sanitized(s)
  {
    contents := "";
    var lines := Lines(s);
    var i := 0;
    while i < |lines|
      invariant i <= |lines|
      invariant contents == JoinTrimmed(lines, i)
    {
      contents := contents + Trim(lines[i]);
      i := i + 1;
    }
  }

  /** Joined trimmed lines hold no `'\n'` unless a line did, and are themselves trimmed. */
  lemma {:induction false} JoinTrimmedShape(lines: seq<string>, n: nat)
    requires n <= |lines|
    requires forall i :: 0 <= i < |lines| ==> '\n' !in lines[i]
    ensures '\n' !in JoinTrimmed(lines, n)
    ensures Trimmed(JoinTrimmed(lines, n))
  {
    if n > 0 {
      JoinTrimmedShape(lines, n - 1);
      var t := Trim(lines[n - 1]);
      assert '\n' !in t;
      TrimmedConcat(JoinTrimmed(lines, n - 1), t);
    }
  }

  lemma TrimmedConcat(a: string, b: string)
    requires Trimmed(a) && Trimmed(b)
    ensures Trimmed(a + b)
  {
    if a != [] && b != [] {
      assert (a + b)[0] == a[0];
      assert (a + b)[|a + b| - 1] == b[|b| - 1];
    } else if a == [] {
      assert a + b == b;
    } else {
      assert a + b == a;
    }
  }

  /** The output holds no newline: the lines are glued together. */
  lemma SanitizedHasNoNewline(s: string)
    ensures '\n' !in Sanitized(s)
    ensures Trimmed(Sanitized(s))
  {
    LinesHaveNoNewline(s);
    JoinTrimmedShape(Lines(s), |Lines(s)|);
  }

  /** Sanitizing twice is sanitizing once. */
  lemma SanitizeIsIdempotent(s: string)
    ensures Sanitized(Sanitized(s)) == Sanitized(s)
  {
    var t := Sanitized(s);
    SanitizedHasNoNewline(s);
    if t != [] {
      assert NewlineFrom(t, 0) == None;
      assert Lines(t) == [t];
      TrimOfTrimmed(t);
      assert JoinTrimmed([t], 1) == "" + t == t;
    }
  }
}
