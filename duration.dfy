/**
 * Duration text of the details panel: `formatDuration` writes "Xh Ym" and
 * `parseDuration` reads it with the regular expression `(\d+)h\s*(\d*)m?`.
 */
module Duration {
  import opened Wrappers
  import opened Text
  import Clock

  /** `formatDuration`: `${Math.floor(m / 60)}h ${m % 60}m`, with JavaScript's `%`. */
  function Format(minutes: int): string {
    IntString(minutes / 60) + "h " + IntString(Clock.JsRem(minutes)) + "m"
  }

  /** The characters JavaScript's `\s` matches. */
  predicate IsSpace(c: char) {
    c == ' ' || c == '\t' || c == '\n' || c == '\r' || c == '\U{000B}' || c == '\U{000C}'
    || c == '\U{00A0}' || c == '\U{1680}' || ('\U{2000}' <= c <= '\U{200A}')
    || c == '\U{2028}' || c == '\U{2029}' || c == '\U{202F}' || c == '\U{205F}'
    || c == '\U{3000}' || c == '\U{FEFF}'
  }

  /** End of the longest run of digits starting at `i` (what a greedy `\d*` consumes). */
  function DigitRunEnd(s: string, i: nat): (j: nat)
    requires i <= |s|
    ensures i <= j <= |s| && AllDigits(s[i..j])
    ensures j == |s| || !IsDigit(s[j])
    decreases |s| - i
  {
    if i < |s| && IsDigit(s[i]) then DigitRunEnd(s, i + 1) else i
  }

  /** End of the longest run of whitespace starting at `i` (what a greedy `\s*` consumes). */
  function SpaceRunEnd(s: string, i: nat): (j: nat)
    requires i <= |s|
    ensures i <= j <= |s|
    ensures forall k :: i <= k < j ==> IsSpace(s[k])
    ensures j == |s| || !IsSpace(s[j])
    decreases |s| - i
  {
    if i < |s| && IsSpace(s[i]) then SpaceRunEnd(s, i + 1) else i
  }

  /** The two capture groups of a match. */
  datatype Groups = Groups(hours: string, minutes: string)

  /**
   * The match of `(\d+)h\s*(\d*)m?` starting exactly at `p`, if any. `\d+` must be
   * followed by `h`, and every shorter run of digits is followed by a digit, so only
   * the whole run can be taken; the rest of the pattern always matches.
   */
  function MatchAt(s: string, p: nat): Option<Groups>
    requires p <= |s|
  {
    if p < |s| && IsDigit(s[p]) then
      var q := DigitRunEnd(s, p);
      if q < |s| && s[q] == 'h' then
        var w := SpaceRunEnd(s, q + 1);
        Some(Groups(s[p..q], s[w..DigitRunEnd(s, w)]))
      else None
    else None
  }

  /** Some digits begin at `p` and are directly followed by `h`. */
  ghost predicate HoursAt(s: string, p: nat) {
    exists q :: p < q < |s| && AllDigits(s[p..q]) && s[q] == 'h'
  }

  /** A match starts at `p` exactly when a run of digits followed by `h` starts there. */
  lemma MatchAtSpec(s: string, p: nat)
    requires p <= |s|
    ensures MatchAt(s, p).Some? <==> HoursAt(s, p)
  {
    if HoursAt(s, p) {
      var q :| p < q < |s| && AllDigits(s[p..q]) && s[q] == 'h';
      assert IsDigit(s[p..q][0]);
      DigitRunTo(s, p, q);
    }
  }

  /** Start of the leftmost match at or after `p`, or `|s| + 1` when there is none. */
  function FirstMatch(s: string, p: nat): (q: nat)
    requires p <= |s| + 1
    ensures p <= q <= |s| + 1
    ensures q <= |s| ==> MatchAt(s, q).Some?
    decreases |s| + 1 - p
  {
    if p > |s| then p
    else if MatchAt(s, p).Some? then p
    else FirstMatch(s, p + 1)
  }

  /**
   * `parseDuration`: hours times 60 plus minutes, where an empty minutes group reads as 0
   * (`parseInt('') || 0`). Without a match `text.match` is `null` and reading its first
   * group throws; that failure is `None`.
   */
  function Parse(text: string): Option<nat> {
    var q := FirstMatch(text, 0);
    if q > |text| then None
    else
      var g := MatchAt(text, q).value;
      var hours := DigitsValue(g.hours);
      var minutes := if g.minutes == [] then 0 else DigitsValue(g.minutes);
      Some(hours * 60 + minutes)
  }

  /** No match starts before the leftmost one. */
  lemma {:induction false} FirstMatchIsLeftmost(s: string, p: nat, k: nat)
    requires p <= k <= |s| && k < FirstMatch(s, p)
    ensures MatchAt(s, k).None?
    decreases |s| + 1 - p
  {
    if k > p {
      FirstMatchIsLeftmost(s, p + 1, k);
    }
  }

  /** Reading fails exactly when no run of digits anywhere in the text is followed by `h`. */
  lemma ParseFailsWithoutHours(text: string)
    ensures Parse(text).None? <==> forall p :: 0 <= p <= |text| ==> !HoursAt(text, p)
  {
    forall p | 0 <= p <= |text|
      ensures MatchAt(text, p).Some? <==> HoursAt(text, p)
    {
      MatchAtSpec(text, p);
    }
    if Parse(text).None? {
      forall p | 0 <= p <= |text|
        ensures MatchAt(text, p).None?
      {
        FirstMatchIsLeftmost(text, 0, p);
      }
    }
  }

  /** A greedy `\d*` from `i` stops at `j` when `i..j` are digits and `j` is not. */
  lemma {:induction false} DigitRunTo(s: string, i: nat, j: nat)
    requires i <= j <= |s| && AllDigits(s[i..j])
    requires j == |s| || !IsDigit(s[j])
    ensures DigitRunEnd(s, i) == j
    decreases j - i
  {
    if i < j {
      assert IsDigit(s[i..j][0]);
      assert s[i + 1..j] == s[i..j][1..];
      DigitRunTo(s, i + 1, j);
    }
  }

  /** A greedy `\s*` from `i` stops at `j` when `i..j` are spaces and `j` is not. */
  lemma {:induction false} SpaceRunTo(s: string, i: nat, j: nat)
    requires i <= j <= |s| && forall k :: i <= k < j ==> IsSpace(s[k])
    requires j == |s| || !IsSpace(s[j])
    ensures SpaceRunEnd(s, i) == j
    decreases j - i
  {
    if i < j {
      SpaceRunTo(s, i + 1, j);
    }
  }

  /**
   * The leftmost match is at the first character when digits run up to an `h` at `q`,
   * spaces run up to `w` and digits run from `w` up to `e`; its groups are those runs.
   */
  lemma MatchAtRuns(s: string, q: nat, w: nat, e: nat)
    requires 0 < q < w <= e <= |s|
    requires AllDigits(s[..q]) && s[q] == 'h'
    requires forall k :: q < k < w ==> IsSpace(s[k])
    requires w == |s| || !IsSpace(s[w])
    requires AllDigits(s[w..e]) && (e == |s| || !IsDigit(s[e]))
    ensures MatchAt(s, 0) == Some(Groups(s[..q], s[w..e]))
    ensures FirstMatch(s, 0) == 0
  {
    assert IsDigit(s[..q][0]);
    assert s[0..q] == s[..q];
    DigitRunTo(s, 0, q);
    SpaceRunTo(s, q + 1, w);
    DigitRunTo(s, w, e);
  }

  /**
   * When the leftmost match is at the start and its groups denote `v` (an empty
   * minutes group counting 0), the text reads as `v`.
   */
  lemma ParseOfMatch(s: string, g: Groups, v: nat)
    requires FirstMatch(s, 0) == 0 && MatchAt(s, 0) == Some(g)
    requires AllDigits(g.hours) && AllDigits(g.minutes)
    requires v == DigitsValue(g.hours) * 60 + if g.minutes == [] then 0 else DigitsValue(g.minutes)
    ensures Parse(s) == Some(v)
  {
  }

  /**
   * Text whose digits run up to an `h` at `q`, then spaces up to `w`, then digits up
   * to `e`, reads as the first run in hours plus the second in minutes (none counting 0).
   */
  lemma ParseRuns(s: string, q: nat, w: nat, e: nat, h: string, r: string, v: nat)
    requires 0 < q < w <= e <= |s|
    requires AllDigits(s[..q]) && s[q] == 'h'
    requires forall k :: q < k < w ==> IsSpace(s[k])
    requires w == |s| || !IsSpace(s[w])
    requires AllDigits(s[w..e]) && (e == |s| || !IsDigit(s[e]))
    requires s[..q] == h && s[w..e] == r
    requires v == DigitsValue(h) * 60 + if r == [] then 0 else DigitsValue(r)
    ensures Parse(s) == Some(v)
  {
    MatchAtRuns(s, q, w, e);
    ParseOfMatch(s, Groups(h, r), v);
  }

  /**
   * Text shaped `<digits>h<blanks><digits><rest>`, where `rest` starts with neither a
   * digit nor (when the second run is empty) a space, reads as the first run in hours
   * plus the second in minutes.
   */
  lemma ParseOfShape(h: string, sp: string, r: string, rest: string, v: nat)
    requires |h| >= 1 && AllDigits(h) && AllDigits(r)
    requires forall k :: 0 <= k < |sp| ==> sp[k] == ' '
    requires r + rest == [] || !IsSpace((r + rest)[0])
    requires rest == [] || !IsDigit(rest[0])
    requires v == DigitsValue(h) * 60 + if r == [] then 0 else DigitsValue(r)
    ensures Parse(h + ['h'] + sp + r + rest) == Some(v)
  {
    var s := h + ['h'] + sp + r + rest;
    var q := |h|;
    var w := q + 1 + |sp|;
    var e := w + |r|;
    assert s[..q] == h && s[q] == 'h';
    assert s[w..e] == r;
    assert w < |s| ==> s[w] == (r + rest)[0];
    assert e < |s| ==> s[e] == rest[0];
    forall k | q < k < w
      ensures IsSpace(s[k])
    {
      assert s[k] == sp[k - q - 1];
    }
    ParseRuns(s, q, w, e, h, r, v);
  }

  /** A non-negative duration is written as plain digits, "h ", plain digits, "m". */
  lemma FormatOnGrid(m: nat)
    ensures Format(m) == Digits(m / 60) + ['h'] + [' '] + Digits(m % 60) + ['m']
  {
    assert IntString(m / 60) == Digits(m / 60);
    assert IntString(Clock.JsRem(m)) == Digits(m % 60);
  }

  /** For every non-negative number of minutes, `parseDuration(formatDuration(m)) == m`. */
  lemma ParseFormat(m: nat)
    ensures Parse(Format(m)) == Some(m)
  {
    FormatOnGrid(m);
    DigitsRoundTrip(m / 60);
    DigitsRoundTrip(m % 60);
    ParseOfShape(Digits(m / 60), [' '], Digits(m % 60), ['m'], m);
  }

  /** Text that names hours and no minutes, "Xh", is X hours: the empty minutes group counts 0. */
  lemma HoursOnly(hours: nat)
    ensures Parse(Digits(hours) + "h") == Some(hours * 60)
  {
    var h := Digits(hours);
    assert h + "h" == h + ['h'] + [] + [] + [];
    DigitsRoundTrip(hours);
    ParseOfShape(h, [], [], [], hours * 60);
  }
}
