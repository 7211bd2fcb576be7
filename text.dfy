/** The few pieces of Python string behaviour the pipeline relies on:
    the substring test `t in s`, `str.replace`, `int()` on a run of
    decimal digits and `str()` of a non-negative integer. */
module Text {

  /** `t` occurs in `s` starting at index `i`. */
  ghost predicate OccursAt(s: string, t: string, i: int) {
    0 <= i && i + |t| <= |s| && s[i..i + |t|] == t
  }

  /** Python's `t in s` for strings. */
  function Contains(s: string, t: string): (b: bool)
    ensures b <==> exists i :: OccursAt(s, t, i)
    decreases |s|
  {
    if |t| > |s| then false
    else if s[..|t|] == t then
      assert OccursAt(s, t, 0);
      true
    else
      ContainsShift(s, t);
      Contains(s[1..], t)
  }

  /** Occurrences in `s[1..]` are the occurrences in `s` shifted by one. */
  lemma OccursShift(s: string, t: string, i: int)
    requires |s| > 0 && 0 <= i
    ensures OccursAt(s[1..], t, i) <==> OccursAt(s, t, i + 1)
  {
    if 0 <= i && i + |t| <= |s| - 1 {
      assert s[1..][i..i + |t|] == s[i + 1..i + 1 + |t|];
    }
  }

  /** An occurrence in `s` at a positive index is an occurrence in `s[1..]`. */
  lemma ContainsShift(s: string, t: string)
    requires |s| > 0
    requires !OccursAt(s, t, 0)
    ensures (exists i :: OccursAt(s, t, i)) <==> (exists i :: OccursAt(s[1..], t, i))
  {
    forall i | OccursAt(s, t, i) ensures OccursAt(s[1..], t, i - 1) {
      OccursShift(s, t, i - 1);
    }
    forall i | OccursAt(s[1..], t, i) ensures OccursAt(s, t, i + 1) {
      OccursShift(s, t, i);
    }
  }

  /** Python's `s.replace(pat, rep)`: every non-overlapping occurrence of
      `pat`, found scanning left to right, is replaced by `rep`. The
      pipeline only calls it with non-empty literal patterns. */
  function ReplaceAll(s: string, pat: string, rep: string): (r: string)
    requires pat != []
    ensures !Contains(s, pat) ==> r == s
    ensures |rep| <= |pat| ==> |r| <= |s|
    decreases |s|
  {
    if |s| < |pat| then s
    else if s[..|pat|] == pat then rep + ReplaceAll(s[|pat|..], pat, rep)
    else
      ContainsShift(s, pat);
      [s[0]] + ReplaceAll(s[1..], pat, rep)
  }

  /** Deleting `pat` from `b + pat` gives back `b` when the only occurrence
      of `pat` in `b + pat` is the final one. */
  lemma {:induction false} DeleteTrailing(b: string, pat: string)
    requires pat != []
    requires forall i :: 0 <= i < |b| ==> !OccursAt(b + pat, pat, i)
    ensures ReplaceAll(b + pat, pat, []) == b
    decreases |b|
  {
    var s := b + pat;
    if b == [] {
      assert s[..|pat|] == pat;
      assert s[|pat|..] == [];
    } else {
      assert !OccursAt(s, pat, 0);
      assert s[..|pat|] != pat;
      assert s[1..] == b[1..] + pat;
      forall i | 0 <= i < |b[1..]| ensures !OccursAt(b[1..] + pat, pat, i) {
        OccursShift(s, pat, i);
      }
      DeleteTrailing(b[1..], pat);
      assert [s[0]] + b[1..] == b;
    }
  }

  /** One C-locale decimal digit. */
  predicate IsDigit(c: char) {
    '0' <= c <= '9'
  }

  ghost predicate AllDigits(d: string) {
    forall i :: 0 <= i < |d| ==> IsDigit(d[i])
  }

  /** Python's `int(d)` for a non-empty run of ASCII digits; leading
      zeros are allowed. */
  function DecimalValue(d: string): (n: nat)
    requires AllDigits(d)
    decreases |d|
  {
    if d == [] then 0
    else 10 * DecimalValue(d[..|d| - 1]) + ((d[|d| - 1] as int) - ('0' as int))
  }

  /** Python's `str(n)` for a non-negative integer: its shortest decimal
      spelling, with no leading zero. */
  function DecimalString(n: nat): (d: string)
    ensures |d| > 0 && AllDigits(d)
    ensures |d| > 1 ==> d[0] != '0'
    decreases n
  {
    var last := [(('0' as int) + n % 10) as char];
    if n < 10 then last else DecimalString(n / 10) + last
  }

  /** `int(str(n)) == n`. */
  lemma {:induction false} DecimalRoundTrip(n: nat)
    ensures DecimalValue(DecimalString(n)) == n
    decreases n
  {
    var d := DecimalString(n);
    if n >= 10 {
      DecimalRoundTrip(n / 10);
      assert d[..|d| - 1] == DecimalString(n / 10);
    }
  }

  /** Leading zeros do not change the value `int()` reads. */
  lemma {:induction false} LeadingZeroIgnored(d: string)
    requires AllDigits(d)
    ensures DecimalValue("0" + d) == DecimalValue(d)
    decreases |d|
  {
    if d != [] {
      assert ("0" + d)[..|"0" + d| - 1] == "0" + d[..|d| - 1];
      LeadingZeroIgnored(d[..|d| - 1]);
    }
  }
}
