/** The HGVS genomic-substitution pattern the extractor searches for,
    `g\.(\d+)([ACGTN]+)>([ACGTN]+)` (HGVS nomenclature, "g." DNA
    substitution such as `NC_000962.3:g.761155C>T`), as a leftmost
    scanner with the regex's greedy groups. */
module Hgvs {
  import opened Wrappers
  import opened Text

  /** The upper-case nucleotide class `[ACGTN]`. */
  predicate IsBase(c: char) {
    c == 'A' || c == 'C' || c == 'G' || c == 'T' || c == 'N'
  }

  /** The character classes of the pattern: `\d`, `[ACGTN]`, and every
      other character (this includes `>`). They are disjoint by construction. */
  datatype CharClass = Digit | Base | Other

  function ClassOf(c: char): CharClass {
    if IsDigit(c) then Digit else if IsBase(c) then Base else Other
  }

  /** The `n` characters of `s` from `j` on all belong to class `k`. */
  ghost predicate ClassRun(s: string, j: int, n: int, k: CharClass)
    decreases if n < 0 then 0 else n
  {
    0 <= j && 0 <= n && j + n <= |s| && (n == 0 || (ClassOf(s[j]) == k && ClassRun(s, j + 1, n - 1, k)))
  }

  /** Each character of a run is of the run's class. */
  lemma {:induction false} ClassRunAt(s: string, j: int, n: int, k: CharClass, x: int)
    requires ClassRun(s, j, n, k) && j <= x < j + n
    ensures ClassOf(s[x]) == k
    decreases n
  {
    if x > j {
      ClassRunAt(s, j + 1, n - 1, k, x);
    }
  }

  /** A match of the pattern, given by where it starts and how long each of
      its three groups is (the spans of Python's match object). */
  datatype Match = Match(start: nat, digitLen: nat, refLen: nat, altLen: nat)

  /** The pattern matches at `i` of `s` with groups of lengths `nd`, `nr` and
      `na`: `s[i..]` begins with `g.`, `nd` digits, `nr` bases, `>` and `na`
      bases. */
  ghost predicate MatchesAt(s: string, i: int, nd: int, nr: int, na: int) {
    && 0 <= i && i + 3 + nd + nr + na <= |s|
    && nd > 0 && nr > 0 && na > 0
    && s[i] == 'g' && s[i + 1] == '.'
    && ClassRun(s, i + 2, nd, Digit)
    && ClassRun(s, i + 2 + nd, nr, Base)
    && s[i + 2 + nd + nr] == '>'
    && ClassRun(s, i + 3 + nd + nr, na, Base)
  }

  /** End of the whole match. */
  function End(m: Match): nat {
    m.start + 3 + m.digitLen + m.refLen + m.altLen
  }

  /** A match as the regex engine reports it: a match of the pattern whose
      last, greedy group cannot be extended by another base. */
  ghost predicate IsGreedyMatch(s: string, m: Match) {
    && MatchesAt(s, m.start, m.digitLen, m.refLen, m.altLen)
    && (End(m) == |s| || ClassOf(s[End(m)]) != Base)
  }

  /** Length of the longest run of class `k` starting at `j`. */
  function RunLength(s: string, j: nat, k: CharClass): (n: nat)
    requires j <= |s|
    ensures j + n <= |s|
    ensures j + n == |s| || ClassOf(s[j + n]) != k
    decreases |s| - j
  {
    if j < |s| && ClassOf(s[j]) == k then 1 + RunLength(s, j + 1, k) else 0
  }

  /** Every character of the run `RunLength` finds is of its class. */
  lemma {:induction false} RunInClass(s: string, j: nat, k: CharClass)
    requires j <= |s|
    ensures ClassRun(s, j, RunLength(s, j, k), k)
    decreases |s| - j
  {
    if j < |s| && ClassOf(s[j]) == k {
      RunInClass(s, j + 1, k);
    }
  }

  /** A run of class `k` at `j` that is followed by a character outside the
      class is the run `RunLength` finds; any run at `j` is covered by it. */
  lemma {:induction false} RunDetermined(s: string, j: nat, n: nat, k: CharClass)
    requires ClassRun(s, j, n, k)
    ensures n <= RunLength(s, j, k)
    ensures j + n < |s| && ClassOf(s[j + n]) != k ==> RunLength(s, j, k) == n
    decreases n
  {
    if n > 0 {
      RunDetermined(s, j + 1, n - 1, k);
    }
  }

  /** The match of the pattern at `i`, if there is one: each group takes
      the longest run of its class. */
  function MatchAt(s: string, i: nat): Option<Match>
    requires i <= |s|
  {
    if i + 2 <= |s| && s[i] == 'g' && s[i + 1] == '.' then
      var nd := RunLength(s, i + 2, Digit);
      var nr := RunLength(s, i + 2 + nd, Base);
      if nd > 0 && nr > 0 && i + 2 + nd + nr < |s| && s[i + 2 + nd + nr] == '>' then
        var na := RunLength(s, i + 3 + nd + nr, Base);
        if na > 0 then Some(Match(i, nd, nr, na)) else None
      else None
    else None
  }

  /** Three maximal runs in the places the pattern expects them form a
      greedy match. */
  lemma GreedyFromRuns(s: string, i: nat, nd: nat, nr: nat, na: nat)
    requires i + 2 <= |s| && s[i] == 'g' && s[i + 1] == '.'
    requires nd == RunLength(s, i + 2, Digit) && nd > 0
    requires nr == RunLength(s, i + 2 + nd, Base) && nr > 0
    requires i + 2 + nd + nr < |s| && s[i + 2 + nd + nr] == '>'
    requires na == RunLength(s, i + 3 + nd + nr, Base) && na > 0
    ensures IsGreedyMatch(s, Match(i, nd, nr, na))
  {
    assert ClassRun(s, i + 2, nd, Digit) by {
      RunInClass(s, i + 2, Digit);
    }
    assert ClassRun(s, i + 2 + nd, nr, Base) by {
      RunInClass(s, i + 2 + nd, Base);
    }
    assert ClassRun(s, i + 3 + nd + nr, na, Base) by {
      RunInClass(s, i + 3 + nd + nr, Base);
    }
    assert MatchesAt(s, i, nd, nr, na);
  }

  /** What `MatchAt` finds at `i` is a greedy match of the pattern at `i`. */
  lemma MatchAtSound(s: string, i: nat)
    requires i <= |s|
    ensures MatchAt(s, i).Some? ==> MatchAt(s, i).value.start == i && IsGreedyMatch(s, MatchAt(s, i).value)
  {
    if MatchAt(s, i).Some? {
      assert i + 2 <= |s| && s[i] == 'g' && s[i + 1] == '.';
      var nd := RunLength(s, i + 2, Digit);
      var nr := RunLength(s, i + 2 + nd, Base);
      assert nd > 0 && nr > 0 && i + 2 + nd + nr < |s| && s[i + 2 + nd + nr] == '>';
      var na := RunLength(s, i + 3 + nd + nr, Base);
      assert na > 0;
      MatchAtRuns(s, i, nd, nr, na);
      GreedyFromRuns(s, i, nd, nr, na);
    }
  }

  /** `MatchAt` in terms of the three run lengths it reads. */
  lemma MatchAtRuns(s: string, i: nat, nd: nat, nr: nat, na: nat)
    requires i + 2 <= |s| && s[i] == 'g' && s[i + 1] == '.'
    requires nd == RunLength(s, i + 2, Digit) && nd > 0
    requires nr == RunLength(s, i + 2 + nd, Base) && nr > 0
    requires i + 2 + nd + nr < |s| && s[i + 2 + nd + nr] == '>'
    requires na == RunLength(s, i + 3 + nd + nr, Base) && na > 0
    ensures MatchAt(s, i) == Some(Match(i, nd, nr, na))
  {
  }

  /** Every match of the pattern at `i` is found by `MatchAt`: the digit and
      reference groups are the same, and the alternate group found is at
      least as long (the groups are determined because the classes are
      disjoint and `>` is in neither). */
  lemma MatchAtComplete(s: string, i: nat, nd: nat, nr: nat, na: nat)
    requires MatchesAt(s, i, nd, nr, na)
    ensures MatchAt(s, i).Some?
    ensures MatchAt(s, i).value.digitLen == nd && MatchAt(s, i).value.refLen == nr
    ensures na <= MatchAt(s, i).value.altLen
  {
    assert ClassOf(s[i + 2 + nd]) == Base;
    RunDetermined(s, i + 2, nd, Digit);
    RunDetermined(s, i + 2 + nd, nr, Base);
    RunDetermined(s, i + 3 + nd + nr, na, Base);
    MatchAtRuns(s, i, nd, nr, RunLength(s, i + 3 + nd + nr, Base));
  }

  /** Python's `re.search(pattern, s)` started at `from`: the leftmost match. */
  function Search(s: string, from: nat): (r: Option<Match>)
    requires from <= |s|
    ensures r.Some? ==> from <= r.value.start <= |s| && MatchAt(s, r.value.start) == r
    ensures r.Some? ==> forall j :: from <= j < r.value.start ==> MatchAt(s, j).None?
    ensures r.None? ==> forall j :: from <= j <= |s| ==> MatchAt(s, j).None?
    decreases |s| - from
  {
    var here := MatchAt(s, from);
    if here.Some? then here
    else if from == |s| then None
    else Search(s, from + 1)
  }

  /** `Search` is the regex search: when it succeeds its match is a greedy
      match of the pattern and no match of the pattern starts earlier; when
      it fails the pattern matches nowhere. */
  lemma SearchIsLeftmostMatch(s: string)
    ensures Search(s, 0).Some? ==> IsGreedyMatch(s, Search(s, 0).value)
    ensures Search(s, 0).Some? ==>
      forall i, nd, nr, na :: 0 <= i < Search(s, 0).value.start ==> !MatchesAt(s, i, nd, nr, na)
    ensures Search(s, 0).None? ==> forall i, nd, nr, na :: !MatchesAt(s, i, nd, nr, na)
  {
    if Search(s, 0).Some? {
      MatchAtSound(s, Search(s, 0).value.start);
    }
    forall i, nd, nr, na | MatchesAt(s, i, nd, nr, na)
      ensures Search(s, 0).Some? && Search(s, 0).value.start <= i
    {
      MatchAtComplete(s, i, nd, nr, na);
    }
  }

  /** `match.group(1)`, the position digits. */
  function DigitsOf(s: string, m: Match): string
    requires End(m) <= |s|
  {
    s[m.start + 2..m.start + 2 + m.digitLen]
  }

  /** `match.group(2)`, the reference allele. */
  function RefOf(s: string, m: Match): string
    requires End(m) <= |s|
  {
    s[m.start + 2 + m.digitLen..m.start + 2 + m.digitLen + m.refLen]
  }

  /** `match.group(3)`, the alternate allele. */
  function AltOf(s: string, m: Match): string
    requires End(m) <= |s|
  {
    s[m.start + 3 + m.digitLen + m.refLen..End(m)]
  }

  /** The groups of a match are non-empty and of the pattern's classes. */
  lemma GroupsOfMatch(s: string, m: Match)
    requires IsGreedyMatch(s, m)
    ensures |DigitsOf(s, m)| > 0 && AllDigits(DigitsOf(s, m))
    ensures |RefOf(s, m)| > 0 && forall x :: 0 <= x < |RefOf(s, m)| ==> IsBase(RefOf(s, m)[x])
    ensures |AltOf(s, m)| > 0 && forall x :: 0 <= x < |AltOf(s, m)| ==> IsBase(AltOf(s, m)[x])
  {
    var d, r, a := DigitsOf(s, m), RefOf(s, m), AltOf(s, m);
    forall x | 0 <= x < |d| ensures IsDigit(d[x]) {
      ClassRunAt(s, m.start + 2, m.digitLen, Digit, m.start + 2 + x);
      assert d[x] == s[m.start + 2 + x];
    }
    forall x | 0 <= x < |r| ensures IsBase(r[x]) {
      ClassRunAt(s, m.start + 2 + m.digitLen, m.refLen, Base, m.start + 2 + m.digitLen + x);
      assert r[x] == s[m.start + 2 + m.digitLen + x];
    }
    forall x | 0 <= x < |a| ensures IsBase(a[x]) {
      ClassRunAt(s, m.start + 3 + m.digitLen + m.refLen, m.altLen, Base, m.start + 3 + m.digitLen + m.refLen + x);
      assert a[x] == s[m.start + 3 + m.digitLen + m.refLen + x];
    }
  }

  /** The position group as Python's `int(match.group(1))` reads it. */
  function Position(s: string, m: Match): nat
    requires IsGreedyMatch(s, m)
  {
    GroupsOfMatch(s, m);
    DecimalValue(DigitsOf(s, m))
  }
}
