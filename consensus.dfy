/** Consensus assembly (the loop in `main`): explode the reference into
    one string cell per base, apply every variant of the map in strictly
    descending position order, then join the cells. */
module Consensus {
  import opened Fhir

  // ---------------------------------------------------------------------
  // Cells

  /** `list(reference)`: one single-character cell per base. */
  function Explode(s: string): (cells: seq<string>)
    ensures |cells| == |s|
  {
    seq(|s|, i requires 0 <= i < |s| => [s[i]])
  }

  /** `"".join(cells)`. */
  function Join(cells: seq<string>): string
    decreases |cells|
  {
    if cells == [] then "" else Join(cells[..|cells| - 1]) + cells[|cells| - 1]
  }

  /** Joining the exploded reference gives the reference back. */
  lemma {:induction false} JoinExplode(s: string)
    ensures Join(Explode(s)) == s
    decreases |s|
  {
    if s != [] {
      var n := |s| - 1;
      assert Explode(s)[..n] == Explode(s[..n]);
      JoinExplode(s[..n]);
      assert s[..n] + [s[n]] == s;
    }
  }

  // ---------------------------------------------------------------------
  // One edit

  /** Cell `j` after the edit `(pos, a)`: out-of-range positions change
      nothing; otherwise cell `pos-1` takes `alt` and, when `ref` is known,
      the following `|ref| - 1` cells that exist are blanked. */
  function EditedCell(cells: seq<string>, pos: int, a: Alleles, j: int): string
    requires 0 <= j < |cells|
  {
    var idx := pos - 1;
    if !(0 <= idx < |cells|) then cells[j]
    else if j == idx then a.alt
    else if a.ref != UnknownRef && idx < j < idx + |a.ref| then ""
    else cells[j]
  }

  /** The buffer after one edit; it keeps its length. */
  function ApplyEdit(cells: seq<string>, pos: int, a: Alleles): (r: seq<string>)
    ensures |r| == |cells|
  {
    seq(|cells|, j requires 0 <= j < |cells| => EditedCell(cells, pos, a, j))
  }

  /** A position with `pos - 1` outside the buffer changes no cell. */
  lemma OutOfRangeNoOp(cells: seq<string>, pos: int, a: Alleles)
    requires !(0 <= pos - 1 < |cells|)
    ensures ApplyEdit(cells, pos, a) == cells
  {
  }

  /** With the `.` sentinel as ref, only cell `pos-1` changes, to `alt`. */
  lemma SentinelEdit(cells: seq<string>, pos: int, a: Alleles)
    requires 0 <= pos - 1 < |cells| && a.ref == UnknownRef
    ensures ApplyEdit(cells, pos, a) == cells[pos - 1 := a.alt]
  {
  }

  /** `n` empty cells. */
  function Blanks(n: nat): (r: seq<string>)
    ensures |r| == n && forall i :: 0 <= i < n ==> r[i] == ""
  {
    seq(n, i => "")
  }

  /** With a known ref of length `L`, the edit is the splice that puts
      `alt` at `pos-1`, blanks the next `min(L-1, n-pos)` cells and keeps
      everything else; in particular nothing is written past the end. */
  lemma KnownRefEdit(cells: seq<string>, pos: int, a: Alleles)
    requires 0 <= pos - 1 < |cells| && a.ref != UnknownRef
    ensures var idx := pos - 1;
            var stop := if |a.ref| == 0 then idx + 1 else if idx + |a.ref| <= |cells| then idx + |a.ref| else |cells|;
            ApplyEdit(cells, pos, a) == cells[..idx] + [a.alt] + Blanks(stop - idx - 1) + cells[stop..]
  {
  }

  /** The cells an edit may write: `[pos-1, pos-1 + max(1, |ref|))`, or
      only `pos-1` for the sentinel. */
  predicate Touches(pos: int, a: Alleles, j: int) {
    j == pos - 1 || (a.ref != UnknownRef && pos - 1 < j < pos - 1 + |a.ref|)
  }

  /** An edit leaves every cell it does not touch unchanged. */
  lemma EditFrame(cells: seq<string>, pos: int, a: Alleles, j: int)
    requires 0 <= j < |cells| && !Touches(pos, a, j)
    ensures ApplyEdit(cells, pos, a)[j] == cells[j]
  {
  }

  /** Two edits whose written cells are disjoint commute, so for such maps
      the order the positions are visited in does not matter. */
  lemma DisjointEditsCommute(cells: seq<string>, p: int, a: Alleles, q: int, b: Alleles)
    requires forall j :: 0 <= j < |cells| ==> !(Touches(p, a, j) && Touches(q, b, j))
    ensures ApplyEdit(ApplyEdit(cells, p, a), q, b) == ApplyEdit(ApplyEdit(cells, q, b), p, a)
  {
    var x := ApplyEdit(ApplyEdit(cells, p, a), q, b);
    var y := ApplyEdit(ApplyEdit(cells, q, b), p, a);
    forall j | 0 <= j < |cells| ensures x[j] == y[j] {
      assert !(Touches(p, a, j) && Touches(q, b, j));
    }
  }

  /** On overlapping spans the visiting order matters: when the span of
      the lower position `p` covers the cell of a higher position `q`,
      applying `q` first and then `p`, as the descending order does, leaves
      that cell blank, and the other order would leave `q`'s alt there. */
  lemma LowerEditWinsOnOverlap(cells: seq<string>, p: int, a: Alleles, q: int, b: Alleles)
    requires 0 <= p - 1 < q - 1 < |cells|
    requires a.ref != UnknownRef && q - 1 < p - 1 + |a.ref|
    ensures ApplyEdit(ApplyEdit(cells, q, b), p, a)[q - 1] == ""
    ensures ApplyEdit(ApplyEdit(cells, p, a), q, b)[q - 1] == b.alt
  {
  }

  // ---------------------------------------------------------------------
  // Visiting order

  /** No element of `s` exceeds `mx`. */
  predicate IsMax(s: set<int>, mx: int) {
    mx in s && forall p :: p in s ==> p <= mx
  }

  /** Every non-empty finite set of integers has a largest element. */
  lemma {:induction false} MaxExists(s: set<int>)
    requires s != {}
    ensures exists mx :: IsMax(s, mx)
    decreases |s|
  {
    assert exists x :: x in s by {
      if forall x :: x !in s {
        assert false;
      }
    }
    var x :| x in s;
    if s != {x} {
      var rest := s - {x};
      MaxExists(rest);
      var mx :| IsMax(rest, mx);
      var top := if x > mx then x else mx;
      forall p | p in s ensures p <= top {
        if p != x {
          assert p in rest;
        }
      }
      assert IsMax(s, top);
    } else {
      assert IsMax(s, x);
    }
  }

  /** The largest key. */
  function MaxOf(s: set<int>): (mx: int)
    requires s != {}
    ensures IsMax(s, mx)
  {
    MaxExists(s);
    var mx :| IsMax(s, mx);
    mx
  }

  /** `s` is strictly decreasing. */
  ghost predicate StrictlyDescending(s: seq<int>) {
    forall i, j :: 0 <= i < j < |s| ==> s[i] > s[j]
  }

  /** `sorted(keys, reverse=True)` for distinct integer keys: the largest
      key first, then the rest in the same order. */
  function DescendingOrder(keys: set<int>): (r: seq<int>)
    decreases |keys|
  {
    if keys == {} then []
    else
      var mx := MaxOf(keys);
      [mx] + DescendingOrder(keys - {mx})
  }

  /** The order enumerates exactly the keys, each once, strictly
      decreasing. */
  lemma {:induction false} DescendingOrderSorted(keys: set<int>)
    ensures StrictlyDescending(DescendingOrder(keys))
    ensures forall p :: p in keys <==> p in DescendingOrder(keys)
    ensures |DescendingOrder(keys)| == |keys|
    decreases |keys|
  {
    if keys != {} {
      var mx := MaxOf(keys);
      var rest := keys - {mx};
      DescendingOrderSorted(rest);
      var r := DescendingOrder(keys);
      assert r == [mx] + DescendingOrder(rest);
      forall i, j | 0 <= i < j < |r| ensures r[i] > r[j] {
        if i == 0 {
          assert r[j] in rest;
        } else {
          assert r[i] == DescendingOrder(rest)[i - 1] && r[j] == DescendingOrder(rest)[j - 1];
        }
      }
    }
  }

  /** Any strictly decreasing enumeration of the keys is the order: the
      visiting order is fixed by the key set alone. */
  lemma {:induction false} DescendingOrderUnique(keys: set<int>, s: seq<int>)
    requires StrictlyDescending(s)
    requires forall p :: p in keys <==> p in s
    ensures s == DescendingOrder(keys)
    decreases |keys|
  {
    if s == [] {
      assert forall p :: p !in keys;
      assert keys == {};
    } else {
      assert s[0] in s;
      assert s[0] in keys;
      var mx := MaxOf(keys);
      assert s[0] == mx by {
        assert mx in s;
      }
      var rest := keys - {mx};
      forall p ensures p in rest <==> p in s[1..] {
        if p in s[1..] {
          var k :| 1 <= k < |s| && s[k] == p;
          assert s[0] > s[k];
        }
        if p in rest {
          var k :| 0 <= k < |s| && s[k] == p;
          assert k != 0;
          assert s[1..][k - 1] == p;
        }
      }
      assert StrictlyDescending(s[1..]) by {
        forall i, j | 0 <= i < j < |s| - 1 ensures s[1..][i] > s[1..][j] {
          assert s[i + 1] > s[j + 1];
        }
      }
      DescendingOrderUnique(rest, s[1..]);
      assert s == [s[0]] + s[1..];
    }
  }

  // ---------------------------------------------------------------------
  // All edits

  /** The buffer after applying the edits at `ps`, in the order listed. */
  function ApplyAll(cells: seq<string>, ps: seq<int>, m: map<int, Alleles>): (r: seq<string>)
    requires forall i :: 0 <= i < |ps| ==> ps[i] in m
    ensures |r| == |cells|
    decreases |ps|
  {
    if ps == [] then cells
    else
      var n := |ps| - 1;
      ApplyEdit(ApplyAll(cells, ps[..n], m), ps[n], m[ps[n]])
  }

  /** The consensus sequence for a reference and a variant map. */
  function ConsensusOf(reference: string, m: map<int, Alleles>): string {
    var order := DescendingOrder(m.Keys);
    DescendingOrderSorted(m.Keys);
    Join(ApplyAll(Explode(reference), order, m))
  }

  /** Edits at positions outside the buffer leave it as it was. */
  lemma {:induction false} ApplyAllOutOfRange(cells: seq<string>, ps: seq<int>, m: map<int, Alleles>)
    requires forall i :: 0 <= i < |ps| ==> ps[i] in m && !(0 <= ps[i] - 1 < |cells|)
    ensures ApplyAll(cells, ps, m) == cells
    decreases |ps|
  {
    if ps != [] {
      var n := |ps| - 1;
      assert forall i :: 0 <= i < n ==> ps[..n][i] == ps[i];
      ApplyAllOutOfRange(cells, ps[..n], m);
    }
  }

  /** An empty variant map gives the reference unchanged; so does a map
      whose every position lies outside the reference. */
  lemma ConsensusOutOfRange(reference: string, m: map<int, Alleles>)
    requires forall p :: p in m ==> !(0 <= p - 1 < |reference|)
    ensures ConsensusOf(reference, m) == reference
  {
    DescendingOrderSorted(m.Keys);
    var order := DescendingOrder(m.Keys);
    assert forall i :: 0 <= i < |order| ==> order[i] in m.Keys;
    ApplyAllOutOfRange(Explode(reference), order, m);
    JoinExplode(reference);
  }

  /** An edit writes one cell when its ref is the sentinel or one base. */
  predicate SingleCell(a: Alleles) {
    a.ref == UnknownRef || |a.ref| <= 1
  }

  /** For edits that each write a single cell, every cell whose position is
      listed holds that variant's alt and every other cell is unchanged,
      whatever the order. */
  lemma {:induction false} ApplyAllSingleCells(cells: seq<string>, ps: seq<int>, m: map<int, Alleles>, j: int)
    requires forall i :: 0 <= i < |ps| ==> ps[i] in m && SingleCell(m[ps[i]])
    requires 0 <= j < |cells|
    ensures ApplyAll(cells, ps, m)[j] == if j + 1 in ps then m[j + 1].alt else cells[j]
    decreases |ps|
  {
    if ps != [] {
      var n := |ps| - 1;
      var init := ps[..n];
      assert forall i :: 0 <= i < n ==> init[i] == ps[i];
      ApplyAllSingleCells(cells, init, m, j);
      if ps[n] != j + 1 {
        assert ps == init + [ps[n]];
        assert j + 1 in ps <==> j + 1 in init;
      }
    }
  }

  /** With single-cell edits only, the consensus is the reference with
      every in-range position's base replaced by its alt. */
  lemma ConsensusSingleCells(reference: string, m: map<int, Alleles>)
    requires forall p :: p in m ==> SingleCell(m[p])
    ensures ConsensusOf(reference, m) ==
            Join(seq(|reference|, j requires 0 <= j < |reference| =>
                   if j + 1 in m then m[j + 1].alt else [reference[j]]))
  {
    DescendingOrderSorted(m.Keys);
    var order := DescendingOrder(m.Keys);
    var cells := ApplyAll(Explode(reference), order, m);
    var expected := seq(|reference|, j requires 0 <= j < |reference| =>
                      if j + 1 in m then m[j + 1].alt else [reference[j]]);
    assert forall i :: 0 <= i < |order| ==> order[i] in m && SingleCell(m[order[i]]);
    forall j | 0 <= j < |reference| ensures cells[j] == expected[j] {
      ApplyAllSingleCells(Explode(reference), order, m, j);
      assert j + 1 in order <==> j + 1 in m;
    }
    assert cells == expected;
  }

  /** Joining six cells, spelled out. */
  lemma JoinCells(c: seq<string>)
    requires |c| == 6
    ensures Join(c) == c[0] + c[1] + c[2] + c[3] + c[4] + c[5]
  {
    assert c[..1][..0] == [] && c[..1][0] == c[0];
    assert Join(c[..1]) == c[0];
    assert c[..2][..1] == c[..1] && c[..2][1] == c[1];
    assert Join(c[..2]) == c[0] + c[1];
    assert c[..3][..2] == c[..2] && c[..3][2] == c[2];
    assert Join(c[..3]) == c[0] + c[1] + c[2];
    assert c[..4][..3] == c[..3] && c[..4][3] == c[3];
    assert Join(c[..4]) == c[0] + c[1] + c[2] + c[3];
    assert c[..5][..4] == c[..4] && c[..5][4] == c[4];
    assert Join(c[..5]) == c[0] + c[1] + c[2] + c[3] + c[4];
    assert c[..5] == c[..|c| - 1];
  }

  /** Two substitutions with the sentinel ref: `AAAAAA` with
      `{2: (., C), 5: (., G)}` becomes `ACAAGA`. */
  lemma ExampleTwoSubstitutions()
    ensures ConsensusOf("AAAAAA", map[2 := Alleles(UnknownRef, "C"), 5 := Alleles(UnknownRef, "G")]) == "ACAAGA"
  {
    var m := map[2 := Alleles(UnknownRef, "C"), 5 := Alleles(UnknownRef, "G")];
    DescendingOrderUnique(m.Keys, [5, 2]);
    var c0 := Explode("AAAAAA");
    var c1 := ApplyEdit(c0, 5, m[5]);
    SentinelEdit(c0, 5, m[5]);
    var c2 := ApplyEdit(c1, 2, m[2]);
    SentinelEdit(c1, 2, m[2]);
    assert [5, 2][..1] == [5];
    assert ApplyAll(c0, [5, 2], m) == c2;
    JoinCells(c2);
  }

  /** A deletion-style edit: `ACGTAA` with `{2: (CG, T)}` writes `T` at
      cell 1 and blanks cell 2, giving `ATTAA`. */
  lemma ExampleKnownRef()
    ensures ConsensusOf("ACGTAA", map[2 := Alleles("CG", "T")]) == "ATTAA"
  {
    var m := map[2 := Alleles("CG", "T")];
    DescendingOrderUnique(m.Keys, [2]);
    var c1 := ApplyEdit(Explode("ACGTAA"), 2, m[2]);
    KnownRefEdit(Explode("ACGTAA"), 2, m[2]);
    assert c1 == Explode("ACGTAA")[..1] + ["T"] + Blanks(1) + Explode("ACGTAA")[3..];
    assert ApplyAll(Explode("ACGTAA"), [2], m) == c1;
    JoinCells(c1);
  }

  /** Overlapping spans: with `{2: (CGT, T), 3: (., X)}` on `ACGTAA`,
      position 3 is applied first and then blanked by position 2, giving
      `ATAA`. */
  lemma ExampleOverlap()
    ensures ConsensusOf("ACGTAA", map[2 := Alleles("CGT", "T"), 3 := Alleles(UnknownRef, "X")]) == "ATAA"
  {
    var m := map[2 := Alleles("CGT", "T"), 3 := Alleles(UnknownRef, "X")];
    DescendingOrderUnique(m.Keys, [3, 2]);
    var c0 := Explode("ACGTAA");
    var c1 := ApplyEdit(c0, 3, m[3]);
    SentinelEdit(c0, 3, m[3]);
    var c2 := ApplyEdit(c1, 2, m[2]);
    KnownRefEdit(c1, 2, m[2]);
    assert c2 == c1[..1] + ["T"] + Blanks(2) + c1[4..];
    assert [3, 2][..1] == [3];
    assert ApplyAll(c0, [3, 2], m) == c2;
    JoinCells(c2);
  }

  // ---------------------------------------------------------------------
  // The assembly as the source runs it

  /** One pass of the loop body: edit the buffer in place at `pos`. */
  method ApplyVariant(cells: array<string>, pos: int, a: Alleles)
    modifies cells
    ensures cells[..] == ApplyEdit(old(cells[..]), pos, a)
  {
    ghost var before := cells[..];
    var idx := pos - 1;
    if 0 <= idx < cells.Length {
      if a.ref != UnknownRef {
        var refLen := |a.ref|;
        cells[idx] := a.alt;
        var k := 1;
        while k < refLen
          invariant 1 <= k && (k <= refLen || k == 1)
          invariant forall j :: 0 <= j < cells.Length ==>
            cells[j] == if j == idx then a.alt else if idx < j < idx + k then "" else before[j]
        {
          if idx + k < cells.Length {
            cells[idx + k] := "";
          }
          k := k + 1;
        }
      } else {
        cells[idx] := a.alt;
      }
    }
    assert forall j :: 0 <= j < cells.Length ==> cells[..][j] == EditedCell(before, pos, a, j);
  }

  /** Apply the edits at `order`, in that order, to the buffer in place. */
  method ApplyInOrder(cells: array<string>, order: seq<int>, variants: map<int, Alleles>)
    requires forall i :: 0 <= i < |order| ==> order[i] in variants
    modifies cells
    ensures cells[..] == ApplyAll(old(cells[..]), order, variants)
  {
    ghost var start := cells[..];
    for i := 0 to |order|
      invariant cells[..] == ApplyAll(start, order[..i], variants)
    {
      assert order[..i + 1][..i] == order[..i];
      ApplyVariant(cells, order[i], variants[order[i]]);
    }
    assert order[..|order|] == order;
  }

  /** The assembly: fill the buffer from the reference, apply the variants
      in descending position order, join. */
  method Assemble(reference: string, variants: map<int, Alleles>) returns (consensus: string)
    ensures consensus == ConsensusOf(reference, variants)
  {
    var cells := new string[|reference|](i requires 0 <= i < |reference| => [reference[i]]);
    assert cells[..] == Explode(reference);
    var order := DescendingOrder(variants.Keys);
    DescendingOrderSorted(variants.Keys);
    ApplyInOrder(cells, order, variants);
    consensus := Join(cells[..]);
  }
}
