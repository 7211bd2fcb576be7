/** Variant extraction (`parse_fhir_variants`): walk a FHIR Bundle and
    build the map `position -> (ref, alt)` of the variant observations in
    it, together with the sample id derived from the file's basename. */
module Extract {
  import opened Wrappers
  import opened Text
  import opened Hgvs
  import opened Fhir

  // ---------------------------------------------------------------------
  // Sample id

  /** The sample id: the basename with every `.fhir.json`, then every
      `.merged`, then every `.json` removed. */
  function SampleId(basename: string): string {
    ReplaceAll(ReplaceAll(ReplaceAll(basename, ".fhir.json", ""), ".merged", ""), ".json", "")
  }

  /** A string without `.` holds no occurrence of a pattern starting with `.`. */
  lemma NoDotNoOccurrence(s: string, pat: string)
    requires pat != [] && pat[0] == '.'
    requires forall i :: 0 <= i < |s| ==> s[i] != '.'
    ensures !Contains(s, pat)
  {
    forall i | 0 <= i ensures !OccursAt(s, pat, i) {
    }
  }

  /** Removing a pattern that starts with `.` from a dot-free stem followed
      by that pattern leaves the stem. */
  lemma StripFromDotFree(stem: string, pat: string)
    requires pat != [] && pat[0] == '.'
    requires forall i :: 0 <= i < |stem| ==> stem[i] != '.'
    ensures ReplaceAll(stem + pat, pat, []) == stem
  {
    forall i | 0 <= i < |stem| ensures !OccursAt(stem + pat, pat, i) {
      assert (stem + pat)[i] == stem[i];
    }
    DeleteTrailing(stem, pat);
  }

  /** A pattern starting with `.` occurs in a dot-free stem followed by
      `suffix` only if it occurs in `suffix`. */
  lemma DotFreePrefix(stem: string, suffix: string, pat: string)
    requires pat != [] && pat[0] == '.'
    requires forall i :: 0 <= i < |stem| ==> stem[i] != '.'
    requires !Contains(suffix, pat)
    ensures !Contains(stem + suffix, pat)
  {
    forall i | 0 <= i ensures !OccursAt(stem + suffix, pat, i) {
      if i < |stem| {
        assert (stem + suffix)[i] == stem[i];
      } else if i + |pat| <= |stem + suffix| {
        assert (stem + suffix)[i..i + |pat|] == suffix[i - |stem|..i - |stem| + |pat|];
        assert !OccursAt(suffix, pat, i - |stem|);
      }
    }
  }

  /** For a dot-free stem, the bundle file name the fetch step writes,
      `<id>.fhir.json`, maps back to the stem. */
  lemma SampleIdOfBundleName(stem: string)
    requires forall i :: 0 <= i < |stem| ==> stem[i] != '.'
    ensures SampleId(stem + ".fhir.json") == stem
  {
    StripFromDotFree(stem, ".fhir.json");
    assert ReplaceAll(stem + ".fhir.json", ".fhir.json", "") == stem;
    NoDotNoOccurrence(stem, ".merged");
    assert ReplaceAll(stem, ".merged", "") == stem;
    NoDotNoOccurrence(stem, ".json");
    assert ReplaceAll(stem, ".json", "") == stem;
  }

  /** For a dot-free stem, the merged bundle name `<id>.merged.fhir.json`
      maps back to the stem: `.fhir.json` goes first, then the `.merged`
      left in front of it. */
  lemma SampleIdOfMergedName(stem: string)
    requires forall i :: 0 <= i < |stem| ==> stem[i] != '.'
    ensures SampleId(stem + ".merged.fhir.json") == stem
  {
    var merged := stem + ".merged";
    assert stem + ".merged.fhir.json" == merged + ".fhir.json";
    forall i | 0 <= i < |merged| ensures !OccursAt(merged + ".fhir.json", ".fhir.json", i) {
      var name := merged + ".fhir.json";
      if i < |stem| {
        assert name[i] == stem[i];
      } else if i == |stem| {
        assert name[i + 1] == 'm';
      } else {
        assert name[i] == ".merged"[i - |stem|];
      }
    }
    DeleteTrailing(merged, ".fhir.json");
    assert ReplaceAll(stem + ".merged.fhir.json", ".fhir.json", "") == merged;
    StripFromDotFree(stem, ".merged");
    assert ReplaceAll(merged, ".merged", "") == stem;
    NoDotNoOccurrence(stem, ".json");
    assert ReplaceAll(stem, ".json", "") == stem;
  }

  /** For a dot-free stem, a plain `<id>.json` maps back to the stem. */
  lemma SampleIdOfJsonName(stem: string)
    requires forall i :: 0 <= i < |stem| ==> stem[i] != '.'
    ensures SampleId(stem + ".json") == stem
  {
    var name := stem + ".json";
    assert !Contains(".json", ".fhir.json");
    DotFreePrefix(stem, ".json", ".fhir.json");
    assert ReplaceAll(name, ".fhir.json", "") == name;
    assert !Contains(".json", ".merged");
    DotFreePrefix(stem, ".json", ".merged");
    assert ReplaceAll(name, ".merged", "") == name;
    StripFromDotFree(stem, ".json");
    assert ReplaceAll(name, ".json", "") == stem;
  }

  // ---------------------------------------------------------------------
  // Which records count

  /** `any(c.get('code') == code for c in codings)`. */
  predicate HasCode(codings: seq<Coding>, code: string) {
    exists i | 0 <= i < |codings| :: codings[i].code == Some(code)
  }

  /** An `Observation` whose `code.coding` includes LOINC 69548-6. */
  predicate IsVariantObservation(res: Resource) {
    res.resourceType == Some(ObservationType) && HasCode(res.code, VariantCode)
  }

  // ---------------------------------------------------------------------
  // Structured position

  /** The position a start-end component supplies: `valueRange.low.value`
      when there is a `valueRange`, else `valueInteger` when there is one,
      else the position seen so far. */
  function ValuePosition(comp: Component, pos: Option<int>): Option<int> {
    if comp.valueRange.Some? then comp.valueRange.value.low
    else if comp.valueInteger.Some? then Some(comp.valueInteger.value)
    else pos
  }

  /** The effect of one component on the position seen so far. */
  function ComponentPosition(comp: Component, pos: Option<int>): Option<int> {
    if HasCode(comp.code, StartEndCode) then ValuePosition(comp, pos) else pos
  }

  /** The position after scanning `comps` in order, starting from `None`. */
  function StructuredPosition(comps: seq<Component>): Option<int>
    decreases |comps|
  {
    if comps == [] then None
    else ComponentPosition(comps[|comps| - 1], StructuredPosition(comps[..|comps| - 1]))
  }

  /** A component that assigns the position: coded 81254-5 and carrying a
      `valueRange` or a `valueInteger`. */
  predicate SetsPosition(comp: Component) {
    HasCode(comp.code, StartEndCode) && (comp.valueRange.Some? || comp.valueInteger.Some?)
  }

  /** When no component assigns the position there is no structured
      position. */
  lemma {:induction false} StructuredPositionAbsent(comps: seq<Component>)
    requires forall j :: 0 <= j < |comps| ==> !SetsPosition(comps[j])
    ensures StructuredPosition(comps) == None
    decreases |comps|
  {
    if comps != [] {
      var init := comps[..|comps| - 1];
      assert forall j :: 0 <= j < |init| ==> init[j] == comps[j];
      StructuredPositionAbsent(init);
    }
  }

  /** The last component that assigns the position decides it. */
  lemma {:induction false} StructuredPositionLastWins(comps: seq<Component>, k: nat)
    requires k < |comps| && SetsPosition(comps[k])
    requires forall j :: k < j < |comps| ==> !SetsPosition(comps[j])
    ensures StructuredPosition(comps) == ValuePosition(comps[k], None)
    decreases |comps|
  {
    var init := comps[..|comps| - 1];
    if k < |comps| - 1 {
      assert forall j :: k < j < |init| ==> init[j] == comps[j];
      StructuredPositionLastWins(init, k);
    }
  }

  // ---------------------------------------------------------------------
  // HGVS candidates

  /** A coding whose `system` contains `hgvs` or whose `code` contains `:`. */
  predicate IsHgvsCandidate(c: Coding) {
    Contains(c.system.GetOr(""), "hgvs") || Contains(c.code.GetOr(""), ":")
  }

  /** The `code`s of the qualifying codings, in order. */
  function Candidates(codings: seq<Coding>): (r: seq<Option<string>>)
    ensures |r| <= |codings|
    ensures forall x :: x in r <==> exists i :: 0 <= i < |codings| && IsHgvsCandidate(codings[i]) && codings[i].code == x
    decreases |codings|
  {
    if codings == [] then []
    else
      var init := codings[..|codings| - 1];
      var last := codings[|codings| - 1];
      assert forall i :: 0 <= i < |init| ==> init[i] == codings[i];
      Candidates(init) + (if IsHgvsCandidate(last) then [last.code] else [])
  }

  /** The candidates of every component's `valueCodeableConcept`, component
      by component. */
  function ComponentCandidates(comps: seq<Component>): seq<Option<string>>
    decreases |comps|
  {
    if comps == [] then []
    else ComponentCandidates(comps[..|comps| - 1]) + Candidates(comps[|comps| - 1].valueCodeableConcept)
  }

  /** Record-level candidates first, then component-level ones. */
  function RecordCandidates(res: Resource): seq<Option<string>> {
    Candidates(res.valueCodeableConcept) + ComponentCandidates(res.component)
  }

  // ---------------------------------------------------------------------
  // First match

  /** A candidate the scan accepts: present, non-empty, and matching the
      HGVS pattern somewhere. */
  predicate Usable(c: Option<string>) {
    c.Some? && c.value != "" && Search(c.value, 0).Some?
  }

  /** The candidate string that matched, and its match. */
  datatype Hit = Hit(text: string, m: Match)

  /** The first usable candidate and the leftmost match in it. */
  function FirstMatch(cands: seq<Option<string>>): (r: Option<Hit>)
    ensures r.Some? ==> IsGreedyMatch(r.value.text, r.value.m)
    ensures r.None? <==> forall k :: 0 <= k < |cands| ==> !Usable(cands[k])
    decreases |cands|
  {
    if cands == [] then None
    else if Usable(cands[0]) then
      SearchIsLeftmostMatch(cands[0].value);
      Some(Hit(cands[0].value, Search(cands[0].value, 0).value))
    else
      assert forall k :: 1 <= k < |cands| ==> cands[k] == cands[1..][k - 1];
      FirstMatch(cands[1..])
  }

  /** The scan stops at the first usable candidate: later ones are ignored. */
  lemma {:induction false} FirstMatchIsFirst(cands: seq<Option<string>>, k: nat)
    requires k < |cands| && Usable(cands[k])
    requires forall j :: 0 <= j < k ==> !Usable(cands[j])
    ensures FirstMatch(cands) == Some(Hit(cands[k].value, Search(cands[k].value, 0).value))
    decreases k
  {
    if k > 0 {
      FirstMatchIsFirst(cands[1..], k - 1);
    }
  }

  // ---------------------------------------------------------------------
  // One record

  /** A resolved variant call. */
  datatype Variant = Variant(pos: int, alleles: Alleles)

  /** The storing rule: a position and a non-empty alt are required; an
      unresolved ref becomes `.`. */
  function Store(pos: Option<int>, ref: Option<string>, alt: Option<string>): Option<Variant> {
    if pos.Some? && alt.Some? && alt.value != "" then
      Some(Variant(pos.value, Alleles(if ref.None? || ref.value == "" then UnknownRef else ref.value, alt.value)))
    else None
  }

  /** What a variant observation contributes to the map, if anything. */
  function Resolve(res: Resource): Option<Variant>
    requires IsVariantObservation(res)
  {
    var structured := StructuredPosition(res.component);
    var hit := FirstMatch(RecordCandidates(res));
    if hit.None? then Store(structured, None, None)
    else
      var h := hit.value;
      var pos := if structured.None? then Some(Position(h.text, h.m) as int) else structured;
      Store(pos, Some(RefOf(h.text, h.m)), Some(AltOf(h.text, h.m)))
  }

  /** What an entry contributes to the map, if anything. */
  function EntryVariant(e: Entry): Option<Variant> {
    if e.resource.Some? && IsVariantObservation(e.resource.value) then Resolve(e.resource.value)
    else None
  }

  /** A variant observation yields an entry exactly when one of its
      candidates matches the HGVS pattern; the structured position is then
      used when present, the HGVS digits otherwise; the alleles are always
      the groups of the first match; and the ref is never the `.`
      sentinel, because it is resolved together with the alt. */
  lemma ResolveCharacterized(res: Resource)
    requires IsVariantObservation(res)
    ensures Resolve(res).Some? <==> FirstMatch(RecordCandidates(res)).Some?
    ensures Resolve(res).Some? ==>
      var h := FirstMatch(RecordCandidates(res)).value;
      var structured := StructuredPosition(res.component);
      && Resolve(res).value.pos == (if structured.Some? then structured.value else Position(h.text, h.m))
      && Resolve(res).value.alleles == Alleles(RefOf(h.text, h.m), AltOf(h.text, h.m))
      && Resolve(res).value.alleles.ref != UnknownRef
  {
    var hit := FirstMatch(RecordCandidates(res));
    if hit.Some? {
      var h := hit.value;
      GroupsOfMatch(h.text, h.m);
      assert RefOf(h.text, h.m)[0] != '.';
    }
  }

  /** An entry contributes exactly when its resource is a variant
      observation with a candidate that matches the HGVS pattern; resources
      of another type, without the LOINC code, or absent, contribute
      nothing. */
  lemma EntryVariantQualifies(e: Entry)
    ensures EntryVariant(e).Some? <==>
            e.resource.Some? && IsVariantObservation(e.resource.value) &&
            FirstMatch(RecordCandidates(e.resource.value)).Some?
  {
    if e.resource.Some? && IsVariantObservation(e.resource.value) {
      ResolveCharacterized(e.resource.value);
    }
  }

  // ---------------------------------------------------------------------
  // The whole bundle

  /** What each entry contributes, in bundle order. */
  function EntryResults(entries: seq<Entry>): (r: seq<Option<Variant>>)
    ensures |r| == |entries|
  {
    seq(|entries|, i requires 0 <= i < |entries| => EntryVariant(entries[i]))
  }

  /** The map built from the per-entry results in order, a later result
      overwriting an earlier one at the same position. */
  function Collect(results: seq<Option<Variant>>): map<int, Alleles>
    decreases |results|
  {
    if results == [] then map[]
    else
      var m := Collect(results[..|results| - 1]);
      var v := results[|results| - 1];
      if v.Some? then m[v.value.pos := v.value.alleles] else m
  }

  /** The position map of a bundle; a bundle without `entry` gives the
      empty map. */
  function BundleVariants(b: Bundle): map<int, Alleles> {
    if b.entry.Some? then Collect(EntryResults(b.entry.value)) else map[]
  }

  /** `v` is a variant at position `p`. */
  predicate ResolvesAt(v: Option<Variant>, p: int) {
    v.Some? && v.value.pos == p
  }

  /** A position is in the map exactly when some result is at it. */
  lemma {:induction false} CollectKeys(results: seq<Option<Variant>>, p: int)
    ensures p in Collect(results) <==> exists k :: 0 <= k < |results| && ResolvesAt(results[k], p)
    decreases |results|
  {
    if results != [] {
      var n := |results| - 1;
      var init := results[..n];
      CollectKeys(init, p);
      if exists k :: 0 <= k < |init| && ResolvesAt(init[k], p) {
        var k :| 0 <= k < |init| && ResolvesAt(init[k], p);
        assert init[k] == results[k];
      }
      if exists k :: 0 <= k < |results| && ResolvesAt(results[k], p) {
        var k :| 0 <= k < |results| && ResolvesAt(results[k], p);
        if k < n {
          assert init[k] == results[k];
        }
      }
    }
  }

  /** Last write wins: a position holds the alleles of the last result at
      that position. */
  lemma {:induction false} CollectLastWriteWins(results: seq<Option<Variant>>, k: nat)
    requires k < |results| && results[k].Some?
    requires forall j :: k < j < |results| ==> !ResolvesAt(results[j], results[k].value.pos)
    ensures results[k].value.pos in Collect(results)
    ensures Collect(results)[results[k].value.pos] == results[k].value.alleles
    decreases |results|
  {
    var n := |results| - 1;
    if k < n {
      var init := results[..n];
      assert init[k] == results[k];
      assert forall j :: k < j < |init| ==> init[j] == results[j];
      CollectLastWriteWins(init, k);
    }
  }

  /** Results without the `.` sentinel give a map without it. */
  lemma {:induction false} CollectNoSentinel(results: seq<Option<Variant>>)
    requires forall k :: 0 <= k < |results| && results[k].Some? ==> results[k].value.alleles.ref != UnknownRef
    ensures forall p :: p in Collect(results) ==> Collect(results)[p].ref != UnknownRef
    decreases |results|
  {
    if results != [] {
      var init := results[..|results| - 1];
      assert forall k :: 0 <= k < |init| ==> init[k] == results[k];
      CollectNoSentinel(init);
    }
  }

  /** No results, no map entries: a bundle with no record that resolves
      gives the empty map. */
  lemma {:induction false} CollectNothing(results: seq<Option<Variant>>)
    requires forall k :: 0 <= k < |results| ==> results[k].None?
    ensures Collect(results) == map[]
    decreases |results|
  {
    if results != [] {
      var init := results[..|results| - 1];
      assert forall k :: 0 <= k < |init| ==> init[k] == results[k];
      CollectNothing(init);
    }
  }

  /** A position is in a bundle's map exactly when some entry of the
      bundle resolves to it. */
  lemma BundleKeys(b: Bundle, p: int)
    ensures p in BundleVariants(b) <==>
            b.entry.Some? && exists k :: 0 <= k < |b.entry.value| && ResolvesAt(EntryVariant(b.entry.value[k]), p)
  {
    if b.entry.Some? {
      var rs := EntryResults(b.entry.value);
      CollectKeys(rs, p);
      assert forall k :: 0 <= k < |rs| ==> rs[k] == EntryVariant(b.entry.value[k]);
    }
  }

  /** Of two records resolving to the same position the later one's
      alleles are kept. */
  lemma BundleLastWriteWins(b: Bundle, k: nat)
    requires b.entry.Some? && k < |b.entry.value| && EntryVariant(b.entry.value[k]).Some?
    requires forall j :: k < j < |b.entry.value| ==>
               !ResolvesAt(EntryVariant(b.entry.value[j]), EntryVariant(b.entry.value[k]).value.pos)
    ensures EntryVariant(b.entry.value[k]).value.pos in BundleVariants(b)
    ensures BundleVariants(b)[EntryVariant(b.entry.value[k]).value.pos] == EntryVariant(b.entry.value[k]).value.alleles
  {
    var rs := EntryResults(b.entry.value);
    assert forall j :: 0 <= j < |rs| ==> rs[j] == EntryVariant(b.entry.value[j]);
    CollectLastWriteWins(rs, k);
  }

  /** The extracted map never holds the `.` sentinel as a ref. */
  lemma BundleNoSentinel(b: Bundle)
    ensures forall p :: p in BundleVariants(b) ==> BundleVariants(b)[p].ref != UnknownRef
  {
    if b.entry.Some? {
      var rs := EntryResults(b.entry.value);
      forall k | 0 <= k < |rs| && rs[k].Some? ensures rs[k].value.alleles.ref != UnknownRef {
        var e := b.entry.value[k];
        ResolveCharacterized(e.resource.value);
      }
      CollectNoSentinel(rs);
    }
  }

  // ---------------------------------------------------------------------
  // The extractor as the source runs it

  /** `parse_fhir_variants` on an already-parsed bundle and an
      already-extracted basename. */
  method ParseFhirVariants(basename: string, bundle: Bundle) returns (sampleId: string, variants: map<int, Alleles>)
    ensures sampleId == SampleId(basename)
    ensures variants == BundleVariants(bundle)
  {
    sampleId := ReplaceAll(ReplaceAll(ReplaceAll(basename, ".fhir.json", ""), ".merged", ""), ".json", "");
    variants := map[];
    if bundle.entry.Some? {
      var entries := bundle.entry.value;
      ghost var results := EntryResults(entries);
      for i := 0 to |entries|
        invariant variants == Collect(results[..i])
      {
        assert results[..i + 1][..i] == results[..i];
        var res := entries[i].resource;
        if res.Some? && res.value.resourceType == Some(ObservationType) {
          var isVariant := HasCode(res.value.code, VariantCode);
          if isVariant {
            var v := ResolveRecord(res.value);
            if v.Some? {
              variants := variants[v.value.pos := v.value.alleles];
            }
          }
        }
      }
      assert results[..|entries|] == results;
    }
  }

  /** The body of the entry loop for one variant observation: resolve the
      structured position, collect the HGVS candidates, scan them for the
      first match, and apply the storing rule. */
  method ResolveRecord(res: Resource) returns (v: Option<Variant>)
    requires IsVariantObservation(res)
    ensures v == Resolve(res)
  {
    var pos := ScanPosition(res.component);
    var refAllele: Option<string> := None;
    var altAllele: Option<string> := None;
    var candidates := CollectCandidates(res);
    var hit := ScanCandidates(candidates);
    if hit.Some? {
      var h := hit.value;
      if pos.None? {
        pos := Some(Position(h.text, h.m));
      }
      refAllele := Some(RefOf(h.text, h.m));
      altAllele := Some(AltOf(h.text, h.m));
    }
    v := Store(pos, refAllele, altAllele);
  }

  /** The component loop: every coding 81254-5 of a component assigns the
      position from that component's value fields. */
  method ScanPosition(comps: seq<Component>) returns (pos: Option<int>)
    ensures pos == StructuredPosition(comps)
  {
    pos := None;
    for j := 0 to |comps|
      invariant pos == StructuredPosition(comps[..j])
    {
      assert comps[..j + 1][..j] == comps[..j];
      var comp := comps[j];
      ghost var before := pos;
      for c := 0 to |comp.code|
        invariant pos == if HasCode(comp.code[..c], StartEndCode) then ValuePosition(comp, before) else before
      {
        assert forall x :: 0 <= x < c ==> comp.code[..c + 1][x] == comp.code[..c][x];
        assert comp.code[..c + 1][c] == comp.code[c];
        var code := comp.code[c].code;
        if code == Some(StartEndCode) {
          if comp.valueRange.Some? {
            pos := comp.valueRange.value.low;
          } else if comp.valueInteger.Some? {
            pos := Some(comp.valueInteger.value);
          }
        }
      }
      assert comp.code[..|comp.code|] == comp.code;
    }
    assert comps[..|comps|] == comps;
  }

  /** Append the codes of the qualifying codings of `codings` to `acc`. */
  method AppendCandidates(acc: seq<Option<string>>, codings: seq<Coding>) returns (r: seq<Option<string>>)
    ensures r == acc + Candidates(codings)
  {
    r := acc;
    for c := 0 to |codings|
      invariant r == acc + Candidates(codings[..c])
    {
      assert codings[..c + 1][..c] == codings[..c];
      if IsHgvsCandidate(codings[c]) {
        r := r + [codings[c].code];
      }
    }
    assert codings[..|codings|] == codings;
  }

  /** The candidate lists: record-level codings first, then each
      component's in order. */
  method CollectCandidates(res: Resource) returns (candidates: seq<Option<string>>)
    ensures candidates == RecordCandidates(res)
  {
    candidates := AppendCandidates([], res.valueCodeableConcept);
    var comps := res.component;
    for j := 0 to |comps|
      invariant candidates == Candidates(res.valueCodeableConcept) + ComponentCandidates(comps[..j])
    {
      assert comps[..j + 1][..j] == comps[..j];
      candidates := AppendCandidates(candidates, comps[j].valueCodeableConcept);
    }
    assert comps[..|comps|] == comps;
  }

  /** The scan with `break`: empty and absent candidates are skipped, and
      the first candidate the pattern matches ends the scan. */
  method ScanCandidates(candidates: seq<Option<string>>) returns (hit: Option<Hit>)
    ensures hit == FirstMatch(candidates)
  {
    hit := None;
    for k := 0 to |candidates|
      invariant FirstMatch(candidates) == FirstMatch(candidates[k..])
    {
      var hgvs := candidates[k];
      if hgvs.Some? && hgvs.value != "" {
        var m := Search(hgvs.value, 0);
        if m.Some? {
          hit := Some(Hit(hgvs.value, m.value));
          assert FirstMatch(candidates[k..]) == hit;
          return;
        }
      }
      assert candidates[k..][1..] == candidates[k + 1..];
    }
  }
}
