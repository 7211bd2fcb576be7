# fhir_consensus in Dafny

A model of the consensus builder in `scripts/fhir_consensus.py`. It has two parts.

1. Variant extraction (`parse_fhir_variants`) walks a FHIR Bundle.
   - It keeps the `Observation` resources coded with LOINC `69548-6`.
   - For each one it resolves a position and a `(ref, alt)` pair. The position comes from a `81254-5` component, or else from the digits of the first HGVS genomic substitution (`g.<pos><ref>><alt>`) among the record's candidate codings.
   - It builds the map `position -> (ref, alt)`, where a later record overwrites an earlier one at the same position.
   - It also derives the sample id from the file's basename.
2. Consensus assembly (the loop in `main`) explodes the reference into one cell per base. It applies the variants in strictly descending position order: a variant writes `alt` into cell `pos-1` and blanks the cells its known `ref` spans. Then it joins the cells. The record's description reports the size of the variant map.

Modules:

- `Wrappers`: `Option`.
- `Text`: substring tests, Python's `str.replace`, decimal numerals.
- `Hgvs`: the regular expression `g\.(\d+)([ACGTN]+)>([ACGTN]+)` as a leftmost scanner with greedy groups.
- `Fhir`: the parts of the JSON document that are read.
- `Extract`: the extraction, as a method with loops proved equal to a fold-style specification.
- `Consensus`: the assembly, as methods editing an `array<string>` in place, proved equal to a specification over sequences.
- `Pipeline`: the output record.

The model takes the JSON document as already parsed, the basename as already extracted, and the reference and its id as already loaded.

Observations the proofs bring out:

- The regex always supplies `ref` and `alt` together, and both are non-empty. So extraction never stores the `.` sentinel (`Extract.BundleNoSentinel`). The assembler's `.` branch is reachable only for maps that come from elsewhere.
- The buffer never changes length. Blanking a cell leaves an empty cell, so later indices do not shift. The descending order therefore matters only where spans overlap. `Consensus.DisjointEditsCommute` states this for a pair of edits, and `Consensus.LowerEditWinsOnOverlap` shows an overlapping pair where the order decides; no lemma lifts the pairwise fact to a whole map.
- `str.replace` removes a pattern wherever it occurs, not only as a suffix. The sample-id lemmas cover only stems without `.`, followed by `.fhir.json`, `.merged.fhir.json` or `.json`. The fetch step (scripts/fetch_fhir_data.py) names bundles `<id>.fhir.json` after the id in a `Patient/<id>` reference, and a FHIR id may contain `.`; such names are outside these lemmas.

## Model

| member | source | states |
|---|---|---|
| Text.Contains | scripts/fhir_consensus.py:45 | the substring test `t in s` holds exactly when `t` occurs at some index of `s` |
| Text.ReplaceAll | scripts/fhir_consensus.py:17 | `str.replace` leaves a string without the pattern unchanged and never lengthens it when the replacement is no longer than the pattern |
| Text.DeleteTrailing | scripts/fhir_consensus.py:17 | removing a pattern that occurs only as the suffix gives the string before it |
| Text.DecimalString | scripts/fhir_consensus.py:106 | the numeral `str(n)` is non-empty, all digits, without a leading zero |
| Text.DecimalRoundTrip | scripts/fhir_consensus.py:106 | `int(str(n)) == n` |
| Text.LeadingZeroIgnored | scripts/fhir_consensus.py:60 | `int` ignores a leading zero, so `g.007` reads as position 7 |
| Extract.SampleId | scripts/fhir_consensus.py:17 | the sample id is the basename with every `.fhir.json` removed, then every `.merged`, then every `.json`, as three `str.replace` calls in that order |
| Extract.SampleIdOfBundleName | scripts/fhir_consensus.py:17 | for a stem without `.`, the sample id of `<stem>.fhir.json` is the stem |
| Extract.SampleIdOfMergedName | scripts/fhir_consensus.py:17 | for a stem without `.`, the sample id of `<stem>.merged.fhir.json` is the stem: the middle `.merged` is removed after `.fhir.json` |
| Extract.SampleIdOfJsonName | scripts/fhir_consensus.py:17 | for a stem without `.`, the sample id of a name `<stem>.json` is the stem (the third `replace`'s case) |
| Text.DecimalValue | scripts/fhir_consensus.py:60 | `int` of a digit string, read most significant digit first; it is applied only to the non-empty digit group of a match |
| Hgvs.MatchAt | scripts/fhir_consensus.py:57 | the pattern tried at one index: `g.`, then the longest digit run, the longest base run, `>`, and the longest base run, each group non-empty, or no match |
| Hgvs.RunLength | scripts/fhir_consensus.py:57 | a greedy group stops at the end of the string or at the first character outside its class |
| Hgvs.MatchAtSound | scripts/fhir_consensus.py:57 | what the scanner finds at an index is a match of the pattern there whose last group cannot be extended |
| Hgvs.MatchAtComplete | scripts/fhir_consensus.py:57 | every match of the pattern at an index is found there, with the same digit and ref groups and an alt group at least as long |
| Hgvs.Search | scripts/fhir_consensus.py:57 | `re.search` returns the match at the first index where one exists, and none when no index has one |
| Hgvs.SearchIsLeftmostMatch | scripts/fhir_consensus.py:57-58 | a found match is a greedy match and no match of the pattern starts earlier; when nothing is found the pattern matches nowhere |
| Hgvs.GroupsOfMatch | scripts/fhir_consensus.py:60-63 | the three groups of a match are non-empty: digits, then bases, then bases |
| Hgvs.DigitsOf | scripts/fhir_consensus.py:60 | `match.group(1)`: the text of the digit group, from just after `g.` for the group's length |
| Hgvs.RefOf | scripts/fhir_consensus.py:62 | `match.group(2)`: the text of the first base group, right after the digits |
| Hgvs.AltOf | scripts/fhir_consensus.py:63 | `match.group(3)`: the text of the second base group, from just after `>` to the end of the match |
| Hgvs.Position | scripts/fhir_consensus.py:60 | `int(match.group(1))`: the decimal value of the match's digit group |
| Extract.HasCode | scripts/fhir_consensus.py:25 | `any(...)`: some coding of the list has exactly the given `code` |
| Extract.IsVariantObservation | scripts/fhir_consensus.py:23-25 | a resource is processed when its `resourceType` is `Observation` and one of its `code.coding` entries has code `69548-6` |
| Extract.ValuePosition | scripts/fhir_consensus.py:36-39 | one `81254-5` coding's assignment: `valueRange.low.value` when the component has `valueRange` (None when `low.value` is absent), else `valueInteger` when present, else the position so far |
| Extract.ComponentPosition | scripts/fhir_consensus.py:33-39 | a component changes the position only when one of its codings is `81254-5`, and then by that assignment |
| Extract.StructuredPosition | scripts/fhir_consensus.py:32-39 | the components are scanned in order from no position; each `81254-5` coding of a component with `valueRange` sets the position to `valueRange.low.value` (possibly none), else with `valueInteger` to that value, and otherwise the position is kept |
| Extract.StructuredPositionAbsent | scripts/fhir_consensus.py:32-39 | no position is resolved from components when no `81254-5` component has `valueRange` or `valueInteger` |
| Extract.StructuredPositionLastWins | scripts/fhir_consensus.py:32-39 | the last `81254-5` component with a value decides the position: `valueRange.low.value` (possibly none) before `valueInteger` |
| Extract.ScanPosition | scripts/fhir_consensus.py:32-39 | the nested component and coding loops compute the structured position |
| Extract.IsHgvsCandidate | scripts/fhir_consensus.py:45 | a coding is a candidate when its `system` (empty when absent) contains `hgvs` or its `code` (empty when absent) contains `:` |
| Extract.Candidates | scripts/fhir_consensus.py:43-46 | the collected codes are the codes of the codings whose system contains `hgvs` or whose code contains `:`, and there are no more of them than codings |
| Extract.AppendCandidates | scripts/fhir_consensus.py:44-46 | the loop appends exactly those codes to the list |
| Extract.ComponentCandidates | scripts/fhir_consensus.py:48-52 | the candidates of each component's `valueCodeableConcept.coding`, component after component in order |
| Extract.RecordCandidates | scripts/fhir_consensus.py:41-52 | the record's own `valueCodeableConcept` candidates first, then the components' candidates |
| Extract.CollectCandidates | scripts/fhir_consensus.py:41-52 | record-level candidates come first, then each component's, in order |
| Extract.Usable | scripts/fhir_consensus.py:55-58 | a candidate the scan accepts: present and non-empty (else `continue`) and one in which `re.search` finds the pattern |
| Extract.FirstMatch | scripts/fhir_consensus.py:54-64 | a hit is a greedy match of its candidate; there is no hit exactly when no candidate is non-empty and matching |
| Extract.FirstMatchIsFirst | scripts/fhir_consensus.py:54-64 | the first non-empty matching candidate and its leftmost match are taken, and later candidates are ignored |
| Extract.ScanCandidates | scripts/fhir_consensus.py:54-64 | the loop with `continue` and `break` finds that first hit |
| Extract.Store | scripts/fhir_consensus.py:66-70 | a position and a non-empty alt give a stored variant, with a missing or empty ref replaced by `.`; anything else stores nothing |
| Extract.Resolve | scripts/fhir_consensus.py:28-70 | a variant observation's contribution: the structured position, or the first hit's digits when there is none, with the first hit's ref and alt, passed through the storing rule |
| Extract.ResolveCharacterized | scripts/fhir_consensus.py:28-70 | a variant observation is stored exactly when a candidate matches; the structured position wins over the HGVS digits; the alleles are the match's groups; the ref is never `.` |
| Extract.EntryVariant | scripts/fhir_consensus.py:22-27 | an entry's contribution: nothing when its `resource` is absent or is not a `69548-6` Observation, else the resolution of that record |
| Extract.EntryVariantQualifies | scripts/fhir_consensus.py:22-27 | an entry contributes only if its resource is present, an `Observation`, coded `69548-6`, and has a matching candidate |
| Extract.ResolveRecord | scripts/fhir_consensus.py:28-70 | the per-record loops compute that record's contribution |
| Extract.EntryResults | scripts/fhir_consensus.py:20-21 | the contributions of the entries, one per entry, in bundle order |
| Extract.Collect | scripts/fhir_consensus.py:20-70 | the per-entry results folded into a map in bundle order, each variant overwriting the entry at its position and an absent result leaving the map as it is |
| Extract.BundleVariants | scripts/fhir_consensus.py:18-21 | a bundle without `entry` gives the empty map, any other the fold of its entries' results |
| Extract.CollectKeys | scripts/fhir_consensus.py:20-70 | a position is a key of the map exactly when some entry resolves to it |
| Extract.CollectLastWriteWins | scripts/fhir_consensus.py:70 | a position holds the alleles of the last entry resolving to it |
| Extract.CollectNothing | scripts/fhir_consensus.py:18-70 | when no entry contributes, the map is empty |
| Extract.CollectNoSentinel | scripts/fhir_consensus.py:66-70 | when no contribution has the `.` ref, the map has none |
| Extract.BundleKeys | scripts/fhir_consensus.py:20-70 | a position is in a bundle's map exactly when the bundle has entries and one of them resolves to it |
| Extract.BundleLastWriteWins | scripts/fhir_consensus.py:70 | of two records resolving to the same position, the later one's alleles are kept |
| Extract.BundleNoSentinel | scripts/fhir_consensus.py:66-70 | the extracted map never holds the `.` sentinel |
| Extract.ParseFhirVariants | scripts/fhir_consensus.py:13-72 | the extraction returns the sample id of the basename and the map of the bundle |
| Consensus.Explode | scripts/fhir_consensus.py:84 | `list(s)`: one cell per character of the reference, holding that character |
| Consensus.Join | scripts/fhir_consensus.py:101 | `"".join(cells)`: the cells concatenated in order |
| Consensus.JoinExplode | scripts/fhir_consensus.py:84-101 | `"".join(list(s)) == s` |
| Consensus.ApplyEdit | scripts/fhir_consensus.py:88-99 | one pass of the loop body: a position with `pos-1` outside the buffer changes nothing; otherwise cell `pos-1` becomes `alt` and, unless the ref is `.`, the next `len(ref)-1` cells that exist become empty |
| Consensus.OutOfRangeNoOp | scripts/fhir_consensus.py:88-91 | a position with `pos-1` outside the buffer changes no cell and raises no error |
| Consensus.SentinelEdit | scripts/fhir_consensus.py:98-99 | with the `.` ref only cell `pos-1` changes, to `alt` |
| Consensus.KnownRefEdit | scripts/fhir_consensus.py:92-97 | with a known ref of length `L`, cell `pos-1` becomes `alt`, the next `min(L-1, n-pos)` cells become empty, and every other cell is kept; nothing is written past the end |
| Consensus.EditFrame | scripts/fhir_consensus.py:88-99 | an edit leaves every cell outside its span unchanged |
| Consensus.DisjointEditsCommute | scripts/fhir_consensus.py:85-99 | edits whose spans are disjoint give the same buffer in either order |
| Consensus.LowerEditWinsOnOverlap | scripts/fhir_consensus.py:85-97 | when a lower position's span covers a higher position's cell, the descending order leaves that cell blank, and the other order would leave the higher position's alt |
| Consensus.DescendingOrder | scripts/fhir_consensus.py:85 | the keys listed by taking the largest remaining one each time |
| Consensus.MaxOf | scripts/fhir_consensus.py:85 | the chosen key is in the set and no key exceeds it |
| Consensus.DescendingOrderSorted | scripts/fhir_consensus.py:85 | `sorted(keys, reverse=True)` lists exactly the keys, once each, strictly decreasing |
| Consensus.DescendingOrderUnique | scripts/fhir_consensus.py:85 | any strictly decreasing listing of the keys is that order, so the visiting order depends only on the key set |
| Consensus.ApplyAll | scripts/fhir_consensus.py:87-99 | the edits of the listed positions applied one after another in list order, each with the map's alleles at its position |
| Consensus.ConsensusOf | scripts/fhir_consensus.py:84-101 | the reference exploded into cells, the map's edits applied in descending position order, and the cells joined |
| Consensus.ApplyAllOutOfRange | scripts/fhir_consensus.py:87-99 | edits at positions outside the buffer leave it as it was |
| Consensus.ConsensusOutOfRange | scripts/fhir_consensus.py:84-101 | an empty map, or one whose positions all lie outside the reference, gives the reference unchanged |
| Consensus.ApplyAllSingleCells | scripts/fhir_consensus.py:87-99 | with edits that write one cell each, a listed position's cell holds its alt and every other cell is kept, whatever the order |
| Consensus.ConsensusSingleCells | scripts/fhir_consensus.py:84-101 | with such edits, the consensus is the reference with each in-range position's base replaced by its alt |
| Consensus.ExampleTwoSubstitutions | scripts/fhir_consensus.py:84-101 | `AAAAAA` with `{2: (., C), 5: (., G)}` gives `ACAAGA` |
| Consensus.ExampleKnownRef | scripts/fhir_consensus.py:84-101 | `ACGTAA` with `{2: (CG, T)}` gives `ATTAA` |
| Consensus.ExampleOverlap | scripts/fhir_consensus.py:84-101 | `ACGTAA` with `{2: (CGT, T), 3: (., X)}` gives `ATAA`: the lower position's blanking wins |
| Consensus.ApplyVariant | scripts/fhir_consensus.py:88-99 | one loop body edits the array in place exactly as the single-edit specification says |
| Consensus.ApplyInOrder | scripts/fhir_consensus.py:87-99 | the loop over positions applies the edits in the listed order |
| Consensus.Assemble | scripts/fhir_consensus.py:84-101 | the assembly returns the consensus of the reference and the map |
| Pipeline.DescriptionOf | scripts/fhir_consensus.py:106 | the description is the fixed head, the reference id, the `Variants: ` label and the count's decimal numeral, concatenated |
| Pipeline.RecordOf | scripts/fhir_consensus.py:103-107 | the record has the basename's sample id as id, the consensus of the reference and the bundle's map as sequence, and the description with that map's size |
| Pipeline.DescriptionCount | scripts/fhir_consensus.py:106 | the text after `Variants: ` is a decimal numeral that denotes the map size |
| Pipeline.DescriptionInjective | scripts/fhir_consensus.py:106 | two descriptions for the same reference id are equal exactly when the counts are |
| Pipeline.NoVariantsRecord | scripts/fhir_consensus.py:18-106 | a bundle with no entry, or none contributing, gives the reference unchanged and a count of 0 |
| Pipeline.OutOfRangeStillCounted | scripts/fhir_consensus.py:91-106 | variants outside the reference change no base but are still counted |
| Pipeline.ConsensusRecord | scripts/fhir_consensus.py:81-107 | the record has the sample id as id, the consensus as sequence, and the description with the map size |

## Left out

- File and library I/O become parameters:
  - `open` and `json.load` (lines 14-15): the bundle is given already parsed.
  - `os.path.basename` (line 17): the basename is given.
  - `argparse` (lines 75-79).
  - `load_reference` and Biopython's `SeqIO.read` (lines 9-11 and 81): the reference string and its id are given.
  - Writing the FASTA file (lines 109-110) is not modelled. `SeqRecord` is the `Pipeline.Record` datatype.
- JSON values of unexpected types are not modelled; every value has the type the code expects. This covers:
  - `null` where the code iterates over a list, such as `entry` or `coding` (Python raises `TypeError`);
  - `null` where the code tests a string with `in`, such as `system` at line 45 (`TypeError`);
  - `null` where the code calls `.get` on an object, such as `code` at line 24 or `valueRange` at line 37 (`AttributeError`);
  - floats or strings as positions;
  - a `valueInteger` key holding `null`.

  An absent key is modelled, as the `.get` default the code gives it.
- Hgvs: `\d` is modelled as the ASCII digits `0`-`9`. For `str` patterns, Python's `\d` also matches other Unicode decimal digits, and `int` accepts them.
- Consensus.DescendingOrder: `sorted(..., reverse=True)` is a library call, so it is modelled as a function, not as a sorting loop. Python's `"".join` is the function `Consensus.Join`.
- Extract.SampleId: the lemmas cover stems without `.` followed by `.fhir.json`, `.merged.fhir.json` or `.json`. Ids containing `.` are not covered. Other occurrences of `.fhir.json`, `.merged` or `.json` inside a name are removed too, but no lemma states this.
- scripts/fetch_fhir_data.py and scripts/get_versions.py are not part of this model: they are network access and version printing.
