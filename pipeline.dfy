/** The end of `main`: the consensus record built from a bundle, an
    already-loaded reference and its id. The record's id is the sample id,
    its sequence the consensus, and its description reports the number of
    entries in the variant map. */
module Pipeline {
  import opened Wrappers
  import opened Text
  import opened Fhir
  import opened Extract
  import opened Consensus

  /** The output record: `SeqRecord(Seq(sequence), id=..., description=...)`. */
  datatype Record = Record(id: string, description: string, sequence: string)

  /** Text before the reference id in the description. */
  const DescriptionHead: string := "Consensus sequence | Reference: "

  /** Text between the reference id and the count. */
  const CountLabel: string := " | Variants: "

  /** The description line for a reference id and a variant count. */
  function DescriptionOf(refId: string, count: nat): string {
    DescriptionHead + refId + CountLabel + DecimalString(count)
  }

  /** The record the pipeline writes for one bundle. */
  function RecordOf(basename: string, bundle: Bundle, reference: string, refId: string): Record {
    var variants := BundleVariants(bundle);
    Record(SampleId(basename), DescriptionOf(refId, |variants|), ConsensusOf(reference, variants))
  }

  /** The count can be read back from the description: the text after the
      label is the decimal numeral of the count and denotes it. */
  lemma DescriptionCount(refId: string, count: nat)
    ensures var d := DescriptionOf(refId, count);
            var k := |DescriptionHead| + |refId| + |CountLabel|;
            k < |d| && AllDigits(d[k..]) && DecimalValue(d[k..]) == count
  {
    var d := DescriptionOf(refId, count);
    var k := |DescriptionHead| + |refId| + |CountLabel|;
    assert d[k..] == DecimalString(count);
    DecimalRoundTrip(count);
  }

  /** Descriptions for the same reference id differ exactly when the
      counts do. */
  lemma DescriptionInjective(refId: string, m: nat, n: nat)
    ensures DescriptionOf(refId, m) == DescriptionOf(refId, n) <==> m == n
  {
    if DescriptionOf(refId, m) == DescriptionOf(refId, n) {
      DescriptionCount(refId, m);
      DescriptionCount(refId, n);
    }
  }

  /** A bundle with no entry, or none contributing a variant, gives the
      reference unchanged and a count of 0. */
  lemma NoVariantsRecord(basename: string, bundle: Bundle, reference: string, refId: string)
    requires bundle.entry.Some? ==>
             forall k :: 0 <= k < |bundle.entry.value| ==> EntryVariant(bundle.entry.value[k]).None?
    ensures RecordOf(basename, bundle, reference, refId).sequence == reference
    ensures RecordOf(basename, bundle, reference, refId).description == DescriptionOf(refId, 0)
  {
    if bundle.entry.Some? {
      var rs := EntryResults(bundle.entry.value);
      assert forall k :: 0 <= k < |rs| ==> rs[k].None?;
      CollectNothing(rs);
    }
    ConsensusOutOfRange(reference, map[]);
  }

  /** Variants whose positions lie outside the reference leave the
      sequence unchanged but are still counted in the description. */
  lemma OutOfRangeStillCounted(basename: string, bundle: Bundle, reference: string, refId: string)
    requires forall p :: p in BundleVariants(bundle) ==> !(0 <= p - 1 < |reference|)
    ensures RecordOf(basename, bundle, reference, refId).sequence == reference
    ensures var d := RecordOf(basename, bundle, reference, refId).description;
            var k := |DescriptionHead| + |refId| + |CountLabel|;
            k < |d| && DecimalValue(d[k..]) == |BundleVariants(bundle)|
  {
    ConsensusOutOfRange(reference, BundleVariants(bundle));
    DescriptionCount(refId, |BundleVariants(bundle)|);
  }

  /** The tail of `main`: extract, assemble, build the record. */
  method ConsensusRecord(basename: string, bundle: Bundle, reference: string, refId: string) returns (rec: Record)
    ensures rec == RecordOf(basename, bundle, reference, refId)
  {
    var sampleId, variants := ParseFhirVariants(basename, bundle);
    var consensus := Assemble(reference, variants);
    rec := Record(sampleId, DescriptionHead + refId + CountLabel + DecimalString(|variants|), consensus);
  }
}
