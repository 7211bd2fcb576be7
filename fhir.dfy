/** The parts of a FHIR Bundle (an already-parsed JSON document) that the
    variant extractor reads. A JSON list that is absent is the empty
    sequence, as `d.get(key, [])` makes it; a scalar that is absent is
    `None`. */
module Fhir {
  import opened Wrappers

  /** One entry of a `coding` list: `{"system": ..., "code": ...}`. */
  datatype Coding = Coding(system: Option<string>, code: Option<string>)

  /** A `valueRange` object, reduced to `low.value` (absent when either
      `low` or its `value` is). */
  datatype Range = Range(low: Option<int>)

  /** An element of an observation's `component` list: `code.coding`, the
      optional `valueRange` and `valueInteger`, and
      `valueCodeableConcept.coding`. */
  datatype Component = Component(
    code: seq<Coding>,
    valueRange: Option<Range>,
    valueInteger: Option<int>,
    valueCodeableConcept: seq<Coding>)

  /** A resource: `resourceType`, `code.coding`, `component` and
      `valueCodeableConcept.coding`. */
  datatype Resource = Resource(
    resourceType: Option<string>,
    code: seq<Coding>,
    component: seq<Component>,
    valueCodeableConcept: seq<Coding>)

  /** An element of the bundle's `entry` list. */
  datatype Entry = Entry(resource: Option<Resource>)

  /** The bundle; `entry` is `None` when the key is absent. */
  datatype Bundle = Bundle(entry: Option<seq<Entry>>)

  /** The `(ref_allele, alt_allele)` pair stored for a position. */
  datatype Alleles = Alleles(ref: string, alt: string)

  /** The resource type of variant records. */
  const ObservationType := "Observation"
  /** LOINC 69548-6, "Genetic variant assessment". */
  const VariantCode := "69548-6"
  /** LOINC 81254-5, "Genomic allele start-end". */
  const StartEndCode := "81254-5"
  /** The reference allele stored when none was resolved. */
  const UnknownRef := "."
}
