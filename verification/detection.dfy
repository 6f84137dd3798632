/** The entity detector in its stub mode, which answers every text with the
    same three illustrative entities. */
module Detection {
  import opened Entities
  import opened Masking

  /** The detector's output record: a single `pii_entities` list. */
  datatype PiiOutput = PiiOutput(piiEntities: seq<Entity>)

  /** `format_pii_output`: wraps an entity list in the output record. */
  function FormatPiiOutput(entities: seq<Entity>): (r: PiiOutput)
    ensures r.piiEntities == entities
  {
    PiiOutput(entities)
  }

  /** The stub's fixed answer: a name, an email address and a phone number. */
  const MockEntities: seq<Entity> := [
    Detected("name", "Nandini"),
    Detected("email", "nandi@gmail.com"),
    Detected("phone", "9876543210")
  ]

  /** `detect_pii` in stub mode: the fixed answer, whatever the text. */
  function DetectPii(text: string): (r: PiiOutput)
    ensures |r.piiEntities| == 3
    ensures r.piiEntities[0] == Detected("name", "Nandini")
    ensures r.piiEntities[1] == Detected("email", "nandi@gmail.com")
    ensures r.piiEntities[2] == Detected("phone", "9876543210")
  {
    FormatPiiOutput(MockEntities)
  }

  /** The stub's answer does not depend on its input. */
  lemma DetectIgnoresText(t1: string, t2: string)
    ensures DetectPii(t1) == DetectPii(t2)
  {
  }

  /** Every entity the stub reports has a non-empty type and a non-empty
      value, and its type has a token: every one of them masks. */
  lemma MockEntitiesWellFormed(text: string)
    ensures forall i :: 0 <= i < |DetectPii(text).piiEntities| ==>
              Truthy(DetectPii(text).piiEntities[i].kind) &&
              Truthy(DetectPii(text).piiEntities[i].value) &&
              Masks(DetectPii(text).piiEntities[i])
  {
  }
}
