/** The two-step pipeline: detect, then mask, reporting the original text,
    the masked text and the detected entities. */
module Pipeline {
  import opened Text
  import opened Entities
  import opened Masking
  import opened Detection
  import opened Workflow

  /** The pipeline's result record, with its three keys. */
  datatype PipelineResult = PipelineResult(
    originalText: string,
    maskedText: string,
    detectedPii: seq<Entity>)

  /** `run_pii_masking_pipeline`. */
  function RunPiiMaskingPipeline(text: string): (r: PipelineResult)
    ensures r.originalText == text
    ensures r.detectedPii == DetectPii(text).piiEntities
    ensures r.maskedText == MaskPii(text, r.detectedPii)
  {
    var detected := DetectPii(text).piiEntities;
    PipelineResult(text, MaskPii(text, detected), detected)
  }

  /** The two-step pipeline and a run of the graph from the initial state
      agree: same text, same masked text, and the graph's entities are the
      pipeline's detected entities with the same types and values. */
  lemma PipelineAgreesWithGraph(text: string)
    ensures Invoke(InitialState(text)).Success?
    ensures Invoke(InitialState(text)).value.text == RunPiiMaskingPipeline(text).originalText
    ensures Invoke(InitialState(text)).value.maskedText == RunPiiMaskingPipeline(text).maskedText
    ensures |Invoke(InitialState(text)).value.piiEntities| == |RunPiiMaskingPipeline(text).detectedPii|
    ensures forall i :: 0 <= i < |RunPiiMaskingPipeline(text).detectedPii| ==>
              Invoke(InitialState(text)).value.piiEntities[i].kind ==
                RunPiiMaskingPipeline(text).detectedPii[i].kind &&
              Invoke(InitialState(text)).value.piiEntities[i].value ==
                RunPiiMaskingPipeline(text).detectedPii[i].value
  {
    InvokeOutcome(InitialState(text));
  }
}
