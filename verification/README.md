# PII-Mask redaction core, modelled in Dafny

This project models the text-redaction logic of the PII-Mask service. The
service finds personally identifiable information (names, email addresses and
phone numbers) in a text and replaces each occurrence with a placeholder
token: `[NAME]`, `[EMAIL]` or `[PHONE]`. The model has four parts.

- **Masker.** `mask_pii` folds over the entity list from left to right. Each
  entity whose type and value are both non-empty, and whose type has a token,
  replaces every occurrence of its value in the running text with that token.
  Replacement follows Python's `str.replace`: leftmost first, non-overlapping,
  and the inserted token is never rescanned.
- **Workflow.** The LangGraph workflow is four pure functions over an
  immutable `GraphState` record: detection, classification, masking and
  validation. The graph's edges fix their order. A run of the graph is the
  route from the entry point, followed node by node.
- **Pipeline.** `run_pii_masking_pipeline` is the two-step detect-then-mask
  pipeline.
- **Detector.** The entity detector is modelled in its stub mode only. In
  that mode it returns three fixed entities whatever the text.

Modules:

- `Wrappers`: `Option`, `Result`, and `Get`, which behaves like `dict.get`.
- `Text`: the Python string operations the code relies on, on `seq<char>`.
  These are `pat in s` (`Contains`), the leftmost search (`Find`) and
  `s.replace(pat, tok)` (`ReplaceAll`). They also include `split` and `join`,
  which give replace-all an independent reference description: cut at the
  leftmost non-overlapping occurrences, then join with the token.
- `Entities`: the entity record. Each field is optional, because `dict.get`
  returns `None` both for a missing key and for a null value. `Truthy` is
  Python truthiness.
- `Masking` models `app/pipeline/pii_masking.py`.
- `Detection` models the stub branch of `app/pipeline/pii_detection.py`.
- `Workflow` models `app/pipeline/langgraph_workflow.py`.
- `Pipeline` models `app/pipeline/pii_pipeline.py`.
- `Scenarios` holds the concrete runs the repository's sample code and tests
  exercise, plus the boundary cases the masking and validation stages leave open.

The validation loop reads `entity["value"]`. An entity without a value (a
missing key or a null) makes it raise. The model states this as a
`Failure(MissingValue)` result of `Validate`, which ends a run of the graph;
it is not a precondition, so the model also covers the lists on which the
validation loop raises.

## Model

| member | source | states |
|---|---|---|
| Text.Contains | app/pipeline/langgraph_workflow.py:72 | Python's `pat in s`: some occurrence of the pattern starts within the text (its meaning as a search is `Text.Find`) |
| Text.EmptyOccurs | app/pipeline/langgraph_workflow.py:72 | the empty pattern occurs in every text, which is why an empty value always fails validation |
| Text.Find | app/pipeline/langgraph_workflow.py:72 | Python's `pat in s`: the search fails exactly when the pattern occurs nowhere; otherwise it returns the leftmost occurrence |
| Text.ReplaceAll | app/pipeline/pii_masking.py:42 | Python's `s.replace(pat, tok)` for a non-empty pattern: leftmost, non-overlapping replacement that never rescans an inserted token (its meaning is `Text.ReplaceAllSpec`) |
| Text.ReplaceSameLength | app/pipeline/pii_masking.py:42 | `s.replace(pat, tok)` with a token as long as the pattern keeps the text's length (what `ReplaceAll` computes is stated by `Text.ReplaceAllSpec`) |
| Text.ReplaceAllSpec | app/pipeline/pii_masking.py:42 | `replace` against its reference: for any cut of the text at leftmost, non-overlapping occurrences (no piece holds the value), the result is the pieces joined by the token, so every occurrence is replaced and the text between occurrences is kept |
| Text.SplitFirstPiece | app/pipeline/pii_masking.py:42 | the first piece of a leftmost cut is the piece `split` cuts first, and the rest is split the same way |
| Text.LeftmostSplitUnique | app/pipeline/pii_masking.py:42 | the leftmost non-overlapping cut is unique, so the reference description of `replace` determines its result |
| Text.SplitIsLeftmost | app/pipeline/pii_masking.py:42 | splitting at the value yields such a cut: the pieces join back to the text, and no piece holds the value |
| Text.ReplaceAllIsSplitJoin | app/pipeline/pii_masking.py:42 | `s.replace(v, t)` equals `t.join(s.split(v))` |
| Text.SplitJoinRoundTrip | app/pipeline/pii_masking.py:42 | `v.join(s.split(v))` gives back `s` |
| Text.ReplaceAbsent | app/pipeline/pii_masking.py:42 | text in which the value does not occur comes back unchanged |
| Text.ReplaceAtFront | app/pipeline/pii_masking.py:42 | an occurrence at the front becomes the token, and scanning resumes after the occurrence, never inside the inserted token |
| Text.ReplaceOnly | app/pipeline/pii_masking.py:42 | a single occurrence with none before or after it is replaced in place, and the text on both sides is kept |
| Text.ReplaceKeepsDisjoint | app/pipeline/pii_masking.py:42 | replacing a pattern that shares no character with a non-empty `v` leaves `v` occurring in the text when it occurred before |
| Text.ReplaceByItself | app/pipeline/pii_masking.py:42 | replacing a value by itself changes nothing |
| Masking.TokenTable | app/pipeline/pii_masking.py:11-15 | the token table holds exactly `name`, `email` and `phone`, mapped to `[NAME]`, `[EMAIL]` and `[PHONE]`; every token is non-empty |
| Masking.Masks | app/pipeline/pii_masking.py:36-41 | an entity triggers a replacement exactly when its type and value are non-empty and its type is `name`, `email` or `phone` |
| Masking.MaskEntity | app/pipeline/pii_masking.py:33-42 | one loop step: an entity with truthy type and value, and a type with a token, replaces every occurrence of its value by its token; any other entity leaves the text alone |
| Masking.MaskPii | app/pipeline/pii_masking.py:30-44 | with an empty list, or when no entity would mask, the text comes back unchanged |
| Masking.MaskFold | app/pipeline/pii_masking.py:32-42 | masking with `a ++ b` is masking with `a` and then masking that output with `b`, so entities apply strictly in list order |
| Masking.MaskSingle | app/pipeline/pii_masking.py:39-42 | a list holding one recognised entity is replace-all of its value by its type's token |
| Masking.MaskSkipsInert | app/pipeline/pii_masking.py:36-42 | an entity with an empty or missing type or value, or a type without a token, can be removed from the list without changing the result |
| Masking.MaskOnlyMaskers | app/pipeline/pii_masking.py:32-42 | the result equals masking with only the entities that mask, in their original order |
| Masking.MaskUnchangedWhenAbsent | app/pipeline/pii_masking.py:30-44 | when no masking entity's value occurs in the text, the text is returned unchanged |
| Masking.MaskDependsOnTypeAndValue | app/pipeline/pii_masking.py:33-34 | masking reads nothing but each entity's type and value, so two lists that agree on those mask alike |
| Masking.MaskKeepsValue | app/pipeline/pii_masking.py:32-42 | a non-empty value in the text that shares no character with any masking entity's value is still in the masked text |
| Detection.FormatPiiOutput | app/pipeline/pii_detection.py:33-39 | the formatted record's `pii_entities` is the given list |
| Detection.DetectPii | app/pipeline/pii_detection.py:84-108 | the stub answers with exactly three entities, in order: name `Nandini`, email `nandi@gmail.com`, phone `9876543210` |
| Detection.DetectIgnoresText | app/pipeline/pii_detection.py:84-91 | the stub's answer does not depend on the text |
| Detection.MockEntitiesWellFormed | app/pipeline/pii_detection.py:87-89 | every stub entity has a non-empty type and a non-empty value, and its type has a token, so every stub entity masks |
| Workflow.InitialState | app/pipeline/langgraph_workflow.py:102-107 | a run starts with the text, no entities, an empty masked text, and `is_valid` false |
| Workflow.DetectionNode | app/pipeline/langgraph_workflow.py:23-26 | the entity list becomes the detector's answer for the text; the other fields are untouched |
| Workflow.SensitivityOf | app/pipeline/langgraph_workflow.py:31-43 | sensitivity is `HIGH` exactly for `email` and `phone`, and `LOW` for `name` and for any other or missing type |
| Workflow.ClassifyEntity | app/pipeline/langgraph_workflow.py:40-49 | the classified copy keeps type and value and carries the type's sensitivity |
| Workflow.Classify | app/pipeline/langgraph_workflow.py:37-51 | classification keeps length and order; entity `i` keeps its type and value and gains its type's sensitivity |
| Workflow.ClassificationNode | app/pipeline/langgraph_workflow.py:30-52 | the entity list becomes its classified copy; the text, masked text and verdict are untouched |
| Workflow.ClassifyKeepsMasking | app/pipeline/langgraph_workflow.py:45-49 | masking the classified list gives the same text as masking the unclassified list |
| Workflow.MaskingNode | app/pipeline/langgraph_workflow.py:56-61 | the masked text becomes the entities masked out of the text; nothing else changes |
| Workflow.Validate | app/pipeline/langgraph_workflow.py:69-75 | the loop raises exactly when some entity has no value; otherwise it answers true exactly when no entity's value occurs in the masked text, which holds trivially for an empty list |
| Workflow.ValidationNode | app/pipeline/langgraph_workflow.py:65-76 | the verdict is recorded and nothing else changes; a fault from the loop ends the node |
| Workflow.ValidateDependsOnValues | app/pipeline/langgraph_workflow.py:71-73 | validation reads nothing but each entity's value |
| Workflow.EmptyValueIsInvalid | app/pipeline/langgraph_workflow.py:72-73 | an entity with an empty value is skipped by the masker, yet the empty string occurs in every text, so the verdict is invalid |
| Workflow.UnmaskedValueIsInvalid | app/pipeline/langgraph_workflow.py:71-73 | an entity whose non-empty value occurs in the text, and shares no character with any masking entity's value, does not itself mask; its value is still in the masked text, and the verdict is invalid |
| Workflow.EdgeFrom | app/pipeline/langgraph_workflow.py:90-93 | the edges run detect → classify → mask → validate → end, and each edge moves strictly closer to the end |
| Workflow.Route | app/pipeline/langgraph_workflow.py:88-93 | the route from a node starts at that node and visits one node per remaining step |
| Workflow.GraphOrder | app/pipeline/langgraph_workflow.py:88-93 | from the entry point the graph visits detect, classify, mask and validate, each exactly once and in that order |
| Workflow.RunNode | app/pipeline/langgraph_workflow.py:83-86 | every node except validation always succeeds |
| Workflow.RunRoute | app/pipeline/langgraph_workflow.py:80-95 | running a route that avoids the validation node never fails, and a successful run keeps the text |
| Workflow.Invoke | app/pipeline/langgraph_workflow.py:95 | invoking the compiled graph runs the route from the entry point; a successful run keeps the text |
| Workflow.InvokeIsComposition | app/pipeline/langgraph_workflow.py:80-95 | invoking the compiled graph is the composition validation ∘ masking ∘ classification ∘ detection |
| Workflow.InvokeOutcome | app/pipeline/langgraph_workflow.py:80-95 | a run never raises and keeps the text. It leaves the detector's entities classified, and the masked text is those entities masked out of the text. `is_valid` holds exactly when no detected value occurs in the masked text |
| Workflow.InvokeDependsOnlyOnText | app/pipeline/langgraph_workflow.py:23-76 | a run depends on nothing but the initial text, because every other field is overwritten before it is read |
| Pipeline.RunPiiMaskingPipeline | app/pipeline/pii_pipeline.py:32-42 | `original_text` is the input; `detected_pii` is the detector's list; `masked_text` is that list masked out of the input |
| Pipeline.PipelineAgreesWithGraph | app/pipeline/pii_pipeline.py:13-42 | the pipeline and a graph run from the initial state agree on the text and the masked text, and their entity lists agree in length, type and value |
| Scenarios.MaskKnownEntity | app/pipeline/pii_masking.py:36-42 | an entity with a known type and a non-empty value masks by replace-all with its type's token |
| Scenarios.SampleMasking | app/pipeline/pii_masking.py:47-59 | the sample text masked with the three sample entities is exactly `Hello, my name is [NAME] and my email is [EMAIL] or call [PHONE]` |
| Scenarios.SampleHoldsTokens | tests/test_pii_pipeline.py:27-42 | the masked sample holds `[NAME]`, `[EMAIL]` and `[PHONE]` |
| Scenarios.SampleValuesGone | app/pipeline/langgraph_workflow.py:71-73 | none of the three sample values occurs in the masked sample |
| Scenarios.SampleEndToEnd | app/pipeline/langgraph_workflow.py:80-95 | a graph run on the sample text yields the masked sentence, the classified stub entities, and `is_valid` true |
| Scenarios.SamplePipeline | tests/test_pii_pipeline.py:54-66 | the pipeline on the sample text returns the text itself, the masked sentence and the three stub entities |
| Scenarios.UnknownTypeScenario | app/pipeline/langgraph_workflow.py:43 | an `ssn` entity is classified `LOW`, left in the text by the masker, and judged invalid by the validator |
| Scenarios.OverlappingValueHidden | app/pipeline/langgraph_workflow.py:71-73 | an unmasked `ssn` value `Nandini 1` is broken by masking the name `Nandini`, so the verdict is valid although the `ssn` value was never masked |
| Scenarios.TokenHoldsValue | app/pipeline/langgraph_workflow.py:71-73 | a value inside its own token (`NAME` in `[NAME]`) survives a complete masking, so the verdict is invalid |
| Scenarios.ValueOrderDecides | app/pipeline/pii_masking.py:32-42 | when one value holds another, list order decides the text: `Nandini` before `Nan` gives `[NAME]`, while `Nan` before `Nandini` gives `[NAME]dini` |

## Left out

- The detector's external-service branch is not modelled. It covers the prompt template, the chat-model call and the JSON parse with its empty-list fallback (app/pipeline/pii_detection.py:42-75, 94-106). These are a network call and foreign libraries; the detector is fixed to its stub mode.
- `load_dotenv` and the `USE_MOCK_LLM` flag are configuration; the flag is fixed to stub mode.
- The LangGraph `StateGraph`, `compile` and `invoke` machinery is not modelled. The graph is the edge function and the route it induces. The nodes' in-place mutation of the state dictionary is not modelled either; each node returns a new state.
- app/api/main.py is not part of this model. It is HTTP transport: the empty-text 400 response, the 500 fault mapping and the Unicode-aware `strip`.
- app/pipeline/demo_pipeline.py is not part of this model. It is a demonstration with printing, unrelated to PII.
- The `__main__` blocks print their results, and the printing is not modelled. The masker's and the pipeline's sample runs are the scenarios `SampleMasking` and `SamplePipeline`. The workflow's own sample run is not given a scenario; `InvokeOutcome` covers it along with every other text.
- Entity values that are not strings (numbers, lists) are not modelled. Every present field is a string, and an entity carries no keys other than `type`, `value` and `sensitivity`.
- Python's `str.replace` with an empty pattern is not modelled, because the masker's guard never lets an empty value reach it. `ReplaceAll` requires a non-empty pattern.
- Workflow.Validate: the loop raises on the first entity without a value, which the model reports as `Failure(MissingValue)`. A `TypeError` and a `KeyError` are not distinguished.
- Text.ReplaceAll: the function carries no contract of its own. What it computes is stated by the lemmas `Text.ReplaceAllSpec`, `Text.ReplaceAllIsSplitJoin` and `Text.ReplaceSameLength`, which are kept off the function so that every use of it stays cheap to verify.
- Workflow.Invoke: the function's own contract states only that a successful run keeps the text. The full outcome is stated by the lemmas `Workflow.InvokeIsComposition` and `Workflow.InvokeOutcome`.
- Workflow.UnmaskedValueIsInvalid: covers an unmasked value only when no masking value shares a character with it. Without that condition the verdict can be valid: `Scenarios.OverlappingValueHidden` gives an instance.
