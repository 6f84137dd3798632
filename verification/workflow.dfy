/** The four-stage workflow: detection, classification, masking and
    validation, each a function from one immutable pipeline state to the
    next, run in the order the graph's edges fix. */
module Workflow {
  import opened Wrappers
  import opened Text
  import opened Entities
  import opened Masking
  import opened Detection

  /** The record threaded through the stages. */
  datatype GraphState = GraphState(
    text: string,
    piiEntities: seq<Entity>,
    maskedText: string,
    isValid: bool)

  /** The state a run starts from: the text, and every derived field empty. */
  function InitialState(text: string): (st: GraphState)
    ensures st.text == text && st.piiEntities == [] && st.maskedText == "" && !st.isValid
  {
    GraphState(text, [], "", false)
  }

  // Detection

  /** Replaces the entity list by the detector's answer for the text. */
  function DetectionNode(st: GraphState): (r: GraphState)
    ensures r.piiEntities == DetectPii(st.text).piiEntities
    ensures r.text == st.text && r.maskedText == st.maskedText && r.isValid == st.isValid
  {
    st.(piiEntities := DetectPii(st.text).piiEntities)
  }

  // Classification

  /** Sensitivity per entity type. */
  const SensitivityMap: map<string, string> :=
    map["name" := "LOW", "email" := "HIGH", "phone" := "HIGH"]

  /** The sensitivity of an entity type; a missing or unknown type is `LOW`. */
  function SensitivityOf(kind: Option<string>): (r: string)
    ensures r == "HIGH" <==> kind == Some("email") || kind == Some("phone")
    ensures r == "LOW" || r == "HIGH"
  {
    match kind
    case None => "LOW"
    case Some(k) => Get(SensitivityMap, k).GetOr("LOW")
  }

  /** A fresh entity with the same type and value and the type's sensitivity. */
  function ClassifyEntity(e: Entity): (r: Entity)
    ensures r.kind == e.kind && r.value == e.value
    ensures r.sensitivity == Some(SensitivityOf(e.kind))
  {
    Entity(e.kind, e.value, Some(SensitivityOf(e.kind)))
  }

  /** The classification loop: one classified entity per input entity, in the
      same order. */
  function Classify(entities: seq<Entity>): (r: seq<Entity>)
    ensures |r| == |entities|
    ensures forall i :: 0 <= i < |r| ==>
              r[i].kind == entities[i].kind && r[i].value == entities[i].value &&
              r[i].sensitivity == Some(SensitivityOf(entities[i].kind))
    decreases |entities|
  {
    if |entities| == 0 then []
    else [ClassifyEntity(entities[0])] + Classify(entities[1..])
  }

  /** Replaces the entity list by its classified copy. */
  function ClassificationNode(st: GraphState): (r: GraphState)
    ensures r.piiEntities == Classify(st.piiEntities)
    ensures r.text == st.text && r.maskedText == st.maskedText && r.isValid == st.isValid
  {
    st.(piiEntities := Classify(st.piiEntities))
  }

  /** Classification does not change what masking produces. */
  lemma ClassifyKeepsMasking(text: string, entities: seq<Entity>)
    ensures MaskPii(text, Classify(entities)) == MaskPii(text, entities)
  {
    MaskDependsOnTypeAndValue(text, Classify(entities), entities);
  }

  // Masking

  /** Writes the masked text; nothing else changes. */
  function MaskingNode(st: GraphState): (r: GraphState)
    ensures r.maskedText == MaskPii(st.text, st.piiEntities)
    ensures r.text == st.text && r.piiEntities == st.piiEntities && r.isValid == st.isValid
  {
    st.(maskedText := MaskPii(st.text, st.piiEntities))
  }

  // Validation

  /** The fault the validation loop raises on an entity without a value
      (a missing key or a null). */
  datatype Fault = MissingValue

  /** The validation loop: the text is valid when no entity's value occurs
      in it; an entity without a value makes the loop raise. */
  function Validate(maskedText: string, entities: seq<Entity>): (r: Result<bool, Fault>)
    ensures r.Failure? <==> exists i :: 0 <= i < |entities| && entities[i].value.None?
    ensures r.Success? ==>
              (r.value <==> forall i :: 0 <= i < |entities| ==>
                 entities[i].value.Some? && !Contains(maskedText, entities[i].value.value))
    decreases |entities|
  {
    if |entities| == 0 then Success(true)
    else
      match entities[0].value
      case None => Failure(MissingValue)
      case Some(v) =>
        match Validate(maskedText, entities[1..])
        case Failure(f) => Failure(f)
        case Success(rest) => Success(Find(maskedText, v).None? && rest)
  }

  /** Records the verdict; nothing else changes. */
  function ValidationNode(st: GraphState): (r: Result<GraphState, Fault>)
    ensures r.Failure? <==> Validate(st.maskedText, st.piiEntities).Failure?
    ensures r.Success? ==>
              r.value == st.(isValid := Validate(st.maskedText, st.piiEntities).value)
  {
    match Validate(st.maskedText, st.piiEntities)
    case Failure(f) => Failure(f)
    case Success(ok) => Success(st.(isValid := ok))
  }

  /** Validation depends on nothing but each entity's value. */
  lemma {:induction false} ValidateDependsOnValues(maskedText: string, a: seq<Entity>, b: seq<Entity>)
    requires |a| == |b| && forall i :: 0 <= i < |a| ==> a[i].value == b[i].value
    ensures Validate(maskedText, a) == Validate(maskedText, b)
    decreases |a|
  {
    if |a| > 0 {
      ValidateDependsOnValues(maskedText, a[1..], b[1..]);
    }
  }

  /** An entity with an empty value is skipped by the masker, yet the empty
      string occurs in every text, so validation reports invalid. */
  lemma EmptyValueIsInvalid(text: string, entities: seq<Entity>, i: nat)
    requires forall j :: 0 <= j < |entities| ==> entities[j].value.Some?
    requires i < |entities| && entities[i].value == Some("")
    ensures !Masks(entities[i])
    ensures Validate(MaskPii(text, entities), entities) == Success(false)
  {
    assert OccursAt(MaskPii(text, entities), "", 0);
  }

  /** A non-empty value that occurs in the text and shares no character with
      any value that masks survives masking, so validation reports invalid.
      Such an entity cannot mask itself: a type without a token is the usual
      case. */
  lemma UnmaskedValueIsInvalid(text: string, entities: seq<Entity>, i: nat)
    requires forall j :: 0 <= j < |entities| ==> entities[j].value.Some?
    requires i < |entities| && entities[i].value.value != ""
    requires Contains(text, entities[i].value.value)
    requires forall j :: 0 <= j < |entities| && Masks(entities[j]) ==>
               ShareNoChar(entities[j].value.value, entities[i].value.value)
    ensures !Masks(entities[i])
    ensures Contains(MaskPii(text, entities), entities[i].value.value)
    ensures Validate(MaskPii(text, entities), entities) == Success(false)
  {
    var v := entities[i].value.value;
    assert v[0] in v;
    MaskKeepsValue(text, entities, v);
  }

  // The graph

  /** The four nodes of the graph. */
  datatype NodeName = DetectNode | ClassifyNode | MaskNode | ValidateNode

  /** Where a node's single outgoing edge leads: another node or the end. */
  datatype Next = To(node: NodeName) | End

  /** The node the graph is entered at. */
  const EntryPoint: NodeName := DetectNode

  /** Distance from the end, which every edge decreases. */
  function Rank(n: NodeName): nat {
    match n
    case DetectNode => 3
    case ClassifyNode => 2
    case MaskNode => 1
    case ValidateNode => 0
  }

  /** The graph's edges. */
  function EdgeFrom(n: NodeName): (next: Next)
    ensures next.To? ==> Rank(next.node) < Rank(n)
  {
    match n
    case DetectNode => To(ClassifyNode)
    case ClassifyNode => To(MaskNode)
    case MaskNode => To(ValidateNode)
    case ValidateNode => End
  }

  /** The nodes visited from `n` until the end. */
  function Route(n: NodeName): (path: seq<NodeName>)
    ensures |path| == Rank(n) + 1 && path[0] == n
    decreases Rank(n)
  {
    match EdgeFrom(n)
    case End => [n]
    case To(m) => [n] + Route(m)
  }

  /** From the entry point the graph visits detection, classification,
      masking and validation, each once and in that order, then ends. */
  lemma GraphOrder()
    ensures Route(EntryPoint) == [DetectNode, ClassifyNode, MaskNode, ValidateNode]
  {
  }

  /** Runs one node. */
  function RunNode(n: NodeName, st: GraphState): (r: Result<GraphState, Fault>)
    ensures n != ValidateNode ==> r.Success?
    ensures r.Success? ==> r.value.text == st.text
  {
    match n
    case DetectNode => Success(DetectionNode(st))
    case ClassifyNode => Success(ClassificationNode(st))
    case MaskNode => Success(MaskingNode(st))
    case ValidateNode => ValidationNode(st)
  }

  /** Runs the nodes of `route` in turn; a fault ends the run. */
  function RunRoute(route: seq<NodeName>, st: GraphState): (r: Result<GraphState, Fault>)
    ensures (forall k :: 0 <= k < |route| ==> route[k] != ValidateNode) ==> r.Success?
    ensures r.Success? ==> r.value.text == st.text
    decreases |route|
  {
    if |route| == 0 then Success(st)
    else
      match RunNode(route[0], st)
      case Failure(f) => Failure(f)
      case Success(next) => RunRoute(route[1..], next)
  }

  /** Invoking the compiled graph: run the route from the entry point. */
  function Invoke(st: GraphState): (r: Result<GraphState, Fault>)
    ensures r.Success? ==> r.value.text == st.text
  {
    RunRoute(Route(EntryPoint), st)
  }

  /** The run is the composition of the four nodes, in graph order. */
  lemma InvokeIsComposition(st: GraphState)
    ensures Invoke(st) == ValidationNode(MaskingNode(ClassificationNode(DetectionNode(st))))
  {
    GraphOrder();
    var s1 := DetectionNode(st);
    var s2 := ClassificationNode(s1);
    var s3 := MaskingNode(s2);
    var route := [DetectNode, ClassifyNode, MaskNode, ValidateNode];
    assert route[1..] == [ClassifyNode, MaskNode, ValidateNode];
    assert RunRoute(route, st) == RunRoute([ClassifyNode, MaskNode, ValidateNode], s1);
    assert [ClassifyNode, MaskNode, ValidateNode][1..] == [MaskNode, ValidateNode];
    assert RunRoute([ClassifyNode, MaskNode, ValidateNode], s1) == RunRoute([MaskNode, ValidateNode], s2);
    assert [MaskNode, ValidateNode][1..] == [ValidateNode];
    assert RunRoute([MaskNode, ValidateNode], s2) == RunRoute([ValidateNode], s3);
    assert [ValidateNode][1..] == [];
  }

  /** What a run produces: the text is untouched, the entities are the
      detector's, classified, the masked text is the detector's entities
      masked out of the text, and the verdict says whether any of their
      values survived. With the stub detector no fault is raised. */
  lemma InvokeOutcome(st: GraphState)
    ensures Invoke(st).Success?
    ensures Invoke(st).value.text == st.text
    ensures Invoke(st).value.piiEntities == Classify(DetectPii(st.text).piiEntities)
    ensures Invoke(st).value.maskedText == MaskPii(st.text, DetectPii(st.text).piiEntities)
    ensures Invoke(st).value.isValid <==>
              forall i :: 0 <= i < |MockEntities| ==>
                !Contains(Invoke(st).value.maskedText, MockEntities[i].value.value)
  {
    InvokeIsComposition(st);
    var detected := DetectPii(st.text).piiEntities;
    assert detected == MockEntities;
    var classified := Classify(detected);
    ClassifyKeepsMasking(st.text, detected);
    var s3 := MaskingNode(ClassificationNode(DetectionNode(st)));
    assert s3.piiEntities == classified;
    ValidateDependsOnValues(s3.maskedText, classified, detected);
    assert Validate(s3.maskedText, detected).Success?;
  }

  /** A run depends on nothing but the text: the other initial fields are
      overwritten before they are read. */
  lemma InvokeDependsOnlyOnText(st1: GraphState, st2: GraphState)
    requires st1.text == st2.text
    ensures Invoke(st1) == Invoke(st2)
  {
    InvokeIsComposition(st1);
    InvokeIsComposition(st2);
  }
}
