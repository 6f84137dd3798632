/** The masker: each entity in turn replaces every occurrence of its value
    in the running text by the placeholder token for its type. */
module Masking {
  import opened Wrappers
  import opened Text
  import opened Entities

  /** The placeholder token for each maskable entity type. */
  const MaskTokens: map<string, string> :=
    map["name" := "[NAME]", "email" := "[EMAIL]", "phone" := "[PHONE]"]

  /** The token table holds exactly the three types, each with its bracketed
      upper-case token; every token is non-empty, so every lookup that
      succeeds passes the truthiness test. */
  lemma TokenTable()
    ensures MaskTokens.Keys == {"name", "email", "phone"}
    ensures Get(MaskTokens, "name") == Some("[NAME]")
    ensures Get(MaskTokens, "email") == Some("[EMAIL]")
    ensures Get(MaskTokens, "phone") == Some("[PHONE]")
    ensures forall k :: k in MaskTokens ==> MaskTokens[k] != ""
  {
  }

  /** The entity causes a replacement: type and value truthy, and the type
      has a truthy token, which holds exactly for the three table types. */
  function Masks(e: Entity): (b: bool)
    ensures b <==> Truthy(e.kind) && Truthy(e.value) &&
                   (e.kind.value == "name" || e.kind.value == "email" || e.kind.value == "phone")
  {
    && Truthy(e.kind)
    && Truthy(e.value)
    && e.kind.value in MaskTokens
    && MaskTokens[e.kind.value] != ""
  }

  /** One iteration of the masking loop. */
  function MaskEntity(text: string, e: Entity): (r: string)
    ensures !Masks(e) ==> r == text
    ensures Masks(e) ==> r == ReplaceAll(text, e.value.value, MaskTokens[e.kind.value])
  {
    if !Truthy(e.kind) || !Truthy(e.value) then text
    else
      match Get(MaskTokens, e.kind.value)
      case None => text
      case Some(token) =>
        if token != "" then ReplaceAll(text, e.value.value, token) else text
  }

  /** `mask_pii`: a left-to-right fold of `MaskEntity` over the entity list;
      later entities see the output of earlier ones. */
  function MaskPii(text: string, entities: seq<Entity>): (r: string)
    ensures (forall i :: 0 <= i < |entities| ==> !Masks(entities[i])) ==> r == text
    decreases |entities|
  {
    if |entities| == 0 then text
    else MaskPii(MaskEntity(text, entities[0]), entities[1..])
  }

  /** Masking with `a` then `b` is masking with `a` first and then masking
      that output with `b`: entities apply strictly in list order. */
  lemma {:induction false} MaskFold(text: string, a: seq<Entity>, b: seq<Entity>)
    ensures MaskPii(text, a + b) == MaskPii(MaskPii(text, a), b)
    decreases |a|
  {
    if |a| == 0 {
      assert a + b == b;
    } else {
      assert (a + b)[0] == a[0];
      assert (a + b)[1..] == a[1..] + b;
      MaskFold(MaskEntity(text, a[0]), a[1..], b);
    }
  }

  /** An entity with a single recognised step is replace-all of its value by
      its token. */
  lemma MaskSingle(text: string, e: Entity)
    requires Masks(e)
    ensures MaskPii(text, [e]) == ReplaceAll(text, e.value.value, MaskTokens[e.kind.value])
  {
  }

  /** An entity that does not mask (empty or missing type or value, or a type
      without a token) can be removed from the list without changing the
      result. */
  lemma MaskSkipsInert(text: string, a: seq<Entity>, e: Entity, b: seq<Entity>)
    requires !Masks(e)
    ensures MaskPii(text, a + [e] + b) == MaskPii(text, a + b)
  {
    MaskFold(text, a + [e], b);
    MaskFold(text, a, [e]);
    MaskFold(text, a, b);
  }

  /** The entities that mask, in their original order. */
  function Maskers(entities: seq<Entity>): (r: seq<Entity>)
    ensures forall i :: 0 <= i < |r| ==> Masks(r[i])
    ensures |r| <= |entities|
    decreases |entities|
  {
    if |entities| == 0 then []
    else if Masks(entities[0]) then [entities[0]] + Maskers(entities[1..])
    else Maskers(entities[1..])
  }

  /** Only the masking entities matter: dropping all the others leaves the
      result unchanged. */
  lemma {:induction false} MaskOnlyMaskers(text: string, entities: seq<Entity>)
    ensures MaskPii(text, entities) == MaskPii(text, Maskers(entities))
    decreases |entities|
  {
    if |entities| > 0 {
      var e := entities[0];
      MaskOnlyMaskers(MaskEntity(text, e), entities[1..]);
      if Masks(e) {
        var r := [e] + Maskers(entities[1..]);
        assert r[0] == e && r[1..] == Maskers(entities[1..]);
      }
    }
  }

  /** With an empty list, or when no masking entity's value occurs in the
      text, the text is returned unchanged. */
  lemma {:induction false} MaskUnchangedWhenAbsent(text: string, entities: seq<Entity>)
    requires forall i :: 0 <= i < |entities| && Masks(entities[i]) ==>
               !Contains(text, entities[i].value.value)
    ensures MaskPii(text, entities) == text
    decreases |entities|
  {
    if |entities| > 0 {
      var e := entities[0];
      if Masks(e) {
        ReplaceAbsent(text, e.value.value, MaskTokens[e.kind.value]);
      }
      assert MaskEntity(text, e) == text;
      MaskUnchangedWhenAbsent(text, entities[1..]);
    }
  }

  /** Masking depends on nothing but each entity's type and value. */
  lemma {:induction false} MaskDependsOnTypeAndValue(text: string, a: seq<Entity>, b: seq<Entity>)
    requires |a| == |b|
    requires forall i :: 0 <= i < |a| ==> a[i].kind == b[i].kind && a[i].value == b[i].value
    ensures MaskPii(text, a) == MaskPii(text, b)
    decreases |a|
  {
    if |a| > 0 {
      assert MaskEntity(text, a[0]) == MaskEntity(text, b[0]);
      MaskDependsOnTypeAndValue(MaskEntity(text, a[0]), a[1..], b[1..]);
    }
  }

  /** A value survives masking when it occurs in the text, is non-empty, and
      shares no character with any value that masks: no replacement can cut
      into its occurrence. */
  lemma {:induction false} MaskKeepsValue(text: string, entities: seq<Entity>, v: string)
    requires v != "" && Contains(text, v)
    requires forall j :: 0 <= j < |entities| && Masks(entities[j]) ==>
               ShareNoChar(entities[j].value.value, v)
    ensures Contains(MaskPii(text, entities), v)
    decreases |entities|
  {
    if |entities| > 0 {
      var e := entities[0];
      if Masks(e) {
        ReplaceKeepsDisjoint(text, e.value.value, MaskTokens[e.kind.value], v);
      }
      MaskKeepsValue(MaskEntity(text, e), entities[1..], v);
    }
  }
}
