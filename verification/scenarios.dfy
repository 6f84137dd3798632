/** The concrete runs the repository's sample code and tests exercise, and
    the boundary cases the masking and validation stages leave open. Long
    string literals are built from short pieces, grouped to the right, so
    that their characters can be inspected piece by piece. */
module Scenarios {
  import opened Wrappers
  import opened Text
  import opened Entities
  import opened Masking
  import opened Detection
  import opened Workflow
  import opened Pipeline

  const Greeting := "Hello, my name is "
  const EmailLead := " and my email is "
  const PhoneLead := " or call "

  /** "Hello, my name is Nandini and my email is nandi@gmail.com or call 9876543210" */
  const SampleText :=
    Greeting + ("Nandini" + (EmailLead + ("nandi@gmail.com" + (PhoneLead + "9876543210"))))

  /** "Hello, my name is [NAME] and my email is [EMAIL] or call [PHONE]" */
  const MaskedSample :=
    Greeting + ("[NAME]" + (EmailLead + ("[EMAIL]" + (PhoneLead + "[PHONE]"))))

  // Regrouping concatenations

  lemma Regroup4(a: string, b: string, c: string, d: string)
    ensures a + (b + (c + d)) == (a + b + c) + d
  {
  }

  lemma Regroup5(a: string, b: string, c: string, d: string, e: string)
    ensures a + (b + (c + (d + e))) == (a + b + c + d) + e
  {
  }

  // Masking the sample

  /** A recognised entity with a non-empty value masks by replace-all. */
  lemma MaskKnownEntity(text: string, kind: string, value: string)
    requires kind in MaskTokens && value != ""
    ensures MaskEntity(text, Detected(kind, value)) == ReplaceAll(text, value, MaskTokens[kind])
  {
  }

  /** Masking a three-entity list is three masking steps. */
  lemma MaskThreeSteps(text: string, e0: Entity, e1: Entity, e2: Entity)
    ensures MaskPii(text, [e0, e1, e2]) == MaskEntity(MaskEntity(MaskEntity(text, e0), e1), e2)
  {
    var t1 := MaskEntity(text, e0);
    var t2 := MaskEntity(t1, e1);
    assert [e0, e1, e2][1..] == [e1, e2];
    assert MaskPii(text, [e0, e1, e2]) == MaskPii(t1, [e1, e2]);
    assert [e1, e2][1..] == [e2];
    assert MaskPii(t1, [e1, e2]) == MaskPii(t2, [e2]);
    assert [e2][1..] == [];
  }

  lemma NameFacts()
    ensures 'N' !in Greeting + "Nandini"[..0]
    ensures 'N' !in EmailLead + ("nandi@gmail.com" + (PhoneLead + "9876543210"))
  {
  }

  lemma MaskSampleName()
    ensures ReplaceAll(SampleText, "Nandini", "[NAME]") ==
            Greeting + ("[NAME]" + (EmailLead + ("nandi@gmail.com" + (PhoneLead + "9876543210"))))
  {
    NameFacts();
    ReplaceUniqueRight(Greeting, "Nandini", EmailLead + ("nandi@gmail.com" + (PhoneLead + "9876543210")),
                       "[NAME]", 0);
  }

  lemma EmailFacts()
    ensures "nandi@gmail.com"[5] == '@' && "nandi@gmail.com"[..5] == "nandi"
    ensures '@' !in Greeting + "[NAME]" + EmailLead + "nandi"
    ensures '@' !in PhoneLead + "9876543210"
  {
  }

  lemma MaskSampleEmail()
    ensures ReplaceAll(Greeting + ("[NAME]" + (EmailLead + ("nandi@gmail.com" + (PhoneLead + "9876543210")))),
                       "nandi@gmail.com", "[EMAIL]") ==
            Greeting + ("[NAME]" + (EmailLead + ("[EMAIL]" + (PhoneLead + "9876543210"))))
  {
    EmailFacts();
    Regroup4(Greeting, "[NAME]", EmailLead, "nandi@gmail.com" + (PhoneLead + "9876543210"));
    ReplaceUniqueRight(Greeting + "[NAME]" + EmailLead, "nandi@gmail.com", PhoneLead + "9876543210",
                       "[EMAIL]", 5);
    Regroup4(Greeting, "[NAME]", EmailLead, "[EMAIL]" + (PhoneLead + "9876543210"));
  }

  lemma PhoneFacts()
    ensures '9' !in Greeting + "[NAME]" + EmailLead + "[EMAIL]" + PhoneLead + "9876543210"[..0]
  {
  }

  lemma MaskSamplePhone()
    ensures ReplaceAll(Greeting + ("[NAME]" + (EmailLead + ("[EMAIL]" + (PhoneLead + "9876543210")))),
                       "9876543210", "[PHONE]") == MaskedSample
  {
    PhoneFacts();
    var a := Greeting + "[NAME]" + EmailLead + "[EMAIL]" + PhoneLead;
    Regroup5(Greeting, "[NAME]", EmailLead, "[EMAIL]", PhoneLead + "9876543210");
    assert Greeting + "[NAME]" + EmailLead + "[EMAIL]" + (PhoneLead + "9876543210") == a + ("9876543210" + "");
    ReplaceUniqueRight(a, "9876543210", "", "[PHONE]", 0);
    Regroup5(Greeting, "[NAME]", EmailLead, "[EMAIL]", PhoneLead + "[PHONE]");
    assert Greeting + "[NAME]" + EmailLead + "[EMAIL]" + (PhoneLead + "[PHONE]") == a + ("[PHONE]" + "");
  }

  /** The masking sample and test: the three fixture entities masked out of
      the sample text give exactly the expected sentence. */
  lemma SampleMasking()
    ensures MaskPii(SampleText, MockEntities) == MaskedSample
  {
    var t1 := Greeting + ("[NAME]" + (EmailLead + ("nandi@gmail.com" + (PhoneLead + "9876543210"))));
    var t2 := Greeting + ("[NAME]" + (EmailLead + ("[EMAIL]" + (PhoneLead + "9876543210"))));
    MaskThreeSteps(SampleText, MockEntities[0], MockEntities[1], MockEntities[2]);
    MaskKnownEntity(SampleText, "name", "Nandini");
    MaskSampleName();
    MaskKnownEntity(t1, "email", "nandi@gmail.com");
    MaskSampleEmail();
    MaskKnownEntity(t2, "phone", "9876543210");
    MaskSamplePhone();
  }

  /** The masked sentence holds each of the three tokens. */
  lemma SampleHoldsTokens()
    ensures Contains(MaskedSample, "[NAME]")
    ensures Contains(MaskedSample, "[EMAIL]")
    ensures Contains(MaskedSample, "[PHONE]")
  {
    var rest := EmailLead + ("[EMAIL]" + (PhoneLead + "[PHONE]"));
    ContainsMiddle(Greeting, "[NAME]", rest);
    assert Greeting + "[NAME]" + rest == MaskedSample;
    Regroup4(Greeting, "[NAME]", EmailLead, "[EMAIL]" + (PhoneLead + "[PHONE]"));
    ContainsMiddle(Greeting + "[NAME]" + EmailLead, "[EMAIL]", PhoneLead + "[PHONE]");
    Regroup5(Greeting, "[NAME]", EmailLead, "[EMAIL]", PhoneLead + "[PHONE]");
    ContainsMiddle(Greeting + "[NAME]" + EmailLead + "[EMAIL]" + PhoneLead, "[PHONE]", "");
    assert Greeting + "[NAME]" + EmailLead + "[EMAIL]" + PhoneLead + "[PHONE]" + "" ==
           Greeting + "[NAME]" + EmailLead + "[EMAIL]" + (PhoneLead + "[PHONE]");
  }

  // Validating the sample

  /** "Nandini" starts with `N`, then `a`; a text in which every `N` is
      followed by something else does not hold it. */
  lemma {:induction false} NameGoneFrom(x: string, t: string)
    requires 'N' !in x && 'N' !in t && |t| >= 1 && t[0] != 'a'
    ensures !Contains(x + ("N" + (t + ("N" + "E]"))), "Nandini")
  {
    var pat := "Nandini";
    AbsentChar("E]", pat, 0);
    NotContainsAppend("N", "E]", pat, 1);
    NotContainsAppend(t, "NE]", pat, 0);
    assert ("N" + (t + "NE]"))[..2] == "N" + [t[0]];
    NotContainsAppend("N", t + "NE]", pat, 1);
    assert (x + ("N" + (t + "NE]")))[..|x|] == x;
    NotContainsAppend(x, "N" + (t + "NE]"), pat, 0);
  }

  lemma {:induction false} RegroupAroundN(g: string, x1: string, n: string, x2: string, el: string,
                                          te: string, pl: string, y1: string, y2: string)
    ensures g + ((x1 + (n + x2)) + (el + (te + (pl + (y1 + (n + y2)))))) ==
            (g + x1) + (n + ((x2 + el + te + pl + y1) + (n + y2)))
  {
  }

  /** The masked sentence regrouped around its two `N`s. */
  lemma MaskedAroundN()
    ensures MaskedSample ==
            (Greeting + "[") + ("N" + (("AME]" + EmailLead + "[EMAIL]" + PhoneLead + "[PHO") + ("N" + "E]")))
  {
    assert "[NAME]" == "[" + ("N" + "AME]");
    assert "[PHONE]" == "[PHO" + ("N" + "E]");
    RegroupAroundN(Greeting, "[", "N", "AME]", EmailLead, "[EMAIL]", PhoneLead, "[PHO", "E]");
  }

  lemma GoneFacts()
    ensures 'N' !in Greeting + "["
    ensures 'N' !in "AME]" + EmailLead + "[EMAIL]" + PhoneLead + "[PHO"
    ensures ("AME]" + EmailLead + "[EMAIL]" + PhoneLead + "[PHO")[0] == 'A'
  {
  }

  lemma AtFacts()
    ensures '@' !in MaskedSample && "nandi@gmail.com"[5] == '@'
  {
  }

  lemma NineFacts()
    ensures '9' !in MaskedSample
  {
  }

  /** None of the fixture values is left in the masked sentence. */
  lemma SampleValuesGone()
    ensures !Contains(MaskedSample, "Nandini")
    ensures !Contains(MaskedSample, "nandi@gmail.com")
    ensures !Contains(MaskedSample, "9876543210")
  {
    GoneFacts();
    MaskedAroundN();
    NameGoneFrom(Greeting + "[", "AME]" + EmailLead + "[EMAIL]" + PhoneLead + "[PHO");
    AtFacts();
    NineFacts();
    AbsentChar(MaskedSample, "nandi@gmail.com", 5);
    AbsentChar(MaskedSample, "9876543210", 0);
  }

  // End to end

  /** The end-to-end scenario: a run of the graph on the sample text masks all
      three fixture values and reports the result valid. */
  lemma SampleEndToEnd()
    ensures Invoke(InitialState(SampleText)) ==
            Success(GraphState(SampleText, Classify(MockEntities), MaskedSample, true))
  {
    InvokeOutcome(InitialState(SampleText));
    SampleMasking();
    SampleValuesGone();
  }

  /** The two-step pipeline on the sample text reports the text itself, the
      masked sentence and the three fixture entities. */
  lemma SamplePipeline()
    ensures RunPiiMaskingPipeline(SampleText) == PipelineResult(SampleText, MaskedSample, MockEntities)
  {
    SampleMasking();
  }

  // Boundary cases

  /** An entity of a type without a token (`ssn`) is classified `LOW`, is left
      in the text by the masker, and so makes validation report invalid. */
  lemma UnknownTypeScenario()
    ensures SensitivityOf(Some("ssn")) == "LOW"
    ensures MaskPii("my ssn is " + "123-45-6789", [Detected("ssn", "123-45-6789")]) ==
            "my ssn is " + "123-45-6789"
    ensures Validate("my ssn is " + "123-45-6789", [Detected("ssn", "123-45-6789")]) ==
            Success(false)
  {
    var text := "my ssn is " + "123-45-6789";
    var e := Detected("ssn", "123-45-6789");
    assert "ssn" !in MaskTokens;
    ContainsMiddle("my ssn is ", "123-45-6789", "");
    assert text + "" == text;
    MaskUnchangedWhenAbsent(text, [e]);
    UnmaskedValueIsInvalid(text, [e], 0);
  }

  /** Masking the name `Nandini` out of `Nandini 1`, behind an `ssn` entity
      that does not mask. */
  lemma OverlapMasking()
    ensures MaskPii("Nandini" + " 1", [Detected("ssn", "Nandini" + " 1"), Detected("name", "Nandini")]) ==
            "[NAME]" + " 1"
  {
    var ssn := Detected("ssn", "Nandini" + " 1");
    var name := Detected("name", "Nandini");
    assert "ssn" !in MaskTokens;
    assert 'N' !in "" + "Nandini"[..0] && 'N' !in " 1";
    ReplaceUniqueRight("", "Nandini", " 1", "[NAME]", 0);
    assert "" + ("Nandini" + " 1") == "Nandini" + " 1";
    assert "" + ("[NAME]" + " 1") == "[NAME]" + " 1";
    MaskKnownEntity("Nandini" + " 1", "name", "Nandini");
    MaskFold("Nandini" + " 1", [ssn], [name]);
    assert [ssn] + [name] == [ssn, name];
  }

  /** An unmasked value can still be hidden by a masking value that overlaps
      it: masking the name `Nandini` out of `Nandini 1` also breaks the
      unmasked value `Nandini 1`, and validation reports valid. */
  lemma OverlappingValueHidden()
    ensures MaskPii("Nandini" + " 1", [Detected("ssn", "Nandini" + " 1"), Detected("name", "Nandini")]) ==
            "[NAME]" + " 1"
    ensures Validate("[NAME]" + " 1", [Detected("ssn", "Nandini" + " 1"), Detected("name", "Nandini")]) ==
            Success(true)
  {
    OverlapMasking();
    assert 'a' !in "[NAME]" + " 1";
    AbsentChar("[NAME]" + " 1", "Nandini" + " 1", 1);
    AbsentChar("[NAME]" + " 1", "Nandini", 1);
  }

  /** A value that occurs inside its own token survives masking: masking the
      name `NAME` out of `NAME` yields `[NAME]`, which still holds `NAME`, so
      validation reports invalid although every occurrence was replaced. */
  lemma TokenHoldsValue()
    ensures MaskPii("NAME", [Detected("name", "NAME")]) == "[NAME]"
    ensures Validate("[NAME]", [Detected("name", "NAME")]) == Success(false)
  {
    ReplaceAtFront("NAME", "NAME", "[NAME]");
    assert "NAME"[4..] == "";
    MaskKnownEntity("NAME", "name", "NAME");
    ContainsMiddle("[", "NAME", "]");
    assert "[" + "NAME" + "]" == "[NAME]";
  }

  lemma OrderFacts()
    ensures 'a' !in "[NAME]" && 'a' !in "[NAME]dini"
    ensures "" + ("Nandini" + "") == "Nandini" && "" + ("[NAME]" + "") == "[NAME]"
    ensures "" + ("Nan" + "dini") == "Nandini" && "" + ("[NAME]" + "dini") == "[NAME]dini"
  {
  }

  /** Entities apply in list order, so when one value holds another the order
      decides the text: masking `Nandini` then `Nan` hides the whole name,
      while masking `Nan` first leaves `dini` behind. */
  lemma ValueOrderDecides()
    ensures MaskPii("Nandini", [Detected("name", "Nandini"), Detected("name", "Nan")]) == "[NAME]"
    ensures MaskPii("Nandini", [Detected("name", "Nan"), Detected("name", "Nandini")]) == "[NAME]dini"
  {
    OrderFacts();
    ReplaceUniqueRight("", "Nandini", "", "[NAME]", 0);
    AbsentChar("[NAME]", "Nan", 1);
    ReplaceAbsent("[NAME]", "Nan", "[NAME]");
    MaskKnownEntity("Nandini", "name", "Nandini");
    MaskKnownEntity("[NAME]", "name", "Nan");
    MaskFold("Nandini", [Detected("name", "Nandini")], [Detected("name", "Nan")]);
    ReplaceUniqueRight("", "Nan", "dini", "[NAME]", 0);
    AbsentChar("[NAME]dini", "Nandini", 1);
    ReplaceAbsent("[NAME]dini", "Nandini", "[NAME]");
    MaskKnownEntity("Nandini", "name", "Nan");
    MaskKnownEntity("[NAME]dini", "name", "Nandini");
    MaskFold("Nandini", [Detected("name", "Nan")], [Detected("name", "Nandini")]);
  }
}
