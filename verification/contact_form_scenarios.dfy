/** Worked runs of the contact form: advancing past step 1, a submission
    missing only the consent, and a full valid submission. */
module ContactFormScenarios {
  import opened Wrappers
  import opened JsText
  import opened FormValidation
  import opened ContactForm
  import EmailPattern

  lemma SampleEmailValid()
    ensures Trim("a@b.co") == "a@b.co"
    ensures EmailPattern.PatternMatches("a@b.co")
  {
    SampleEmailTrims();
    SampleEmailSplits();
  }

  lemma SampleEmailTrims()
    ensures Trim("a@b.co") == "a@b.co"
  {
    var s := "a@b.co";
    assert s[0] == 'a' && s[5] == 'o';
    TrimKeeps(s);
  }

  lemma SampleEmailSplits()
    ensures EmailPattern.PatternMatches("a@b.co")
  {
    var s := "a@b.co";
    assert s[..1] == "a" && s[2..3] == "b" && s[4..] == "co";
    assert EmailPattern.SplitsAt(s, 1, 3);
  }

  /** On step 1 a well-formed address lets "next" through to step 2. */
  lemma NextAcceptsWellFormedEmail()
    ensures var s := Step(Initial, Change(EditEmail("a@b.co"))).next;
      && s.form.email == "a@b.co"
      && Step(s, Next).next.step == 2
      && Step(s, Next).next.errors.email == NoError
  {
    EditEmailOnStepOne(Initial, "a@b.co");
    var s := Initial.(form := DefaultForm.(email := "a@b.co"));
    SampleEmailPasses(s.form);
    NextAdvancesFromStepOne(s);
  }

  lemma SampleEmailPasses(form: FormData)
    requires form.email == "a@b.co"
    ensures Validate(form).email == NoError
  {
    SampleEmailValid();
  }

  /** On step 1 an e-mail the validator accepts moves the form to step 2
      with no e-mail message. */
  lemma NextAdvancesFromStepOne(s: State)
    requires s.mounted && !s.submitting && s.step == 1
    requires Validate(s.form).email == NoError
    ensures var r := Step(s, Next).next;
      && r.step == 2
      && r.errors == s.errors.(email := NoError)
  {
    NextOnStepOne(s);
  }

  /** An address without '@' keeps the form on step 1 with the format
      message on the e-mail key. */
  lemma NextRejectsMalformedEmail()
    ensures var s := Step(Step(Initial, Change(EditEmail("bad"))).next, Next).next;
      && s.step == 1
      && s.errors.email == EmailFormat
      && s.errors.company == NoError && s.errors.name == NoError && s.errors.consent == NoError
  {
    BadEmailRejected();
    EditEmailOnStepOne(Initial, "bad");
    var s := Initial.(form := DefaultForm.(email := "bad"));
    NextBlockedOnStepOne(s);
  }

  /** On step 1 an e-mail the validator rejects keeps the form there with
      that message shown and the other keys untouched. */
  lemma NextBlockedOnStepOne(s: State)
    requires s.mounted && !s.submitting && s.step == 1
    requires Validate(s.form).email != NoError
    ensures var r := Step(s, Next).next;
      && r.step == 1
      && r.errors == s.errors.(email := Validate(s.form).email)
  {
    NextOnStepOne(s);
  }

  lemma BadEmailRejected()
    ensures !IsBlank("bad") && !EmailPattern.PatternMatches(Trim("bad"))
  {
    BadEmailTrims();
    BadEmailHasNoAt();
  }

  lemma BadEmailTrims()
    ensures Trim("bad") == "bad" && !IsBlank("bad")
  {
    var s := "bad";
    assert s[0] == 'b' && s[2] == 'd';
    TrimKeeps(s);
  }

  lemma BadEmailHasNoAt()
    ensures !EmailPattern.PatternMatches("bad")
  {
    var s := "bad";
    EmailPattern.MatchesIff(s);
    assert '@' !in s;
  }

  const FilledIn := FormData("Acme", "Yamada Taro", "a@b.co", Consultation, "", true)

  /** The sample company, name and e-mail each pass their rule. */
  lemma FilledInFieldsPass()
    ensures !IsBlank("Acme")
    ensures Utf16Length(Trim("Yamada Taro")) >= 2
    ensures EmailPattern.PatternMatches(Trim("a@b.co"))
  {
    SampleEmailValid();
    SampleCompanyPresent();
    SampleNameLongEnough();
  }

  lemma SampleCompanyPresent()
    ensures !IsBlank("Acme")
  {
    var s := "Acme";
    assert s[0] == 'A' && !IsSpace(s[0]);
  }

  lemma SampleNameLongEnough()
    ensures Utf16Length(Trim("Yamada Taro")) >= 2
  {
    var s := "Yamada Taro";
    assert s[0] == 'Y' && s[10] == 'o';
    KeptTextLength(s);
  }

  /** The sample record passes every rule except, when it is withheld,
      the consent. */
  lemma FilledInValidates(consent: bool)
    ensures Validate(FilledIn.(consent := consent)) ==
      (if consent then NoErrors else NoErrors.(consent := ConsentRequired))
  {
    FilledInFieldsPass();
  }

  /** Everything valid but the consent: the submit shows only the consent
      message, returns to step 2, raises a notice and does not start. */
  lemma SubmitWithoutConsent()
    ensures var s := Initial.(form := FilledIn.(consent := false), step := 2);
      var t := Step(s, Submit);
      && t.next.step == 2
      && t.next.errors == NoErrors.(consent := ConsentRequired)
      && t.notices == [CheckInput]
      && !t.next.submitting
  {
    var s := Initial.(form := FilledIn.(consent := false), step := 2);
    FilledInValidates(false);
    RejectedSubmit(s);
  }

  /** A full valid submission followed by its five progress timers ends
      with the defaults restored and "consultation" confirmed. */
  lemma ValidSubmissionCompletes()
    ensures var s := Initial.(form := FilledIn, step := 2);
      var started := Step(s, Submit);
      var done := Run(started.next, ProgressTicks(5)).next;
      && started.next.submitting && started.next.progress == 12
      && started.next.submittingType == Some(Consultation)
      && done.form == DefaultForm && done.errors == NoErrors && done.step == 1
      && done.feedback == Some(Consultation) && !done.submitting && done.progress == 0
  {
    FilledInValidates(true);
    assert FilledIn.(consent := true) == FilledIn;
    var s := Initial.(form := FilledIn, step := 2);
    ValidateClearIff(FilledIn);
    InitialInv();
    AcceptedSubmitCompletes(s);
  }

  /** The name rule counts UTF-16 code units: a single character outside
      the Basic Multilingual Plane already satisfies "at least two". */
  lemma OneAstralCharacterNamePasses()
    ensures Validate(DefaultForm.(name := "\U{20BB7}")).name == NoError
  {
    AstralNameLength();
  }

  lemma AstralNameLength()
    ensures Utf16Length(Trim("\U{20BB7}")) == 2
  {
    AstralNameTrims();
    AstralNameCounts();
  }

  lemma AstralNameTrims()
    ensures Trim("\U{20BB7}") == "\U{20BB7}"
  {
    var s := "\U{20BB7}";
    assert !IsSpace(s[0]);
    TrimKeeps(s);
  }

  lemma AstralNameCounts()
    ensures Utf16Length("\U{20BB7}") == 2
  {
    var s := "\U{20BB7}";
    Utf16LengthCount(s);
    assert s[0] as int > 0xFFFF;
    assert AstralPositions(s) == {0};
  }
}
