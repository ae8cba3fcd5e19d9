/** The contact form's record, its validator and its two-step table
    (src/components/CTASection.tsx). */
module FormValidation {
  import opened JsText
  import opened Wrappers
  import EmailPattern

  datatype RequestType = Consultation | Checklist

  datatype FormData = FormData(
    company: string,
    name: string,
    email: string,
    requestType: RequestType,
    message: string,
    consent: bool)

  /** The initial record, and the one a completed submission resets to. */
  const DefaultForm := FormData("", "", "", Consultation, "", false)

  /** The four keys that carry an error message. */
  datatype Field = Company | Name | Email | Consent

  /** Error messages as tags; NoError stands for the empty string. */
  datatype Error = NoError | CompanyRequired | NameTooShort | EmailRequired | EmailFormat | ConsentRequired

  /** One error message per validated key. */
  datatype Errors = Errors(company: Error, name: Error, email: Error, consent: Error) {

    function Get(f: Field): Error {
      match f
      case Company => company
      case Name => name
      case Email => email
      case Consent => consent
    }

    /** The record with one entry replaced (`{ ...previous, [f]: e }`). */
    function Set(f: Field, e: Error): (r: Errors)
      ensures r.Get(f) == e
      ensures forall g :: g != f ==> r.Get(g) == Get(g)
    {
      match f
      case Company => this.(company := e)
      case Name => this.(name := e)
      case Email => this.(email := e)
      case Consent => this.(consent := e)
    }

    /** No entry holds a message (`!Object.values(v).some(Boolean)`). */
    predicate AllClear()
      ensures AllClear() <==> forall f: Field :: Get(f) == NoError
    {
      assert Get(Company) == company && Get(Name) == name && Get(Email) == email && Get(Consent) == consent;
      company == NoError && name == NoError && email == NoError && consent == NoError
    }
  }

  const NoErrors := Errors(NoError, NoError, NoError, NoError)

  /** What the form demands before it may be sent: a company, a name of at
      least two UTF-16 code units and an e-mail of the shape L@A.B once trimmed,
      and consent given. */
  ghost predicate Submittable(form: FormData) {
    !IsBlank(form.company) && Utf16Length(Trim(form.name)) >= 2
    && EmailPattern.PatternMatches(Trim(form.email)) && form.consent
  }

  /** `buildValidationState`: one message per key, computed from the
      trimmed field values. */
  function Validate(form: FormData): (v: Errors)
    ensures v.company in {NoError, CompanyRequired}
    ensures v.company != NoError <==> IsBlank(form.company)
    ensures v.name in {NoError, NameTooShort}
    ensures v.name != NoError <==> Utf16Length(Trim(form.name)) < 2
    ensures v.email in {NoError, EmailRequired, EmailFormat}
    ensures v.email == EmailRequired <==> IsBlank(form.email)
    ensures v.email == EmailFormat <==>
      !IsBlank(form.email) && !EmailPattern.PatternMatches(Trim(form.email))
    ensures v.consent in {NoError, ConsentRequired}
    ensures v.consent != NoError <==> !form.consent
  {
    var email := Trim(form.email);
    EmailPattern.MatchesIff(email);
    TrimBlankIff(form.company);
    TrimBlankIff(form.email);
    Errors(
      if Trim(form.company) != [] then NoError else CompanyRequired,
      if Utf16Length(Trim(form.name)) >= 2 then NoError else NameTooShort,
      if email != [] then (if EmailPattern.Matches(email) then NoError else EmailFormat) else EmailRequired,
      if form.consent then NoError else ConsentRequired)
  }

  /** The validator reports nothing exactly for a record that may be sent. */
  lemma ValidateClearIff(form: FormData)
    ensures Validate(form).AllClear() <==> Submittable(form)
  {
  }

  /** A screen of the form and the keys it validates before moving on. */
  datatype FormStep = FormStep(id: int, fields: seq<Field>)

  /** `formSteps`: step 1 asks for the e-mail (and the request type, which
      is not validated), step 2 for company, name and consent. */
  const FormSteps: seq<FormStep> := [FormStep(1, [Email]), FormStep(2, [Company, Name, Consent])]

  const TotalSteps: int := |FormSteps|

  /** `activeStep?.fields ?? []` for a 1-based step number. */
  function ActiveFields(step: int): seq<Field> {
    if 1 <= step <= |FormSteps| then FormSteps[step - 1].fields else []
  }

  /** The steps are numbered 1, 2, ... in order, and every key belongs to
      exactly one of them. */
  lemma StepTableWellFormed()
    ensures TotalSteps == 2
    ensures forall i :: 0 <= i < |FormSteps| ==> FormSteps[i].id == i + 1
    ensures forall f: Field :: Owns(OwnerOf(f), f)
    ensures forall f: Field, i :: Owns(i, f) ==> i == OwnerOf(f)
  {
  }

  /** The step at table index `i` validates `f`. */
  predicate Owns(i: int, f: Field) {
    0 <= i < |FormSteps| && f in FormSteps[i].fields
  }

  /** The table index of the step that validates `f`. */
  function OwnerOf(f: Field): int {
    if f == Email then 0 else 1
  }

  /** `fields.some((field) => v[field])`. */
  predicate HasInvalid(fields: seq<Field>, v: Errors) {
    exists k :: 0 <= k < |fields| && v.Get(fields[k]) != NoError
  }

  /** `formSteps.find(...)` over a suffix of the table: the first step from
      index `from` on that owns an invalid key. */
  function FindInvalidStep(v: Errors, from: nat): (r: Option<FormStep>)
    requires from <= |FormSteps|
    ensures r.None? <==> forall i :: from <= i < |FormSteps| ==> !HasInvalid(FormSteps[i].fields, v)
    ensures r.Some? ==> exists i :: from <= i < |FormSteps| && r.value == FormSteps[i]
                                 && HasInvalid(FormSteps[i].fields, v)
                                 && forall j :: from <= j < i ==> !HasInvalid(FormSteps[j].fields, v)
    decreases |FormSteps| - from
  {
    if from == |FormSteps| then None
    else if HasInvalid(FormSteps[from].fields, v) then Some(FormSteps[from])
    else FindInvalidStep(v, from + 1)
  }

  /** The step a failed submission returns to: step 1 when the e-mail is
      invalid, otherwise step 2 when any other key is, and none when the
      record is clear. */
  function FirstInvalidStep(v: Errors): (r: Option<int>)
    ensures r.None? <==> v.AllClear()
    ensures r == Some(1) <==> v.email != NoError
    ensures r == Some(2) <==> v.email == NoError && !v.AllClear()
  {
    var found := FindInvalidStep(v, 0);
    assert HasInvalid(FormSteps[0].fields, v) <==> v.email != NoError by {
      assert FormSteps[0].fields[0] == Email;
    }
    assert HasInvalid(FormSteps[1].fields, v) <==>
      (v.company != NoError || v.name != NoError || v.consent != NoError)
    by {
      var fs := FormSteps[1].fields;
      assert fs[0] == Company && fs[1] == Name && fs[2] == Consent;
    }
    match found
    case None => None
    case Some(step) => Some(step.id)
  }

  /** `syncErrorsForFields`: copies the listed keys' messages from `v` into
      `prev`, leaving the other keys as they were. */
  function SyncErrors(prev: Errors, fields: seq<Field>, v: Errors): (r: Errors)
    ensures forall f :: r.Get(f) == (if f in fields then v.Get(f) else prev.Get(f))
    decreases |fields|
  {
    if fields == [] then prev
    else
      var r := SyncErrors(prev.Set(fields[0], v.Get(fields[0])), fields[1..], v);
      assert forall f :: f in fields <==> f == fields[0] || f in fields[1..];
      r
  }
}
