/** The two-step contact form of src/components/CTASection.tsx as an
    event-driven state machine. Every timer firing is an explicit event:
    `ProgressTick` fires the next pending progress timer, `FeedbackExpired`
    the 7-second banner timer; `Unmount` is the component's teardown. */
module ContactForm {
  import opened Wrappers
  import opened JsText
  import opened FormValidation

  /** One change delivered by one control of the form. */
  datatype Edit =
    | EditEmail(email: string)
    | ChooseRequestType(requestType: RequestType)
    | EditCompany(company: string)
    | EditName(name: string)
    | EditMessage(message: string)
    | EditConsent(consent: bool)

  datatype Event =
    | Change(edit: Edit)
    | Next
    | Back
    | Submit
    | ProgressTick
    | Unmount
    | FeedbackExpired

  /** The notifications (toasts) the form raises: the request to check the
      input, and the confirmation for the request type just sent. */
  datatype Notice = CheckInput | Received(requestType: RequestType)

  /** One entry of the simulated progress schedule: the value shown and
      the timer's delay from the start of the run. */
  datatype ProgressStep = ProgressStep(value: int, delayMs: int)

  /** The value shown as soon as a valid submission starts. */
  const InitialProgress: int := 12

  const ProgressSchedule: seq<ProgressStep> := [
    ProgressStep(28, 240),
    ProgressStep(56, 520),
    ProgressStep(78, 820),
    ProgressStep(93, 1130),
    ProgressStep(100, 1420)
  ]

  /** The submission in flight: the index of the next progress timer to
      fire, and the request type the submit handler captured. */
  datatype Pending = Pending(nextTimer: nat, captured: RequestType)

  datatype State = State(
    form: FormData,
    errors: Errors,
    step: int,
    feedback: Option<RequestType>,
    submitting: bool,
    submittingType: Option<RequestType>,
    progress: int,
    pending: Option<Pending>,
    mounted: bool)

  const Initial := State(DefaultForm, NoErrors, 1, None, false, None, 0, None, true)

  datatype Transition = Transition(next: State, notices: seq<Notice>)

  /** The schedule's values rise strictly from the initial 12 up to exactly
      100, and its delays rise strictly, so its timers fire in order. */
  lemma ScheduleShape()
    ensures |ProgressSchedule| == 5
    ensures InitialProgress < ProgressSchedule[0].value
    ensures forall i, j :: 0 <= i < j < |ProgressSchedule| ==>
      ProgressSchedule[i].value < ProgressSchedule[j].value
      && ProgressSchedule[i].delayMs < ProgressSchedule[j].delayMs
    ensures forall i :: 0 <= i < |ProgressSchedule| ==> ProgressSchedule[i].value <= 100
    ensures ProgressSchedule[|ProgressSchedule| - 1].value == 100
  {
  }

  /** The progress shown while the timer at index `k` is the next to fire. */
  function ShownBefore(k: nat): int
    requires k < |ProgressSchedule|
  {
    if k == 0 then InitialProgress else ProgressSchedule[k - 1].value
  }

  /** The step on which a control is rendered (lines 517 and 587). */
  function ControlStep(e: Edit): int {
    match e
    case EditEmail(_) => 1
    case ChooseRequestType(_) => 1
    case _ => 2
  }

  /** The validated key whose message an edit clears, if any. */
  function ClearedKey(e: Edit): Option<Field> {
    match e
    case EditEmail(_) => Some(Email)
    case EditCompany(_) => Some(Company)
    case EditName(_) => Some(Name)
    case EditConsent(_) => Some(Consent)
    case _ => None
  }

  /** A change handler: stores the new value and, when that key shows an
      error, clears that one message. A control is only live on its own
      step and while no submission runs (`disabled={isSubmitting}`). */
  function ApplyEdit(s: State, e: Edit): (r: State)
    ensures s.submitting || s.step != ControlStep(e) ==> r == s
    ensures !s.submitting && s.step == ControlStep(e) ==>
      && r == s.(form := r.form, errors := r.errors)
      && r.form.email == (if e.EditEmail? then e.email else s.form.email)
      && r.form.requestType == (if e.ChooseRequestType? then e.requestType else s.form.requestType)
      && r.form.company == (if e.EditCompany? then e.company else s.form.company)
      && r.form.name == (if e.EditName? then e.name else s.form.name)
      && r.form.message == (if e.EditMessage? then e.message else s.form.message)
      && r.form.consent == (if e.EditConsent? then e.consent else s.form.consent)
      && forall f :: r.errors.Get(f) == (if ClearedKey(e) == Some(f) then NoError else s.errors.Get(f))
  {
    if s.submitting || s.step != ControlStep(e) then s
    else
      var form := match e
        case EditEmail(x) => s.form.(email := x)
        case ChooseRequestType(x) => s.form.(requestType := x)
        case EditCompany(x) => s.form.(company := x)
        case EditName(x) => s.form.(name := x)
        case EditMessage(x) => s.form.(message := x)
        case EditConsent(x) => s.form.(consent := x);
      var errors := match ClearedKey(e)
        case None => s.errors
        case Some(f) => if s.errors.Get(f) != NoError then s.errors.Set(f, NoError) else s.errors;
      s.(form := form, errors := errors)
  }

  /** The active step's keys all validate (`fieldsToValidate.every(...)`). */
  predicate StepValid(fields: seq<Field>, v: Errors) {
    forall k :: 0 <= k < |fields| ==> v.Get(fields[k]) == NoError
  }

  /** `handleNext`: refreshes the active step's messages only, and moves one
      step forward when they are all clear and a later step exists. */
  function HandleNext(s: State): (r: State)
    ensures s.submitting ==> r == s
    ensures !s.submitting ==>
      && r == s.(errors := r.errors, step := r.step)
      && (forall f :: r.errors.Get(f) ==
            (if f in ActiveFields(s.step) then Validate(s.form).Get(f) else s.errors.Get(f)))
      && (r.step == s.step + 1 <==>
            (forall f :: f in ActiveFields(s.step) ==> Validate(s.form).Get(f) == NoError)
            && s.step < TotalSteps)
      && (r.step == s.step || r.step == s.step + 1)
  {
    if s.submitting then s else NextWith(s, Validate(s.form))
  }

  /** The body of `handleNext` once the validation result `v` is known. */
  function NextWith(s: State, v: Errors): (r: State)
    ensures r == s.(errors := r.errors, step := r.step)
    ensures forall f :: r.errors.Get(f) == (if f in ActiveFields(s.step) then v.Get(f) else s.errors.Get(f))
    ensures r.step == s.step + 1 <==>
      (forall f :: f in ActiveFields(s.step) ==> v.Get(f) == NoError) && s.step < TotalSteps
    ensures r.step == s.step || r.step == s.step + 1
  {
    var fields := ActiveFields(s.step);
    var errors := SyncErrors(s.errors, fields, v);
    if StepValid(fields, v) && s.step < TotalSteps then s.(errors := errors, step := s.step + 1)
    else s.(errors := errors)
  }

  /** `handleBack`: one step back, never below step 1, messages untouched. */
  function HandleBack(s: State): (r: State)
    ensures s.submitting ==> r == s
    ensures !s.submitting ==>
      && r == s.(step := r.step)
      && r.step >= 1
      && (s.step > 1 ==> r.step == s.step - 1)
      && (s.step <= 1 ==> r.step == 1)
  {
    if s.submitting then s
    else s.(step := if s.step - 1 > 1 then s.step - 1 else 1)
  }

  /** `handleSubmit` up to its `await`: validates every key; on any failure
      shows all four messages, returns to the first step owning an invalid
      key and raises a notice; otherwise starts the progress run with the
      request type captured. */
  function HandleSubmit(s: State): (t: Transition)
    ensures s.submitting ==> t == Transition(s, [])
    ensures !s.submitting && !Submittable(s.form) ==>
      && t.next == s.(errors := Validate(s.form),
                      step := if Validate(s.form).email != NoError then 1 else 2)
      && t.notices == [CheckInput]
    ensures !s.submitting && Submittable(s.form) ==>
      && t.next == s.(errors := NoErrors, feedback := None, submitting := true,
                      submittingType := Some(s.form.requestType), progress := InitialProgress,
                      pending := Some(Pending(0, s.form.requestType)))
      && t.notices == []
  {
    if s.submitting then Transition(s, [])
    else
      var v := Validate(s.form);
      ValidateClearIff(s.form);
      var checked := s.(errors := v);
      if !v.AllClear() then
        var step := match FirstInvalidStep(v)
          case Some(id) => id
          case None => checked.step;
        Transition(checked.(step := step), [CheckInput])
      else
        var rt := s.form.requestType;
        Transition(
          checked.(feedback := None, submitting := true, submittingType := Some(rt),
                   progress := InitialProgress, pending := Some(Pending(0, rt))),
          [])
  }

  /** The callback of the progress timer `p.nextTimer`: shows its value;
      the last one resolves the awaited promise, and only it. */
  function TimerCallback(s: State, p: Pending): (r: State)
    requires p.nextTimer < |ProgressSchedule|
    ensures r.progress == ProgressSchedule[p.nextTimer].value
    ensures r.pending.None? <==> p.nextTimer == |ProgressSchedule| - 1
    ensures r.pending.Some? ==> r.pending.value == p.(nextTimer := p.nextTimer + 1)
    ensures r == s.(progress := r.progress, pending := r.pending)
  {
    var k := p.nextTimer;
    s.(progress := ProgressSchedule[k].value,
       pending := if k + 1 < |ProgressSchedule| then Some(p.(nextTimer := k + 1)) else None)
  }

  /** The rest of `handleSubmit` once the promise resolves: nothing if the
      form was torn down; otherwise ends the run, confirms the captured
      request type and resets the form to its defaults on step 1. */
  function Resume(s: State, captured: RequestType): (t: Transition)
    ensures !s.mounted ==> t == Transition(s, [])
    ensures s.mounted ==>
      && t.next.form == DefaultForm && t.next.errors == NoErrors && t.next.step == 1
      && !t.next.submitting && t.next.submittingType.None? && t.next.progress == 0
      && t.next.feedback == Some(captured)
      && t.next.pending == s.pending && t.next.mounted
      && t.notices == [Received(captured)]
  {
    if !s.mounted then Transition(s, [])
    else
      Transition(
        s.(submitting := false, submittingType := None, progress := 0,
           feedback := Some(captured), form := DefaultForm, errors := NoErrors, step := 1),
        [Received(captured)])
  }

  /** A progress timer fires, if one is pending: an intermediate timer
      shows its value and arms the next one; the last one resolves the
      promise, so the submission ends with the captured type confirmed. */
  function FireProgressTimer(s: State): (t: Transition)
    ensures s.pending.None? ==> t == Transition(s, [])
    ensures s.pending.Some? && s.pending.value.nextTimer + 1 < |ProgressSchedule| ==>
      var p := s.pending.value;
      t == Transition(s.(progress := ProgressSchedule[p.nextTimer].value,
                         pending := Some(p.(nextTimer := p.nextTimer + 1))), [])
    ensures s.mounted && s.pending.Some? && s.pending.value.nextTimer + 1 == |ProgressSchedule| ==>
      var captured := s.pending.value.captured;
      && t.next.pending.None? && !t.next.submitting && t.next.progress == 0
      && t.next.form == DefaultForm && t.next.errors == NoErrors && t.next.step == 1
      && t.next.feedback == Some(captured) && t.notices == [Received(captured)]
  {
    match s.pending
    case None => Transition(s, [])
    case Some(p) =>
      if p.nextTimer < |ProgressSchedule| then
        var r := TimerCallback(s, p);
        if r.pending.None? then Resume(r, p.captured) else Transition(r, [])
      else Transition(s, [])
  }

  /** Teardown: the form is gone, its pending timers are cleared and the
      outstanding promise is resolved, so the awaiting submit resumes only
      to find the form unmounted. */
  function HandleUnmount(s: State): (t: Transition)
    ensures t.notices == []
    ensures t.next == s.(mounted := false, pending := None)
  {
    var u := s.(mounted := false, pending := None);
    match s.pending
    case None => Transition(u, [])
    case Some(p) => Resume(u, p.captured)
  }

  /** One event. A torn-down form reacts to nothing; the banner timer
      clears the confirmation and nothing else; a submit is handled by the
      submit handler alone. */
  function Step(s: State, e: Event): (t: Transition)
    ensures !s.mounted ==> t == Transition(s, [])
    ensures s.mounted && e.FeedbackExpired? ==> t == Transition(s.(feedback := None), [])
    ensures s.mounted && e.Submit? ==> t == HandleSubmit(s)
  {
    if !s.mounted then Transition(s, [])
    else
      match e
      case Change(x) => Transition(ApplyEdit(s, x), [])
      case Next => Transition(HandleNext(s), [])
      case Back => Transition(HandleBack(s), [])
      case Submit => HandleSubmit(s)
      case ProgressTick => FireProgressTimer(s)
      case Unmount => HandleUnmount(s)
      case FeedbackExpired => Transition(s.(feedback := None), [])
  }

  /** The banner timer: a shown confirmation disappears, and nothing else
      about the form changes. */
  lemma BannerExpires(s: State)
    requires s.mounted
    ensures var t := Step(s, FeedbackExpired);
      && t.next.feedback.None? && t.notices == []
      && t.next == s.(feedback := t.next.feedback)
  {
  }

  /** A sequence of events, with the notices they raise in order. */
  function Run(s: State, events: seq<Event>): Transition
    decreases |events|
  {
    if events == [] then Transition(s, [])
    else
      var first := Step(s, events[0]);
      var rest := Run(first.next, events[1..]);
      Transition(rest.next, first.notices + rest.notices)
  }

  /** What every reachable state satisfies: the step is 1 or 2; a running
      submission has a pending timer (until teardown) whose predecessor's
      value is on screen; an idle form shows progress 0 and no pending
      timer. */
  ghost predicate Inv(s: State) {
    && 1 <= s.step <= TotalSteps
    && 0 <= s.progress <= 100
    && (s.submitting <==> s.submittingType.Some?)
    && (!s.submitting ==> s.progress == 0 && s.pending.None?)
    && (s.submitting ==> s.feedback.None?)
    && (s.submitting && s.mounted ==> s.pending.Some?)
    && (s.pending.Some? ==>
          && s.mounted && s.submitting
          && s.pending.value.nextTimer < |ProgressSchedule|
          && s.submittingType == Some(s.pending.value.captured)
          && s.progress == ShownBefore(s.pending.value.nextTimer))
  }

  lemma InitialInv()
    ensures Inv(Initial)
  {
  }

  /** Every event keeps the invariant; in particular the step stays in
      [1, 2]. */
  lemma StepInv(s: State, e: Event)
    requires Inv(s)
    ensures Inv(Step(s, e).next)
  {
    if s.mounted {
      match e
      case Change(x) =>
      case Next =>
      case Back =>
      case Submit => SubmitKeepsInv(s);
      case ProgressTick => TickKeepsInv(s);
      case Unmount =>
      case FeedbackExpired =>
    }
  }

  lemma SubmitKeepsInv(s: State)
    requires Inv(s) && s.mounted
    ensures Inv(HandleSubmit(s).next)
  {
  }

  lemma TickKeepsInv(s: State)
    requires Inv(s) && s.mounted
    ensures Inv(FireProgressTimer(s).next)
  {
    if s.pending.Some? {
      ScheduleShape();
    }
  }

  lemma {:induction false} RunInv(s: State, events: seq<Event>)
    requires Inv(s)
    ensures Inv(Run(s, events).next)
    decreases |events|
  {
    if events != [] {
      StepInv(s, events[0]);
      RunInv(Step(s, events[0]).next, events[1..]);
    }
  }

  /** While a submission runs, each progress timer shows a strictly larger
      value, never above 100, and the value reaches 100 exactly when the
      promise resolves. */
  lemma ProgressRises(s: State)
    requires Inv(s) && s.pending.Some?
    ensures var r := TimerCallback(s, s.pending.value);
      && s.progress < r.progress <= 100
      && (r.pending.None? <==> r.progress == 100)
  {
    ScheduleShape();
  }

  /** After teardown no event changes anything or raises a notice: no
      progress write and no post-submit reset happen. */
  lemma {:induction false} TornDownStaysPut(s: State, events: seq<Event>)
    requires !s.mounted
    ensures Run(s, events) == Transition(s, [])
    decreases |events|
  {
    if events != [] {
      TornDownStaysPut(s, events[1..]);
    }
  }

  /** `n` progress timer firings. */
  function ProgressTicks(n: nat): (es: seq<Event>)
    ensures |es| == n && forall i :: 0 <= i < n ==> es[i] == ProgressTick
  {
    seq(n, _ => ProgressTick)
  }

  /** The run of a started submission: after `n` < 5 timers the form still
      submits and shows the n-th scheduled value; after the fifth it is back
      on step 1 with the defaults, no messages, progress 0 and the captured
      request type confirmed. */
  lemma {:induction false} SubmissionRun(s: State, n: nat)
    requires Inv(s) && s.pending.Some? && s.pending.value.nextTimer == 0
    requires n <= |ProgressSchedule|
    ensures var t := Run(s, ProgressTicks(n)).next;
      && (n < |ProgressSchedule| ==>
            t == s.(progress := ShownBefore(n), pending := Some(Pending(n, s.pending.value.captured))))
      && (n == |ProgressSchedule| ==>
            && t.form == DefaultForm && t.errors == NoErrors && t.step == 1
            && !t.submitting && t.progress == 0 && t.pending.None?
            && t.feedback == Some(s.pending.value.captured))
    decreases n
  {
    var rt := s.pending.value.captured;
    if n > 0 {
      SubmissionRun(s, n - 1);
      var before := s.(progress := ShownBefore(n - 1), pending := Some(Pending(n - 1, rt)));
      RunSplit(s, ProgressTicks(n - 1), [ProgressTick]);
      assert ProgressTicks(n - 1) + [ProgressTick] == ProgressTicks(n);
      assert Run(s, ProgressTicks(n - 1)).next == before;
    }
  }

  /** "next" on step 1 checks the e-mail alone: it shows that key's
      message and moves to step 2 exactly when the e-mail is valid. */
  lemma NextOnStepOne(s: State)
    requires s.mounted && !s.submitting && s.step == 1
    ensures var v := Validate(s.form).email;
      Step(s, Next) == Transition(
        s.(errors := s.errors.(email := v), step := if v == NoError then 2 else 1), [])
  {
    HandleNextOnStepOne(s);
  }

  lemma HandleNextOnStepOne(s: State)
    requires !s.submitting && s.step == 1
    ensures var v := Validate(s.form).email;
      HandleNext(s) == s.(errors := s.errors.(email := v), step := if v == NoError then 2 else 1)
  {
    NextWithOnStepOne(s, Validate(s.form));
  }

  lemma NextWithOnStepOne(s: State, v: Errors)
    requires s.step == 1
    ensures NextWith(s, v) == s.(errors := s.errors.(email := v.email), step := if v.email == NoError then 2 else 1)
  {
    var r := NextWith(s, v);
    assert ActiveFields(1) == [Email];
    assert r.errors.Get(Email) == v.email;
    assert r.errors.Get(Company) == s.errors.company;
    assert r.errors.Get(Name) == s.errors.name;
    assert r.errors.Get(Consent) == s.errors.consent;
    assert (forall f :: f in ActiveFields(1) ==> v.Get(f) == NoError) <==> v.email == NoError;
  }

  /** On step 1, typing an e-mail stores it and clears only its message. */
  lemma EditEmailOnStepOne(s: State, x: string)
    requires s.mounted && !s.submitting && s.step == 1
    ensures Step(s, Change(EditEmail(x))) ==
      Transition(s.(form := s.form.(email := x), errors := s.errors.(email := NoError)), [])
  {
    var r := ApplyEdit(s, EditEmail(x));
    assert r.errors.Get(Email) == NoError;
    assert r.errors.Get(Company) == s.errors.company;
    assert r.errors.Get(Name) == s.errors.name;
    assert r.errors.Get(Consent) == s.errors.consent;
  }

  /** A submit of a record that fails validation shows every message,
      returns to the first step owning a failing key, raises one notice and
      leaves the form idle. */
  lemma RejectedSubmit(s: State)
    requires s.mounted && !s.submitting && !Validate(s.form).AllClear()
    ensures var t := Step(s, Submit);
      && t.next == s.(errors := Validate(s.form),
                      step := if Validate(s.form).email != NoError then 1 else 2)
      && t.notices == [CheckInput]
      && !t.next.submitting && t.next.pending.None? == s.pending.None?
  {
    HandleSubmitRejects(s);
  }

  lemma HandleSubmitRejects(s: State)
    requires !s.submitting && !Validate(s.form).AllClear()
    ensures HandleSubmit(s) == Transition(
      s.(errors := Validate(s.form), step := if Validate(s.form).email != NoError then 1 else 2),
      [CheckInput])
  {
    ValidateClearIff(s.form);
  }

  /** A valid submit followed by the five progress timers: the form runs
      with progress 12 and the captured request type, and ends back on step
      1 with the defaults, no messages, progress 0 and that request type
      confirmed. */
  lemma {:induction false} AcceptedSubmitCompletes(s: State)
    requires Inv(s) && s.mounted && !s.submitting && Submittable(s.form)
    ensures var started := Step(s, Submit).next;
      var done := Run(started, ProgressTicks(|ProgressSchedule|)).next;
      && started.submitting && started.progress == InitialProgress
      && started.submittingType == Some(s.form.requestType)
      && done.form == DefaultForm && done.errors == NoErrors && done.step == 1
      && !done.submitting && done.progress == 0 && done.pending.None?
      && done.feedback == Some(s.form.requestType)
  {
    StepInv(s, Submit);
    SubmissionRun(Step(s, Submit).next, |ProgressSchedule|);
  }

  /** Running two event sequences one after the other equals running
      their concatenation: the end state is that of the second run, and the
      notices are the first run's followed by the second's. */
  lemma RunSplit(s: State, a: seq<Event>, b: seq<Event>)
    ensures Run(s, a + b) ==
      Transition(Run(Run(s, a).next, b).next, Run(s, a).notices + Run(Run(s, a).next, b).notices)
  {
    RunSplitState(s, a, b);
    RunSplitNotices(s, a, b);
  }

  lemma {:induction false} RunSplitState(s: State, a: seq<Event>, b: seq<Event>)
    ensures Run(s, a + b).next == Run(Run(s, a).next, b).next
    decreases |a|
  {
    if a == [] {
      assert a + b == b;
    } else {
      var first := Step(s, a[0]).next;
      assert (a + b)[0] == a[0];
      assert (a + b)[1..] == a[1..] + b;
      assert Run(s, a + b).next == Run(first, a[1..] + b).next;
      assert Run(s, a).next == Run(first, a[1..]).next;
      RunSplitState(first, a[1..], b);
    }
  }

  lemma {:induction false} RunSplitNotices(s: State, a: seq<Event>, b: seq<Event>)
    ensures Run(s, a + b).notices == Run(s, a).notices + Run(Run(s, a).next, b).notices
    decreases |a|
  {
    if a == [] {
      assert a + b == b;
    } else {
      var first := Step(s, a[0]);
      var x := Run(first.next, a[1..]);
      var y := Run(x.next, b);
      assert (a + b)[0] == a[0] && (a + b)[1..] == a[1..] + b;
      calc {
        Run(s, a + b).notices;
        { RunCons(s, a + b); }
        first.notices + Run(first.next, a[1..] + b).notices;
        { RunSplitNotices(first.next, a[1..], b); }
        first.notices + (x.notices + y.notices);
        { ConcatAssoc(first.notices, x.notices, y.notices); }
        (first.notices + x.notices) + y.notices;
        { RunCons(s, a); }
        Run(s, a).notices + Run(Run(s, a).next, b).notices;
      }
    }
  }

  lemma ConcatAssoc<T>(p: seq<T>, q: seq<T>, r: seq<T>)
    ensures p + (q + r) == (p + q) + r
  {
  }

  /** One step of a non-empty run. */
  lemma RunCons(s: State, events: seq<Event>)
    requires events != []
    ensures Run(s, events) == Transition(Run(Step(s, events[0]).next, events[1..]).next,
      Step(s, events[0]).notices + Run(Step(s, events[0]).next, events[1..]).notices)
  {
  }
}
