/**
 * The registration page as a state machine over values: its state, the
 * requests it sends, and each handler split at its `await` into a start step
 * (clear the messages, validate, then either report an error or set `loading`
 * and send a request) and a settle step (the `try`/`catch`/`finally` that runs
 * when the server answers).
 */
module Workflow {
  import opened Validation

  datatype Option<T> = None | Some(value: T)

  /** The four named inputs of the page. */
  datatype Field = Name | Email | Password | Otp

  datatype Form = Form(name: string, email: string, password: string, otp: string)
  {
    function Get(f: Field): string
    {
      match f
      case Name => name
      case Email => email
      case Password => password
      case Otp => otp
    }

    /** `{ ...form, [field]: value }`: the named field takes the value, the others keep theirs. */
    function With(f: Field, v: string): (r: Form)
      ensures r.Get(f) == v
      ensures forall g :: g != f ==> r.Get(g) == Get(g)
    {
      match f
      case Name => this.(name := v)
      case Email => this.(email := v)
      case Password => this.(password := v)
      case Otp => this.(otp := v)
    }

    /** JavaScript's `!form.name || !form.email || !form.password || !form.otp`. */
    predicate AnyEmpty()
    {
      name == "" || email == "" || password == "" || otp == ""
    }
  }

  const EmptyForm := Form("", "", "", "")

  const Purpose := "register"
  const OtpRequestPath := "/market-mate/user/otp/request"
  const RegisterPath := "/market-mate/user/register"

  /** The body of each POST the page sends. */
  datatype Request =
    | OtpRequest(email: string, purpose: string)
    | RegistrationRequest(email: string, name: string, password: string, otp: string, purpose: string)
  {
    function Path(): string
    {
      if OtpRequest? then OtpRequestPath else RegisterPath
    }
  }

  /** How an awaited POST settles: success, or an error carrying `response.data.message` when the server sent one. */
  datatype Outcome = Ok | Fail(message: Option<string>)

  const EmailRequired := "Email is required"
  const InvalidEmail := "Enter a valid email address"
  const OtpSentMessage := "OTP sent successfully to your email"
  const OtpFallback := "Failed to send OTP. Try again."
  const AllFieldsRequired := "All fields are required"
  const WeakPassword := "Password must be at least 8 characters with at least one letter and one number"
  const BadOtp := "OTP must be exactly 6 digits"
  const RegisteredMessage := "Registration successful! Redirecting..."
  const RegisterFallback := "Registration failed. Try again."

  /** `err.response?.data?.message || fallback`: the server's message unless it is missing or empty. */
  function FailureText(message: Option<string>, fallback: string): (t: string)
    requires fallback != ""
    ensures t != ""
    ensures t == fallback || message == Some(t)
    ensures message.Some? && message.value != "" ==> t == message.value
  {
    match message
    case Some(m) => if m != "" then m else fallback
    case None => fallback
  }

  /**
   * The page's state. `awaiting` is the request whose handler is suspended at
   * its `await` (the source keeps it in the pending continuation, not in a
   * variable); `navigationPending` stands for the scheduled move to the login
   * page.
   */
  datatype State = State(
    form: Form,
    otpSent: bool,
    loading: bool,
    error: string,
    successMessage: string,
    navigationPending: bool,
    awaiting: Option<Request>)

  const Initial := State(EmptyForm, false, false, "", "", false, None)

  /** Exactly one of the two messages is shown. */
  predicate OneMessage(s: State)
  {
    (s.error != "") != (s.successMessage != "")
  }

  /** Nothing but the two messages differs between `s` and `t`. */
  predicate OnlyMessagesDiffer(s: State, t: State)
  {
    && t.form == s.form && t.otpSent == s.otpSent && t.loading == s.loading
    && t.navigationPending == s.navigationPending && t.awaiting == s.awaiting
  }

  /** The request carries the form's current values. */
  predicate Carries(r: Request, f: Form)
  {
    match r
    case OtpRequest(email, purpose) => email == f.email && purpose == Purpose
    case RegistrationRequest(email, name, password, otp, purpose) =>
      email == f.email && name == f.name && password == f.password && otp == f.otp && purpose == Purpose
  }

  /** handleChange: the named field takes the value; nothing else changes. */
  function ChangeField(s: State, f: Field, v: string): (t: State)
    ensures t.form.Get(f) == v
    ensures forall g :: g != f ==> t.form.Get(g) == s.form.Get(g)
    ensures t == s.(form := t.form)
  {
    s.(form := s.form.With(f, v))
  }

  // ---------------------------------------------------------------------------
  // requestOTP
  // ---------------------------------------------------------------------------

  /** The first failing check of requestOTP, if any. */
  function OtpRequestProblem(f: Form): (p: Option<string>)
    ensures p == Some(EmailRequired) <==> f.email == ""
    ensures p == Some(InvalidEmail) <==> f.email != "" && !EmailShape(f.email)
    ensures p == None <==> EmailShape(f.email)
  {
    ValidateEmailIffShape(f.email);
    if f.email == "" then Some(EmailRequired)
    else if !ValidateEmail(f.email) then Some(InvalidEmail)
    else None
  }

  /** A step of a handler: the state it leaves and the request it sends, if any. */
  datatype Step = Step(next: State, sent: Option<Request>)

  /** requestOTP up to its `await`. */
  function StartOtpRequest(s: State): (r: Step)
    ensures r.sent.Some? <==> EmailShape(s.form.email)
    ensures r.sent.None? ==>
      OnlyMessagesDiffer(s, r.next) && r.next.successMessage == ""
      && Some(r.next.error) == OtpRequestProblem(s.form)
    ensures r.sent.Some? ==>
      && r.sent.value.OtpRequest? && r.sent.value.Path() == OtpRequestPath
      && Carries(r.sent.value, s.form)
      && r.next == s.(loading := true, awaiting := r.sent, error := "", successMessage := "")
  {
    var cleared := s.(error := "", successMessage := "");
    match OtpRequestProblem(s.form)
    case Some(problem) => Step(cleared.(error := problem), None)
    case None =>
      var req := OtpRequest(s.form.email, Purpose);
      Step(cleared.(loading := true, awaiting := Some(req)), Some(req))
  }

  /** requestOTP after its `await` settles: the `try` tail, the `catch` and the `finally`. */
  function SettleOtpRequest(s: State, o: Outcome): (t: State)
    ensures !t.loading && t.awaiting.None?
    ensures t.form == s.form && t.navigationPending == s.navigationPending
    ensures t.otpSent == (s.otpSent || o.Ok?)
    ensures o.Ok? ==> t.successMessage == OtpSentMessage && t.error == s.error
    ensures o.Fail? ==>
      t.successMessage == s.successMessage && t.error != ""
      && (t.error == OtpFallback || o.message == Some(t.error))
    ensures o.Fail? ==> t.error == FailureText(o.message, OtpFallback)
  {
    var done := s.(loading := false, awaiting := None);
    match o
    case Ok => done.(otpSent := true, successMessage := OtpSentMessage)
    case Fail(message) => done.(error := FailureText(message, OtpFallback))
  }

  // ---------------------------------------------------------------------------
  // registerUser
  // ---------------------------------------------------------------------------

  /** The first failing check of registerUser, if any: empty fields, then the password, then the OTP. */
  function RegistrationProblem(f: Form): (p: Option<string>)
    ensures p == Some(AllFieldsRequired) <==> f.AnyEmpty()
    ensures p == Some(WeakPassword) <==> !f.AnyEmpty() && !PasswordRule(f.password)
    ensures p == Some(BadOtp) <==>
      !f.AnyEmpty() && PasswordRule(f.password) && !AllDigitsOfLength(f.otp, 6)
    ensures p == None <==>
      f.name != "" && f.email != "" && PasswordRule(f.password) && AllDigitsOfLength(f.otp, 6)
  {
    ValidatePasswordIffRule(f.password);
    ValidateOtpIffSixDigits(f.otp);
    if f.AnyEmpty() then Some(AllFieldsRequired)
    else if !ValidatePassword(f.password) then Some(WeakPassword)
    else if !ValidateOtp(f.otp) then Some(BadOtp)
    else None
  }

  /** registerUser up to its `await`. */
  function StartRegistration(s: State): (r: Step)
    ensures r.sent.Some? <==> RegistrationProblem(s.form).None?
    ensures r.sent.None? ==>
      OnlyMessagesDiffer(s, r.next) && r.next.successMessage == ""
      && Some(r.next.error) == RegistrationProblem(s.form)
    ensures r.sent.Some? ==>
      && r.sent.value.RegistrationRequest? && r.sent.value.Path() == RegisterPath
      && Carries(r.sent.value, s.form)
      && r.next == s.(loading := true, awaiting := r.sent, error := "", successMessage := "")
  {
    var cleared := s.(error := "", successMessage := "");
    match RegistrationProblem(s.form)
    case Some(problem) => Step(cleared.(error := problem), None)
    case None =>
      var f := s.form;
      var req := RegistrationRequest(f.email, f.name, f.password, f.otp, Purpose);
      Step(cleared.(loading := true, awaiting := Some(req)), Some(req))
  }

  /** registerUser after its `await` settles. Success wipes the form before navigation is scheduled. */
  function SettleRegistration(s: State, o: Outcome): (t: State)
    ensures !t.loading && t.awaiting.None?
    ensures t.otpSent == s.otpSent
    ensures o.Ok? ==>
      t.form == EmptyForm && t.navigationPending
      && t.successMessage == RegisteredMessage && t.error == s.error
    ensures o.Fail? ==>
      t.form == s.form && t.navigationPending == s.navigationPending
      && t.successMessage == s.successMessage && t.error != ""
      && (t.error == RegisterFallback || o.message == Some(t.error))
    ensures o.Fail? ==> t.error == FailureText(o.message, RegisterFallback)
  {
    var done := s.(loading := false, awaiting := None);
    match o
    case Ok => done.(successMessage := RegisteredMessage, form := EmptyForm, navigationPending := true)
    case Fail(message) => done.(error := FailureText(message, RegisterFallback))
  }

  // ---------------------------------------------------------------------------
  // The page as a whole: what the user can do, and what follows
  // ---------------------------------------------------------------------------

  datatype Event =
    | Edit(field: Field, value: string)   // typing into an input
    | SubmitOtpRequest                    // "Request OTP", or "Resend OTP" once the OTP was sent
    | SubmitRegistration                  // "Register"
    | Respond(outcome: Outcome)           // the awaited POST settles

  /**
   * Which inputs accept typing: before the OTP is sent only the email input is
   * shown; afterwards the email input is read-only and the other three are
   * shown. Every input except the read-only email input is disabled while
   * `loading`, and the read-only one accepts no typing at all.
   */
  predicate Editable(s: State, f: Field)
  {
    !s.loading && (if f == Email then !s.otpSent else s.otpSent)
  }

  /** Whether the control behind an event is there and enabled. */
  predicate Enabled(s: State, e: Event)
  {
    match e
    case Edit(f, _) => Editable(s, f)
    case SubmitOtpRequest => !s.loading
    case SubmitRegistration => !s.loading && s.otpSent
    case Respond(_) => s.awaiting.Some?
  }

  /** One event. A disabled control does nothing. */
  function Apply(s: State, e: Event): Step
  {
    if !Enabled(s, e) then Step(s, None)
    else
      match e
      case Edit(f, v) => Step(ChangeField(s, f, v), None)
      case SubmitOtpRequest => StartOtpRequest(s)
      case SubmitRegistration => StartRegistration(s)
      case Respond(o) =>
        if s.awaiting.value.OtpRequest? then Step(SettleOtpRequest(s, o), None)
        else Step(SettleRegistration(s, o), None)
  }

  /**
   * The server's answer resumes the handler that posted to the awaited
   * request's endpoint: the OTP endpoint's answer runs the end of requestOTP,
   * the registration endpoint's the end of registerUser.
   */
  lemma AnswerSettlesByPath(s: State, o: Outcome)
    requires s.awaiting.Some?
    ensures s.awaiting.value.Path() == OtpRequestPath ==>
      Apply(s, Respond(o)) == Step(SettleOtpRequest(s, o), None)
    ensures s.awaiting.value.Path() == RegisterPath ==>
      Apply(s, Respond(o)) == Step(SettleRegistration(s, o), None)
  {
  }

  /** The state after a sequence of events. */
  function Run(s: State, es: seq<Event>): State
    decreases |es|
  {
    if es == [] then s else Run(Apply(s, es[0]).next, es[1..])
  }

  /**
   * What holds of every state the page can reach: `loading` exactly while a
   * request is awaited; never both messages at once; while awaiting, both
   * messages are clear and the request still carries the form's values; a
   * registration is only ever awaited, and navigation only ever scheduled,
   * after the OTP was sent.
   */
  predicate Inv(s: State)
  {
    && (s.loading <==> s.awaiting.Some?)
    && !(s.error != "" && s.successMessage != "")
    && (s.awaiting.Some? ==>
          s.error == "" && s.successMessage == "" && Carries(s.awaiting.value, s.form))
    && (s.awaiting.Some? && s.awaiting.value.RegistrationRequest? ==> s.otpSent)
    && (s.navigationPending ==> s.otpSent)
  }

  lemma InitialInv()
    ensures Inv(Initial)
  {
  }

  /**
   * Every event keeps the invariant. No request is sent while one is in
   * flight, and a request sent carries the form's values.
   */
  lemma ApplyKeepsInv(s: State, e: Event)
    requires Inv(s)
    ensures Inv(Apply(s, e).next)
    ensures Apply(s, e).sent.Some? ==> !s.loading && Carries(Apply(s, e).sent.value, s.form)
  {
  }

  lemma {:induction false} RunKeepsInv(s: State, es: seq<Event>)
    requires Inv(s)
    ensures Inv(Run(s, es))
    decreases |es|
  {
    if es != [] {
      ApplyKeepsInv(s, es[0]);
      RunKeepsInv(Apply(s, es[0]).next, es[1..]);
    }
  }

  /** Every state reachable from the freshly rendered page satisfies the invariant. */
  lemma ReachableInv(es: seq<Event>)
    ensures Inv(Run(Initial, es))
  {
    RunKeepsInv(Initial, es);
  }

  /** Once the OTP was sent, the page never goes back to the first phase, whatever happens. */
  lemma {:induction false} OtpSentNeverReverts(s: State, es: seq<Event>)
    requires s.otpSent
    ensures Run(s, es).otpSent
    decreases |es|
  {
    if es != [] {
      OtpSentNeverReverts(Apply(s, es[0]).next, es[1..]);
    }
  }

  /**
   * Once the OTP was sent the email can no longer be typed into: it keeps its
   * value, unless a successful registration wipes it.
   */
  lemma {:induction false} EmailFrozenAfterOtp(s: State, es: seq<Event>)
    requires s.otpSent
    ensures Run(s, es).form.email == s.form.email
      || (Run(s, es).form.email == "" && Run(s, es).navigationPending)
    decreases |es|
  {
    if es != [] {
      var t := Apply(s, es[0]).next;
      assert t.otpSent;
      EmailFrozenAfterOtp(t, es[1..]);
      if t.form.email != s.form.email {
        assert t.form.email == "" && t.navigationPending;
        EmptyEmailStaysEmpty(t, es[1..]);
        NavigationStaysPending(t, es[1..]);
      }
    }
  }

  /** Once navigation to the login page is scheduled, it stays scheduled. */
  lemma {:induction false} NavigationStaysPending(s: State, es: seq<Event>)
    requires s.navigationPending
    ensures Run(s, es).navigationPending
    decreases |es|
  {
    if es != [] {
      NavigationStaysPending(Apply(s, es[0]).next, es[1..]);
    }
  }

  /** Navigation is scheduled only when an awaited registration settles successfully. */
  lemma NavigationOnlyOnRegistrationSuccess(s: State, e: Event)
    requires !s.navigationPending && Apply(s, e).next.navigationPending
    ensures e == Respond(Ok) && s.awaiting.Some? && s.awaiting.value.RegistrationRequest?
  {
  }

  lemma {:induction false} EmptyEmailStaysEmpty(s: State, es: seq<Event>)
    requires s.otpSent && s.form.email == ""
    ensures Run(s, es).form.email == ""
    decreases |es|
  {
    if es != [] {
      EmptyEmailStaysEmpty(Apply(s, es[0]).next, es[1..]);
    }
  }

  /**
   * An attempt that ends without a request in flight (a validation failure,
   * or a settled request) shows exactly one message; an attempt that sends a
   * request shows none until it settles.
   */
  lemma AttemptShowsOneMessage(s: State, e: Event)
    requires Inv(s) && Enabled(s, e) && !e.Edit?
    ensures Apply(s, e).sent.None? ==> OneMessage(Apply(s, e).next)
    ensures Apply(s, e).sent.Some? ==>
      Apply(s, e).next.error == "" && Apply(s, e).next.successMessage == ""
  {
  }

  /** `loading` is cleared whenever the awaited request settles, whether it succeeded or failed. */
  lemma SettleClearsLoading(s: State, o: Outcome)
    requires s.awaiting.Some?
    ensures !Apply(s, Respond(o)).next.loading
    ensures Apply(s, Respond(o)).next.awaiting.None?
  {
  }

  /** `otpSent` only ever becomes true through a successful OTP request. */
  lemma OtpSentOnlyOnOtpSuccess(s: State, e: Event)
    requires !s.otpSent && Apply(s, e).next.otpSent
    ensures e == Respond(Ok) && s.awaiting.Some? && s.awaiting.value.OtpRequest?
  {
  }

  /** `loading` only ever becomes true in the step that sends a request, after validation passed. */
  lemma LoadingOnlyWhenSending(s: State, e: Event)
    requires !s.loading && Apply(s, e).next.loading
    ensures Apply(s, e).sent.Some?
    ensures e == SubmitOtpRequest ==> OtpRequestProblem(s.form).None?
    ensures e == SubmitRegistration ==> RegistrationProblem(s.form).None?
  {
  }

  lemma RunStep(s: State, e: Event, es: seq<Event>)
    ensures Run(s, [e] + es) == Run(Apply(s, e).next, es)
  {
    assert ([e] + es)[1..] == es;
  }

  /** Running two sequences of events one after the other is running their concatenation. */
  lemma {:induction false} RunAppend(s: State, a: seq<Event>, b: seq<Event>)
    ensures Run(s, a + b) == Run(Run(s, a), b)
    decreases |a|
  {
    if a == [] {
      assert a + b == b;
    } else {
      assert (a + b)[0] == a[0] && (a + b)[1..] == a[1..] + b;
      RunAppend(Apply(s, a[0]).next, a[1..], b);
    }
  }

  /** The first phase for an acceptable email: the OTP is sent and the second phase shown. */
  lemma OtpPhase(email: string)
    requires EmailShape(email)
    ensures Run(Initial, [Edit(Email, email), SubmitOtpRequest, Respond(Ok)])
      == Initial.(form := EmptyForm.(email := email), otpSent := true, successMessage := OtpSentMessage)
  {
    var s0 := ChangeField(Initial, Email, email);
    assert Apply(Initial, Edit(Email, email)).next == s0;
    var s1 := StartOtpRequest(s0).next;
    assert Apply(s0, SubmitOtpRequest).next == s1;
    assert s1.awaiting == Some(OtpRequest(email, Purpose));
    var s2 := SettleOtpRequest(s1, Ok);
    assert Apply(s1, Respond(Ok)).next == s2;
    RunStep(s1, Respond(Ok), []);
    RunStep(s0, SubmitOtpRequest, [Respond(Ok)]);
    RunStep(Initial, Edit(Email, email), [SubmitOtpRequest, Respond(Ok)]);
  }

  /** The second phase for acceptable values: the registration succeeds and the form is wiped. */
  lemma RegistrationPhase(s: State, name: string, password: string, otp: string)
    requires s.otpSent && !s.loading && s.awaiting.None? && s.form.email != ""
    requires name != "" && PasswordRule(password) && AllDigitsOfLength(otp, 6)
    ensures var t := Run(s, [
        Edit(Name, name), Edit(Password, password), Edit(Otp, otp),
        SubmitRegistration, Respond(Ok)]);
      t.form == EmptyForm && t.navigationPending && t.otpSent && !t.loading
      && t.successMessage == RegisteredMessage && t.error == ""
  {
    var s3 := ChangeField(s, Name, name);
    assert Apply(s, Edit(Name, name)).next == s3;
    var s4 := ChangeField(s3, Password, password);
    assert Apply(s3, Edit(Password, password)).next == s4;
    var s5 := ChangeField(s4, Otp, otp);
    assert Apply(s4, Edit(Otp, otp)).next == s5;
    assert s5.form == Form(name, s.form.email, password, otp);
    var s6 := StartRegistration(s5).next;
    assert Apply(s5, SubmitRegistration).next == s6;
    assert s6.awaiting.Some? && s6.awaiting.value.RegistrationRequest? && s6.error == "";
    var s7 := SettleRegistration(s6, Ok);
    assert Apply(s6, Respond(Ok)).next == s7;
    RunStep(s6, Respond(Ok), []);
    RunStep(s5, SubmitRegistration, [Respond(Ok)]);
    RunStep(s4, Edit(Otp, otp), [SubmitRegistration, Respond(Ok)]);
    RunStep(s3, Edit(Password, password), [Edit(Otp, otp), SubmitRegistration, Respond(Ok)]);
    RunStep(s, Edit(Name, name), [Edit(Password, password), Edit(Otp, otp), SubmitRegistration, Respond(Ok)]);
  }

  /**
   * The whole flow for any acceptable inputs: type the email, request the
   * OTP, fill in the other three fields, register. The page ends with the
   * form wiped, the success message shown and navigation scheduled.
   */
  lemma HappyPath(email: string, name: string, password: string, otp: string)
    requires EmailShape(email) && name != ""
    requires PasswordRule(password) && AllDigitsOfLength(otp, 6)
    ensures var s := Run(Initial, [
        Edit(Email, email), SubmitOtpRequest, Respond(Ok),
        Edit(Name, name), Edit(Password, password), Edit(Otp, otp),
        SubmitRegistration, Respond(Ok)]);
      s.form == EmptyForm && s.navigationPending && s.otpSent && !s.loading
      && s.successMessage == RegisteredMessage && s.error == ""
  {
    var first := [Edit(Email, email), SubmitOtpRequest, Respond(Ok)];
    var second := [Edit(Name, name), Edit(Password, password), Edit(Otp, otp), SubmitRegistration, Respond(Ok)];
    OtpPhase(email);
    RunAppend(Initial, first, second);
    assert first + second == [
        Edit(Email, email), SubmitOtpRequest, Respond(Ok),
        Edit(Name, name), Edit(Password, password), Edit(Otp, otp),
        SubmitRegistration, Respond(Ok)];
    assert email != "";
    RegistrationPhase(Run(Initial, first), name, password, otp);
  }

  /** A rejected OTP request shows the server's own message, releases the form and stays in the first phase. */
  lemma ServerMessageShown(email: string, message: string)
    requires EmailShape(email) && message != ""
    ensures var s := Run(Initial, [Edit(Email, email), SubmitOtpRequest, Respond(Fail(Some(message)))]);
      s.error == message && s.successMessage == "" && !s.loading && !s.otpSent
  {
    var o := Fail(Some(message));
    var s0 := ChangeField(Initial, Email, email);
    var s1 := StartOtpRequest(s0).next;
    RunStep(s1, Respond(o), []);
    RunStep(s0, SubmitOtpRequest, [Respond(o)]);
    RunStep(Initial, Edit(Email, email), [SubmitOtpRequest, Respond(o)]);
  }
}
