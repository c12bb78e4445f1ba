/**
 * The RegisterUser component: its state variables become fields, each state
 * setter a field assignment, and each async handler two methods, one that
 * runs up to the `await` and one that runs when the POST settles. Each method
 * leaves the state the matching Workflow function describes, so what is
 * proved there holds of the component.
 */
module RegisterPage {
  import opened Validation
  import opened Workflow

  class RegisterUser {
    var form: Form
    var otpSent: bool
    var loading: bool
    var error: string
    var successMessage: string
    /** Set when the delayed navigation to the login page is scheduled. */
    var navigationPending: bool
    /** The request whose handler is suspended at its `await`. */
    ghost var awaiting: Option<Request>

    ghost function Snapshot(): State
      reads this
    {
      State(form, otpSent, loading, error, successMessage, navigationPending, awaiting)
    }

    ghost predicate Valid()
      reads this
    {
      Inv(Snapshot())
    }

    /** The state the page starts with (lines 8-18). */
    constructor ()
      ensures Snapshot() == Initial
      ensures Valid()
    {
      form := EmptyForm;
      otpSent := false;
      loading := false;
      error := "";
      successMessage := "";
      navigationPending := false;
      awaiting := None;
    }

    /** handleChange, for an input the page currently lets the user type into. */
    method HandleChange(field: Field, value: string)
      requires Valid() && Editable(Snapshot(), field)
      modifies this
      ensures Snapshot() == ChangeField(old(Snapshot()), field, value)
      ensures form.Get(field) == value
      ensures forall g :: g != field ==> form.Get(g) == old(form.Get(g))
      ensures Valid()
    {
      form := form.With(field, value);
    }

    /** requestOTP up to its `await`: returns the request it sends, if any. */
    method RequestOtp() returns (sent: Option<Request>)
      requires Valid() && !loading
      modifies this
      ensures Step(Snapshot(), sent) == StartOtpRequest(old(Snapshot()))
      ensures sent.Some? <==> EmailShape(old(form.email))
      ensures sent.None? ==> form == old(form) && otpSent == old(otpSent) && !loading
      ensures Valid()
    {
      error := "";
      successMessage := "";
      if form.email == "" {
        error := EmailRequired;
        return None;
      }
      if !ValidateEmail(form.email) {
        error := InvalidEmail;
        return None;
      }
      loading := true;
      sent := Some(OtpRequest(form.email, Purpose));
      awaiting := sent;
    }

    /** requestOTP once its POST settles. */
    method RequestOtpSettled(outcome: Outcome)
      requires Valid() && awaiting.Some? && awaiting.value.OtpRequest?
      modifies this
      ensures Snapshot() == SettleOtpRequest(old(Snapshot()), outcome)
      ensures !loading && otpSent == (old(otpSent) || outcome.Ok?)
      ensures Valid() && OneMessage(Snapshot())
    {
      match outcome {
        case Ok =>
          otpSent := true;
          successMessage := OtpSentMessage;
        case Fail(message) =>
          error := FailureText(message, OtpFallback);
      }
      loading := false;
      awaiting := None;
    }

    /** registerUser up to its `await`: returns the request it sends, if any. */
    method Register() returns (sent: Option<Request>)
      requires Valid() && !loading && otpSent
      modifies this
      ensures Step(Snapshot(), sent) == StartRegistration(old(Snapshot()))
      ensures sent.Some? <==> RegistrationProblem(old(form)).None?
      ensures sent.None? ==> form == old(form) && otpSent == old(otpSent) && !loading
      ensures Valid()
    {
      error := "";
      successMessage := "";
      if form.name == "" || form.email == "" || form.password == "" || form.otp == "" {
        error := AllFieldsRequired;
        return None;
      }
      if !ValidatePassword(form.password) {
        error := WeakPassword;
        return None;
      }
      if !ValidateOtp(form.otp) {
        error := BadOtp;
        return None;
      }
      loading := true;
      sent := Some(RegistrationRequest(form.email, form.name, form.password, form.otp, Purpose));
      awaiting := sent;
    }

    /** registerUser once its POST settles. */
    method RegisterSettled(outcome: Outcome)
      requires Valid() && awaiting.Some? && awaiting.value.RegistrationRequest?
      modifies this
      ensures Snapshot() == SettleRegistration(old(Snapshot()), outcome)
      ensures !loading
      ensures outcome.Ok? ==> form == EmptyForm && navigationPending
      ensures outcome.Fail? ==> form == old(form)
      ensures Valid() && OneMessage(Snapshot())
    {
      match outcome {
        case Ok =>
          successMessage := RegisteredMessage;
          form := EmptyForm;
          navigationPending := true;
        case Fail(message) =>
          error := FailureText(message, RegisterFallback);
      }
      loading := false;
      awaiting := None;
    }
  }
}
