# Registration page of Market Mate, modelled in Dafny

The page lets a visitor register in two phases. First they type an email and
request a one-time passcode (OTP). The page then shows name, password and OTP
inputs, with the email read-only, and submits the registration. Both phases
POST to an external service and show either an error or a success message.

The model has three modules:

- `Validation` (`validation.dfy`): the three input checks, each written the
  way its regular expression reads and proved equal to a plain description:
  - `validateEmail` is `^[^\s@]+@[^\s@]+\.[^\s@]+$`.
  - `validatePassword` is `^(?=.*[A-Za-z])(?=.*\d)[A-Za-z\d]{8,}$`.
  - the inline OTP check is `^\d{6}$`.
- `Workflow` (`workflow.dfy`): the page's state as a value and the handlers as
  functions on it. Each async handler (`requestOTP`, `registerUser`) is split at
  its `await`. The start step clears both messages, validates, and then either
  sets an error or sets `loading` and emits the request body. The settle step
  takes an abstract `Outcome` (`Ok`, or `Fail` with the server's optional
  message) and runs the `try` tail, the `catch` and the `finally`. `Apply` and
  `Run` play user events against the page. A control that is hidden or
  disabled does nothing. The invariant lemmas (`RunKeepsInv`, `ReachableInv`,
  `OtpSentNeverReverts`, `EmailFrozenAfterOtp`, `NavigationStaysPending`,
  `EmptyEmailStaysEmpty`) hold over every sequence of events; `OtpPhase`,
  `RegistrationPhase`, `HappyPath` and `ServerMessageShown` follow one fixed
  sequence for any acceptable inputs; the other `Workflow` lemmas are about a
  single step or about joining runs.
- `RegisterPage` (`register_user.dfy`): the component as a class. Its state
  variables are fields and each setter is an assignment. Each method leaves
  exactly the state the matching `Workflow` function gives. Which inputs and
  buttons are enabled becomes the methods' preconditions.

The comment at src/pages/RegisterUser.jsx:30 names only the length and the
letter-and-digit requirement. The pattern at line 31 also refuses every
character other than an ASCII letter or digit, and the model follows the
pattern: `"abc12345!"` is refused (`Validation.PasswordExamples`).

The page tracks its phase with the boolean `otpSent`, and so does the model.

## Model

| member | source | states |
|---|---|---|
| `Validation.ValidateEmail` | src/pages/RegisterUser.jsx:24-27 | validateEmail: the pattern `^[^\s@]+@[^\s@]+\.[^\s@]+$` matches when some placement of the `@` and the literal `.` leaves three non-empty runs of characters that are neither white space nor `@` |
| `Validation.ValidateEmailIffShape` | src/pages/RegisterUser.jsx:24-27 | the email pattern matches exactly when the string has no white space, exactly one `@`, a non-empty part before it, and a domain after it with a `.` that is neither its first nor its last character |
| `Validation.EmailExamples` | src/pages/RegisterUser.jsx:24-27 | `user@example.com` is accepted; `not-an-email` and the empty string are refused |
| `Validation.NoAtRefused` | src/pages/RegisterUser.jsx:24-27 | the email pattern refuses every string that contains no `@` |
| `Validation.LookaheadMeaning` | src/pages/RegisterUser.jsx:31 | a lookahead `(?=.*X)` succeeds exactly when some character of class X has no line terminator before it |
| `Validation.ValidatePassword` | src/pages/RegisterUser.jsx:29-33 | validatePassword: both lookaheads `(?=.*[A-Za-z])` and `(?=.*\d)` succeed at the start and the whole string is `[A-Za-z\d]{8,}` |
| `Validation.ValidatePasswordIffRule` | src/pages/RegisterUser.jsx:29-33 | the password pattern matches exactly when the password has at least 8 characters, all ASCII letters or digits, with at least one letter and at least one digit |
| `Validation.PasswordExamples` | src/pages/RegisterUser.jsx:29-33 | `abc12345` is accepted; `abc12345!` (a symbol) and `short1` (too short) are refused |
| `Validation.DigitsExactlyMeaning` | src/pages/RegisterUser.jsx:84 | `\d{n}` anchored at both ends matches exactly the strings of length n made only of ASCII digits |
| `Validation.ValidateOtp` | src/pages/RegisterUser.jsx:84 | the inline check `^\d{6}$`: six ASCII digits matched one by one, with nothing after them |
| `Validation.ValidateOtpIffSixDigits` | src/pages/RegisterUser.jsx:84 | the OTP check accepts exactly six ASCII digits |
| `Validation.OtpExamples` | src/pages/RegisterUser.jsx:84 | `123456` is accepted; `12a456` and `12345` are refused |
| `Workflow.Form.With` | src/pages/RegisterUser.jsx:21 | the spread update sets the named field to the value and leaves the other three fields equal |
| `Workflow.ChangeField` | src/pages/RegisterUser.jsx:20-22 | handleChange sets only the named field; every other field and the rest of the state stay as they were |
| `Workflow.FailureText` | src/pages/RegisterUser.jsx:60-61 | the error shown on a failed request is never empty: it is the server's message when present and non-empty, otherwise the fallback |
| `Workflow.OtpRequestProblem` | src/pages/RegisterUser.jsx:40-48 | an empty email gives "Email is required"; a non-empty email not of the accepted shape gives "Enter a valid email address"; no error exactly when the email has the accepted shape |
| `Workflow.StartOtpRequest` | src/pages/RegisterUser.jsx:35-56 | a request is sent exactly when the email has the accepted shape; on a validation failure only the messages change (the error is the first failing check's message, the success message is cleared); otherwise both messages are cleared, `loading` is set and the body `{email, purpose: "register"}` carries the form's email and is posted to `/market-mate/user/otp/request` |
| `Workflow.SettleOtpRequest` | src/pages/RegisterUser.jsx:57-64 | whatever the outcome, `loading` ends false and nothing is awaited; `otpSent` becomes true on success and never becomes false; on failure the error is the server's message when present and non-empty, otherwise "Failed to send OTP. Try again."; the form is untouched |
| `Workflow.RegistrationProblem` | src/pages/RegisterUser.jsx:72-87 | the first failure wins: any empty field gives "All fields are required"; otherwise a password breaking the rule gives the password message; otherwise an OTP that is not six digits gives "OTP must be exactly 6 digits"; no error exactly when name and email are filled, the password obeys the rule and the OTP is six digits |
| `Workflow.StartRegistration` | src/pages/RegisterUser.jsx:67-98 | a request is sent exactly when no check fails; on a failure only the messages change; otherwise `loading` is set and the body `{email, name, password, otp, purpose: "register"}` carries the form's current values and is posted to `/market-mate/user/register` |
| `Workflow.SettleRegistration` | src/pages/RegisterUser.jsx:99-119 | whatever the outcome, `loading` ends false and `otpSent` is unchanged; on success all four fields are wiped, navigation is scheduled and the success message is set; on failure the form is unchanged and the error is the server's message when present and non-empty, otherwise "Registration failed. Try again." |
| `Workflow.Editable` | src/pages/RegisterUser.jsx:158-222 | an input accepts typing only while not `loading`: the email input only before the OTP is sent (afterwards it is read-only), the name, password and OTP inputs only after |
| `Workflow.Enabled` | src/pages/RegisterUser.jsx:158-245 | which control an event needs: typing needs an editable input; "Request OTP" and "Resend OTP" need not `loading`; "Register" needs the second phase and not `loading`; a server answer needs an awaited request |
| `Workflow.Apply` | src/pages/RegisterUser.jsx:158-245 | the onChange, onSubmit and onClick wiring: an enabled event runs handleChange, the start of requestOTP or registerUser, or the settle step of the awaited handler; a disabled control does nothing and sends nothing |
| `Workflow.AnswerSettlesByPath` | src/pages/RegisterUser.jsx:53-64 | the server's answer runs the rest of the handler that posted to the awaited request's endpoint: an answer from `/market-mate/user/otp/request` settles requestOTP, one from `/market-mate/user/register` (line 92) settles registerUser |
| `Workflow.InitialInv` | src/pages/RegisterUser.jsx:8-18 | the initial state satisfies the page invariant |
| `Workflow.ApplyKeepsInv` | src/pages/RegisterUser.jsx:35-119 | every user event or server answer keeps the invariant: `loading` exactly while a request is awaited, never both messages at once, both messages clear while awaiting, the awaited request still carries the form's values, registration and navigation only after the OTP was sent; no request is sent while another is in flight |
| `Workflow.RunKeepsInv` | src/pages/RegisterUser.jsx:35-119 | the invariant holds after any sequence of events |
| `Workflow.ReachableInv` | src/pages/RegisterUser.jsx:8-119 | every state reachable from the freshly rendered page satisfies the invariant |
| `Workflow.OtpSentNeverReverts` | src/pages/RegisterUser.jsx:50-64 | once `otpSent` is true it stays true after any sequence of events, including failed resends |
| `Workflow.OtpSentOnlyOnOtpSuccess` | src/pages/RegisterUser.jsx:53-58 | `otpSent` turns true only when an awaited OTP request settles successfully |
| `Workflow.EmailFrozenAfterOtp` | src/pages/RegisterUser.jsx:197-202 | once the OTP was sent, the email keeps its value after any sequence of events, or it is empty and navigation is scheduled, which happens only on a successful registration |
| `Workflow.NavigationStaysPending` | src/pages/RegisterUser.jsx:110-112 | once navigation to the login page is scheduled, it stays scheduled after any sequence of events |
| `Workflow.NavigationOnlyOnRegistrationSuccess` | src/pages/RegisterUser.jsx:100-112 | navigation is scheduled only when an awaited registration settles successfully |
| `Workflow.EmptyEmailStaysEmpty` | src/pages/RegisterUser.jsx:103-108 | once the OTP was sent and the email was wiped, it stays empty |
| `Workflow.AttemptShowsOneMessage` | src/pages/RegisterUser.jsx:37-61 | an attempt that ends without a request in flight (a validation failure or a settled request) shows exactly one message; one that sends a request shows none until it settles |
| `Workflow.SettleClearsLoading` | src/pages/RegisterUser.jsx:62-64 | when the awaited request settles, whether Ok or Fail, `loading` is false and nothing is awaited |
| `Workflow.LoadingOnlyWhenSending` | src/pages/RegisterUser.jsx:40-51 | `loading` turns true only in the step that sends a request, and only after that handler's validation passed |
| `Workflow.OtpPhase` | src/pages/RegisterUser.jsx:35-64 | for any acceptable email, typing it, requesting the OTP and a successful answer leave the page in the second phase with the email kept, the success message "OTP sent successfully to your email" shown and nothing else changed |
| `Workflow.RegistrationPhase` | src/pages/RegisterUser.jsx:67-119 | from any idle second-phase state with an email, filling in an acceptable name, password and OTP and registering successfully wipes the form, schedules navigation and shows only the success message |
| `Workflow.HappyPath` | src/pages/RegisterUser.jsx:35-119 | for any acceptable email, name, password and OTP, the flow type-email, request, settle, fill in, register, settle ends with the form wiped, the success message shown, no error, `loading` false and navigation scheduled |
| `Workflow.ServerMessageShown` | src/pages/RegisterUser.jsx:60-63 | an OTP request refused with a server message shows that message, clears `loading` and stays in the first phase |
| `RegisterPage.RegisterUser.constructor` | src/pages/RegisterUser.jsx:8-18 | the page starts with an empty form, no OTP sent, not loading, no messages |
| `RegisterPage.RegisterUser.HandleChange` | src/pages/RegisterUser.jsx:20-22 | for an input that is shown and enabled, sets only the named field and keeps the invariant |
| `RegisterPage.RegisterUser.RequestOtp` | src/pages/RegisterUser.jsx:35-56 | leaves the state and returns the request `StartOtpRequest` gives; sends exactly when the email has the accepted shape; on failure the form, `otpSent` and `loading` are unchanged |
| `RegisterPage.RegisterUser.RequestOtpSettled` | src/pages/RegisterUser.jsx:57-64 | leaves the state `SettleOtpRequest` gives: `loading` false, `otpSent` set only on success, exactly one message shown |
| `RegisterPage.RegisterUser.Register` | src/pages/RegisterUser.jsx:67-98 | leaves the state and returns the request `StartRegistration` gives; sends exactly when no check fails; on failure the form, `otpSent` and `loading` are unchanged |
| `RegisterPage.RegisterUser.RegisterSettled` | src/pages/RegisterUser.jsx:99-119 | leaves the state `SettleRegistration` gives: `loading` false, the form wiped and navigation scheduled on success, the form unchanged on failure, exactly one message shown |

Which controls are shown and enabled (`Workflow.Editable`, `Workflow.Enabled`)
follows src/pages/RegisterUser.jsx:158-245. Before the OTP is sent only the
email input and "Request OTP" are shown. Afterwards the email input is
read-only, and name, password, OTP, "Register" and "Resend OTP" are shown.
Every button, and every input except the read-only email input, is disabled
while `loading`.

## Left out

- src/utils/AxiosInstance.jsx is not part of this model: it only configures the HTTP library (base URL, JSON header, cookies). A request is modelled as the body the page sends (`Workflow.Request`, whose `Path` gives the endpoint) plus an abstract `Outcome`.
- Network transport and the server's own OTP generation and checking. An error response is reduced to `response.data.message` as an optional string; a non-string message is not modelled.
- React semantics: batched `useState` updates, stale closures in `setForm({ ...form, ... })`, re-rendering and `e.preventDefault()`. Each setter is a direct assignment.
- The 2000 ms `setTimeout` and the call `navigate("/market-mate/login")`: a successful registration sets `navigationPending` instead.
- Markup, styling and images. Only the `disabled` and `readOnly` rules are kept, as preconditions and as `Workflow.Enabled`.
- The browser's own `type="email"` check on the first-phase input, which may block a submit before `requestOTP` runs.
- `Validation.IsWhitespace` lists the ECMAScript white-space and line-terminator code points, with the space separators of current Unicode; it does not track other Unicode versions.
- The patterns run on UTF-16 code units and the model runs on Unicode scalar values. The two agree for these three patterns, because every character the patterns single out is one code unit.
