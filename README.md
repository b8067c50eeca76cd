# AuthForm: client-side login logic

A Dafny model of the logic inside the `AuthForm` login component of the HCX
provider app's shared component library. The form logs a participant in with
a participant code and a password ("credential mode"). With the `isOTP` prop
set, it takes a mobile number for an OTP login instead. The model covers:

- **Validators** (`validators.dfy`, module `Validators`). The three regular
  expressions the form tests input against are written as character-level
  predicates: e-mail, ten-digit mobile number, and participant code
  (`hosp_demoop_` + eight digits + `@swasth-hcx-dev`). Each is proved equal
  to an independent description of the same language.
  - `ValidateMobile` checks length and characters. `MatchDigits` reads
    `\d{10}` one digit at a time, as a matcher consumes it. A lemma proves
    the two accept the same strings.
  - `ValidateEmail` reads the pattern literally: some `@` and some `.` split
    the string into the three parts the pattern describes. `ScanEmail` is a
    deterministic reading of the same pattern that splits at the first `@`
    and the last `.`. A lemma proves the two accept the same strings.
  - `ValidateParticipantCode` checks positions. A lemma proves it equal to
    "prefix + some eight-digit string + suffix".
- **Submission** (`submission.dfy`, module `Submission`). What one call of
  the submit handler does, as an ordered trace of effects:
  - `Loading(on)`: the loading indicator switches on or off;
  - `CallOtp(m)` or `CallSubmit(u, p)`: the injected handler is called;
  - `ToastError(msg)` or `ToastSuccess(msg)`: a notification is raised;
  - `Navigate(route)`: the page redirects.

  The awaited handler is abstracted to its outcome (`Resolve` or `Reject`).
  `SubmitEffects` is the branch table. The lemmas count effects of each kind
  and fix their order for every branch.
- **Form state** (`auth_form.dfy`, module `Form`). A class `AuthForm` holds
  the form's state cells and an append-only effect trace. It has the three
  change handlers, `HandleSubmit` and the button's `Disabled` rule.
  `Valid()` is the invariant the handlers keep. It relates each validity
  flag to its field. A flag that says "invalid" is always right. After its
  field is edited, a flag equals the validator's verdict. Before the
  participant code is first edited, its flag is "valid" over the initial
  username. Before the mobile field is first edited, the number is empty
  and its flag may be either value: it starts "valid" and a submission of
  the empty number clears it. Each handler's postcondition
  gives the whole new state as the old state with only its own fields
  replaced.

Credential mode does not give exactly "enabled iff the code is valid and the
password is non-empty". The participant-code flag starts out true and is only
recomputed when the field is edited. So a form mounted without a code (or
with a malformed pre-filled code) enables its button once a password is
typed. `Form.PristineEmptyCodeEnabled` shows this with the empty username.
`Form.CredentialEnabledAfterEdit` proves the "iff" holds once the code has
been edited. The model follows the code here.

OTP mode has the same behaviour. The mobile flag also starts out true, so a
freshly mounted OTP form enables its button over the empty number.
Submitting it is the only way the form reaches its "Invalid mobile number
format!" branch: any edit to an invalid number disables the button first.
`Form.PristineOtpSubmission` shows this: the button is enabled, one toast
is raised, no handler is called, and the button ends disabled.

## Model

| member | source | states |
|---|---|---|
| `Validators.MatchDigitsIff` | src/components/Auth/AuthForm.tsx:52 | reading `\d{n}` one digit at a time accepts exactly the strings of length n made only of ASCII digits |
| `Validators.MobileMatchesPattern` | src/components/Auth/AuthForm.tsx:52 | the mobile validator accepts exactly what `^\d{10}$` matches, read character by character |
| `Validators.MobileExamples` | src/components/Auth/AuthForm.tsx:52 | "9876543210" is accepted; an eight-digit number and a number with a letter are rejected |
| `Validators.ParticipantCodeIff` | src/components/Auth/AuthForm.tsx:55-56 | a code is accepted iff it is `hosp_demoop_`, then some eight-digit string, then `@swasth-hcx-dev` |
| `Validators.CodeWithAccepted` | src/components/Auth/AuthForm.tsx:55-56 | between the fixed prefix and suffix exactly eight digits are accepted: a 7- or 9-digit or non-digit middle is rejected |
| `Validators.AcceptedCodeLength` | src/components/Auth/AuthForm.tsx:55-56 | every accepted participant code is 35 characters long |
| `Validators.ParticipantCodeExamples` | src/components/Auth/AuthForm.tsx:55-56 | `hosp_demoop_12345678@swasth-hcx-dev` is accepted; the seven-digit variant and the empty string are rejected |
| `Validators.EmailScanIff` | src/components/Auth/AuthForm.tsx:48-49 | the e-mail pattern matches iff splitting at the first `@` and the last `.` gives a non-empty local part, a non-empty domain and a top-level domain of at least two letters, each from its character class |
| `Validators.SplitIsFirstAndLast` | src/components/Auth/AuthForm.tsx:48-49 | in any match of the e-mail pattern the `@` is the first one in the string and the `.` before the top-level domain is the last one |
| `Validators.AcceptedEmailShape` | src/components/Auth/AuthForm.tsx:48-49 | an accepted address has the shape `EmailShape` states: exactly one `@`, a non-empty part before it, and at least two letters and nothing else after its last `.` |
| `Validators.EmailAcceptedExample` | src/components/Auth/AuthForm.tsx:48-49 | `jo.doe@mail.example.org` is accepted |
| `Validators.EmailShortTldExample` | src/components/Auth/AuthForm.tsx:48-49 | a one-letter top-level domain is rejected |
| `Validators.EmailTwoAtExample` | src/components/Auth/AuthForm.tsx:48-49 | an address with two `@` is rejected |
| `Validators.EmailEmptyLocalExample` | src/components/Auth/AuthForm.tsx:48-49 | an address with an empty local part is rejected |
| `Submission.OtpValidNumber` | src/components/Auth/AuthForm.tsx:66-69 | OTP branch, valid number: exactly one handler call, `otpSubmit` with the number; no success toast and no redirect; one generic error toast iff the handler rejects |
| `Submission.OtpInvalidNumber` | src/components/Auth/AuthForm.tsx:66-73 | OTP branch, invalid number: no handler call, exactly one error toast ("Invalid mobile number format!"), no success toast, no redirect |
| `Submission.CredentialResolved` | src/components/Auth/AuthForm.tsx:75-79 | credential branch, handler resolves: one call of `onSubmit` with the username and password, immediately followed by exactly one success toast and then exactly one redirect to `/home`; no error toast |
| `Submission.CredentialRejected` | src/components/Auth/AuthForm.tsx:75-83 | credential branch, handler rejects: one `onSubmit` call, exactly one "Please check the input details!" toast, no success toast, no redirect |
| `Submission.LoadingBracketsHandler` | src/components/Auth/AuthForm.tsx:59-84 | loading goes on first and off last, once each, and every handler call lies strictly between, so loading is on while a handler runs and off when submission returns |
| `Submission.NavigatesIff` | src/components/Auth/AuthForm.tsx:59-84 | a submission redirects to `/home` iff it takes the credential branch and the handler resolves, and never more than once |
| `Submission.OtpHandlerGetsValidNumber` | src/components/Auth/AuthForm.tsx:66-69 | the OTP handler is only called in the OTP branch, with the form's mobile number, and only when that number is valid |
| `Submission.OtpWithoutHandlerFallsThrough` | src/components/Auth/AuthForm.tsx:66-76 | with `isOTP` set but no `otpSubmit`, submission behaves exactly as in credential mode and calls `onSubmit` |
| `Form.AuthForm.constructor` | src/components/Auth/AuthForm.tsx:37-44 | on mount the username is the supplied participant code or "", password and mobile number are empty, every validity flag is true and nothing is loading |
| `Form.AuthForm.OnMobileNumberChange` | src/components/Auth/AuthForm.tsx:87-93 | editing the mobile field sets the number and its validity to the validator's verdict; every other field and the trace are unchanged; the invariant is kept |
| `Form.AuthForm.OnParticipantCodeChange` | src/components/Auth/AuthForm.tsx:125-129 | editing the participant code sets the username and its validity to the validator's verdict; every other field and the trace are unchanged; the invariant is kept |
| `Form.AuthForm.OnPasswordChange` | src/components/Auth/AuthForm.tsx:137 | editing the password sets only the password |
| `Form.AuthForm.HandleSubmit` | src/components/Auth/AuthForm.tsx:59-84 | the trace grows by exactly the submission's effects for the field values at submit time; the mobile flag is cleared iff the OTP branch met an invalid number; no other field changes; loading is off on return |
| `Form.CredentialEnabled` | src/components/Auth/AuthForm.tsx:172-176 | in credential mode the button is enabled iff the password is non-empty and the participant code is valid or still the untouched initial value |
| `Form.CredentialEnabledAfterEdit` | src/components/Auth/AuthForm.tsx:172-176 | once the code has been edited, the credential-mode button is enabled iff the code is valid and the password non-empty |
| `Form.OtpEnabled` | src/components/Auth/AuthForm.tsx:172-176 | in OTP mode the button is enabled iff the mobile flag is set, and, once the field has been edited, iff the number is valid; an enabled button over an invalid number means the field is untouched and empty |
| `Form.PristineEmptyCodeEnabled` | src/components/Auth/AuthForm.tsx:43-44 | a credential form mounted without a code enables its button once a password is typed, although the empty username fails the pattern |
| `Form.PristineOtpSubmission` | src/components/Auth/AuthForm.tsx:70-73 | a freshly mounted OTP form's button is enabled over the empty number; submitting produces exactly loading on, the invalid-number toast and loading off, and leaves the button disabled |

## Left out

- The rendered markup: the branding pane, styling classes, title, button label, logo, banner and alt text (src/components/Auth/AuthForm.tsx:95-205). They are presentation only.
- The links to `/reset-password` and `/signup`. They are static navigation markup.
- `toast`, `useNavigate`, `LoadingButton`, `AuthInput` and `PasswordInput` are not part of this model. Toasts and redirects appear only as entries of the effect trace. The model assumes that raising a toast or redirecting never throws. A throw there would also land in the form's `catch`.
- The injected `onSubmit` and `otpSubmit` handlers are reduced to how they settle (`Outcome`). What they do inside is not modelled, and neither is the rejection reason, which the form discards anyway.
- Asynchrony. `HandleSubmit` runs to completion in one step. React's batched state updates, re-rendering and the `await` suspension are not modelled. So the model cannot show edits made while a handler is pending. The real closure would submit the values it captured anyway.
- A handler that never settles, which would leave the form loading for good. It is a liveness property of the event loop and has no sequential counterpart.
- Whether the browser lets a disabled button submit the form. `HandleSubmit` has no precondition on `Disabled`, because the handler itself does not check it.
- `isValidEmail` is declared by the form but never updated. The model keeps it as a field that stays true. `validateEmail` is not used by either flow; it is modelled and proved all the same.
- Props are taken as fixed at mount. `mode` (the `isOTP` prop and whether `otpSubmit` was supplied) is a constant of the form. The component reads these props again on every render, so a parent that changes them would switch the rendered fields and the submit branch. The model does not capture that.
- `e.preventDefault()` has no counterpart. There is no page to reload.
- src/components/ReferenceDropdown/ReferenceDropdown.tsx is not part of this model. Its only logic forwards a non-empty selection to a callback.
