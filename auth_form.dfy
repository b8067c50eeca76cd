/** The authentication form's local state and the handlers that change it:
    the state cells, the three input change handlers, the submit handler and
    the rule that enables the submit button. */
module Form {
  import opened Validators
  import opened Submission

  datatype Option<T> = None | Some(value: T)

  /** The form's state cells at one moment. */
  datatype FormState = FormState(
    username: string,
    password: string,
    mobileNumber: string,
    loading: bool,
    isValidEmail: bool,
    isValidMobile: bool,
    isValidParticipantCode: bool)

  /** The initial participant code: an absent or empty prop both give "". */
  function InitialUsername(participantCode: Option<string>): string {
    match participantCode
    case None => ""
    case Some(code) => code
  }

  /** The `disabled` attribute of the submit button: in credential mode it
      needs a participant code marked valid and a non-empty password, in OTP
      mode a mobile number marked valid. */
  function SubmitDisabled(isOTP: bool, isValidParticipantCode: bool, password: string,
                          isValidMobile: bool): bool
  {
    if !isOTP then !(isValidParticipantCode && password != "") else !isValidMobile
  }

  class AuthForm {
    /** The `isOTP` prop and whether an `otpSubmit` prop was supplied. */
    const mode: Mode
    /** The username the form was mounted with. */
    ghost const initialUsername: string

    var username: string
    var password: string
    var mobileNumber: string
    var loading: bool
    /** Declared by the form but never updated. */
    var isValidEmail: bool
    var isValidMobile: bool
    var isValidParticipantCode: bool

    /** Every observable effect so far, oldest first. */
    var trace: seq<Effect>

    /** Whether the participant-code or the mobile field has been edited. */
    ghost var codeEdited: bool
    ghost var mobileEdited: bool

    ghost function State(): FormState
      reads this
    {
      FormState(username, password, mobileNumber, loading, isValidEmail, isValidMobile,
                isValidParticipantCode)
    }

    /** Between events: nothing is loading; a validity flag that says
        "invalid" is always right; once its field is edited a flag is exactly
        the validator's verdict on the field; and before that the flag is
        still "valid" over the initial value. */
    ghost predicate Valid()
      reads this
    {
      !loading && isValidEmail &&
      (!isValidParticipantCode ==> !ValidateParticipantCode(username)) &&
      (codeEdited ==> isValidParticipantCode == ValidateParticipantCode(username)) &&
      (!codeEdited ==> isValidParticipantCode && username == initialUsername) &&
      (!isValidMobile ==> !ValidateMobile(mobileNumber)) &&
      (mobileEdited ==> isValidMobile == ValidateMobile(mobileNumber)) &&
      (!mobileEdited ==> mobileNumber == "")
    }

    /** Mounting the form: the username starts as the supplied participant
        code, every validity flag starts true and nothing is loading. */
    constructor (isOTP: bool, hasOtpSubmit: bool, participantCode: Option<string>)
      ensures Valid()
      ensures mode == Mode(isOTP, hasOtpSubmit)
      ensures State() == FormState(InitialUsername(participantCode), "", "", false, true, true, true)
      ensures initialUsername == InitialUsername(participantCode)
      ensures trace == [] && !codeEdited && !mobileEdited
    {
      mode := Mode(isOTP, hasOtpSubmit);
      initialUsername := InitialUsername(participantCode);
      username := InitialUsername(participantCode);
      password := "";
      mobileNumber := "";
      loading := false;
      isValidEmail := true;
      isValidMobile := true;
      isValidParticipantCode := true;
      trace := [];
      codeEdited := false;
      mobileEdited := false;
    }

    function Disabled(): bool
      reads this
    {
      SubmitDisabled(mode.isOTP, isValidParticipantCode, password, isValidMobile)
    }

    /** Editing the mobile number stores it and its validity, and nothing
        else. */
    method OnMobileNumberChange(value: string)
      requires Valid()
      modifies this
      ensures Valid() && mobileEdited && codeEdited == old(codeEdited)
      ensures State() == old(State()).(mobileNumber := value, isValidMobile := ValidateMobile(value))
      ensures trace == old(trace)
    {
      isValidMobile := ValidateMobile(value);
      mobileNumber := value;
      mobileEdited := true;
    }

    /** Editing the participant code stores it as the username with its
        validity, and nothing else. */
    method OnParticipantCodeChange(value: string)
      requires Valid()
      modifies this
      ensures Valid() && codeEdited && mobileEdited == old(mobileEdited)
      ensures State() == old(State()).(username := value, isValidParticipantCode := ValidateParticipantCode(value))
      ensures trace == old(trace)
    {
      username := value;
      isValidParticipantCode := ValidateParticipantCode(value);
      codeEdited := true;
    }

    /** Editing the password stores it, and nothing else. */
    method OnPasswordChange(value: string)
      requires Valid()
      modifies this
      ensures Valid() && codeEdited == old(codeEdited) && mobileEdited == old(mobileEdited)
      ensures State() == old(State()).(password := value)
      ensures trace == old(trace)
    {
      password := value;
    }

    /** Submitting the form with the field values it holds; `outcome` is how
        the handler that gets called settles. The trace grows by the
        submission's effects; the only field that can change is the mobile
        validity flag, which an invalid number in the OTP branch clears. */
    method HandleSubmit(outcome: Outcome)
      requires Valid()
      modifies this
      ensures Valid() && codeEdited == old(codeEdited) && mobileEdited == old(mobileEdited)
      ensures trace == old(trace) + SubmitEffects(mode, old(username), old(password), old(mobileNumber), outcome)
      ensures State() == old(State()).(isValidMobile :=
                old(isValidMobile) && !(TakesOtpBranch(mode) && !ValidateMobile(old(mobileNumber))))
      ensures !loading
    {
      ghost var before := trace;
      loading := true;
      trace := trace + [Loading(true)];
      if mode.isOTP && mode.hasOtpSubmit {
        if ValidateMobile(mobileNumber) {
          trace := trace + [CallOtp(mobileNumber)];
          if outcome == Reject {
            trace := trace + [ToastError(CheckInputMessage)];
          }
        } else {
          trace := trace + [ToastError(InvalidMobileMessage)];
          isValidMobile := false;
        }
      } else {
        trace := trace + [CallSubmit(username, password)];
        match outcome
        case Resolve =>
          trace := trace + [ToastSuccess(SuccessMessage)];
          trace := trace + [Navigate(HomeRoute)];
        case Reject =>
          trace := trace + [ToastError(CheckInputMessage)];
      }
      loading := false;
      trace := trace + [Loading(false)];
      assert trace == before + SubmitEffects(mode, username, password, mobileNumber, outcome);
    }
  }

  /** In credential mode the button is enabled exactly when the password is
      non-empty and the participant code is valid or still the untouched
      value the form was mounted with (which is never validated). */
  lemma CredentialEnabled(f: AuthForm)
    requires f.Valid() && !f.mode.isOTP
    ensures !f.Disabled() <==> f.password != "" && (ValidateParticipantCode(f.username) || !f.codeEdited)
    ensures !f.codeEdited ==> f.username == f.initialUsername
  {
  }

  /** Once the participant code has been edited, the credential-mode button
      is enabled exactly when the code is valid and the password non-empty. */
  lemma CredentialEnabledAfterEdit(f: AuthForm)
    requires f.Valid() && !f.mode.isOTP && f.codeEdited
    ensures !f.Disabled() <==> ValidateParticipantCode(f.username) && f.password != ""
  {
  }

  /** In OTP mode the button is enabled exactly when the mobile flag is set;
      once the field has been edited, exactly when the number is valid. So an
      enabled button over an invalid number means the untouched empty field. */
  lemma OtpEnabled(f: AuthForm)
    requires f.Valid() && f.mode.isOTP
    ensures !f.Disabled() <==> f.isValidMobile
    ensures f.mobileEdited ==> (!f.Disabled() <==> ValidateMobile(f.mobileNumber))
    ensures !f.Disabled() && !ValidateMobile(f.mobileNumber) ==> !f.mobileEdited && f.mobileNumber == ""
  {
  }

  /** A freshly mounted credential form without a participant code enables
      its button as soon as a password is typed, although the empty username
      fails the participant-code pattern. */
  method PristineEmptyCodeEnabled() returns (enabled: bool, username: string)
    ensures enabled && username == "" && !ValidateParticipantCode(username)
  {
    var form := new AuthForm(false, false, None);
    form.OnPasswordChange("secret");
    enabled := !form.Disabled();
    username := form.username;
  }

  /** A freshly mounted OTP form enables its button over the untouched empty
      number; submitting it raises the invalid-number toast, calls no
      handler and leaves the button disabled. */
  method PristineOtpSubmission() returns (enabledBefore: bool, effects: seq<Effect>, disabledAfter: bool)
    ensures enabledBefore && disabledAfter
    ensures effects == [Loading(true), ToastError(InvalidMobileMessage), Loading(false)]
  {
    var form := new AuthForm(true, true, None);
    enabledBefore := !form.Disabled();
    form.HandleSubmit(Resolve);
    effects := form.trace;
    disabledAfter := form.Disabled();
  }
}
