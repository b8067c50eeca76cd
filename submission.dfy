/** What one submission of the authentication form does, as the ordered
    trace of its observable effects: the loading indicator going on and
    off, the call into the injected OTP or credential handler, the toast
    notifications and the redirect. The injected handler is abstracted to
    its outcome: it resolves or it rejects. */
module Submission {
  import opened Validators

  /** How the awaited handler settles. */
  datatype Outcome = Resolve | Reject

  /** The configuration that picks the branch: the `isOTP` flag and whether
      an `otpSubmit` handler was supplied. */
  datatype Mode = Mode(isOTP: bool, hasOtpSubmit: bool)

  datatype Effect =
    | Loading(on: bool)
    | CallOtp(mobileNumber: string)
    | CallSubmit(username: string, password: string)
    | ToastError(message: string)
    | ToastSuccess(message: string)
    | Navigate(route: string)

  const InvalidMobileMessage: string := "Invalid mobile number format!"
  const CheckInputMessage: string := "Please check the input details!"
  const SuccessMessage: string := "Operation successful!"
  const HomeRoute: string := "/home"

  /** The OTP branch is taken only when both the flag and the handler are
      there; otherwise submission goes to the credential handler. */
  predicate TakesOtpBranch(mode: Mode) {
    mode.isOTP && mode.hasOtpSubmit
  }

  /** The effects of one submission, given the field values at submit time
      and how the called handler settles. A rejection of either handler is
      caught and reported with the same generic message. */
  function SubmitEffects(mode: Mode, username: string, password: string, mobileNumber: string,
                         outcome: Outcome): seq<Effect>
  {
    var body :=
      if TakesOtpBranch(mode) then
        if ValidateMobile(mobileNumber) then
          [CallOtp(mobileNumber)] + (if outcome == Reject then [ToastError(CheckInputMessage)] else [])
        else
          [ToastError(InvalidMobileMessage)]
      else
        [CallSubmit(username, password)] +
        (if outcome == Resolve then [ToastSuccess(SuccessMessage), Navigate(HomeRoute)]
         else [ToastError(CheckInputMessage)]);
    [Loading(true)] + body + [Loading(false)]
  }

  // ---------------------------------------------------------------------
  // Counting effects of one kind in a trace
  // ---------------------------------------------------------------------

  datatype Kind = HandlerCall | ErrorToast | SuccessToast | Navigation | LoadingChange

  predicate IsKind(e: Effect, k: Kind) {
    match k
    case HandlerCall => e.CallOtp? || e.CallSubmit?
    case ErrorToast => e.ToastError?
    case SuccessToast => e.ToastSuccess?
    case Navigation => e.Navigate?
    case LoadingChange => e.Loading?
  }

  /** The number of effects of kind `k` in `trace`. */
  function Count(trace: seq<Effect>, k: Kind): (n: nat)
    ensures n <= |trace|
    ensures n == 0 <==> forall i :: 0 <= i < |trace| ==> !IsKind(trace[i], k)
  {
    if trace == [] then 0
    else (if IsKind(trace[0], k) then 1 else 0) + Count(trace[1..], k)
  }

  lemma {:induction false} CountAppend(a: seq<Effect>, b: seq<Effect>, k: Kind)
    ensures Count(a + b, k) == Count(a, k) + Count(b, k)
  {
    if a == [] {
      assert a + b == b;
    } else {
      assert (a + b)[1..] == a[1..] + b;
      CountAppend(a[1..], b, k);
    }
  }

  lemma CountOne(e: Effect, k: Kind)
    ensures Count([e], k) == if IsKind(e, k) then 1 else 0
  {
    assert [e][1..] == [];
  }

  /** The counts of a submission trace split into the loading markers and
      the body between them. */
  lemma CountSubmit(body: seq<Effect>, k: Kind)
    ensures Count([Loading(true)] + body + [Loading(false)], k) ==
            Count(body, k) + (if k == LoadingChange then 2 else 0)
  {
    CountAppend([Loading(true)] + body, [Loading(false)], k);
    CountAppend([Loading(true)], body, k);
  }

  // ---------------------------------------------------------------------
  // Properties of a submission
  // ---------------------------------------------------------------------

  /** OTP branch with a valid number: the OTP handler is called once with
      that number, and there is neither a success toast nor a redirect;
      only a rejection raises the generic error toast. */
  lemma OtpValidNumber(mode: Mode, username: string, password: string, mobileNumber: string,
                       outcome: Outcome)
    requires TakesOtpBranch(mode) && ValidateMobile(mobileNumber)
    ensures var t := SubmitEffects(mode, username, password, mobileNumber, outcome);
            Count(t, HandlerCall) == 1 && CallOtp(mobileNumber) in t &&
            Count(t, SuccessToast) == 0 && Count(t, Navigation) == 0 &&
            Count(t, ErrorToast) == (if outcome == Reject then 1 else 0) &&
            (outcome == Reject <==> ToastError(CheckInputMessage) in t)
  {
    var body := [CallOtp(mobileNumber)] + (if outcome == Reject then [ToastError(CheckInputMessage)] else []);
    var t := SubmitEffects(mode, username, password, mobileNumber, outcome);
    assert t == [Loading(true)] + body + [Loading(false)];
    forall k: Kind ensures Count(t, k) == Count(body, k) + (if k == LoadingChange then 2 else 0) {
      CountSubmit(body, k);
    }
    CountAppend([CallOtp(mobileNumber)], if outcome == Reject then [ToastError(CheckInputMessage)] else [], ErrorToast);
    CountAppend([CallOtp(mobileNumber)], if outcome == Reject then [ToastError(CheckInputMessage)] else [], HandlerCall);
    assert t[1] == CallOtp(mobileNumber);
    if outcome == Reject {
      assert t[2] == ToastError(CheckInputMessage);
    }
  }

  /** OTP branch with an invalid number: no handler is called, exactly one
      error toast (the invalid-number one) is raised, and nothing else. */
  lemma OtpInvalidNumber(mode: Mode, username: string, password: string, mobileNumber: string,
                         outcome: Outcome)
    requires TakesOtpBranch(mode) && !ValidateMobile(mobileNumber)
    ensures var t := SubmitEffects(mode, username, password, mobileNumber, outcome);
            Count(t, HandlerCall) == 0 && Count(t, ErrorToast) == 1 &&
            ToastError(InvalidMobileMessage) in t &&
            Count(t, SuccessToast) == 0 && Count(t, Navigation) == 0
  {
    var body := [ToastError(InvalidMobileMessage)];
    var t := SubmitEffects(mode, username, password, mobileNumber, outcome);
    assert t == [Loading(true)] + body + [Loading(false)];
    forall k: Kind ensures Count(t, k) == Count(body, k) + (if k == LoadingChange then 2 else 0) {
      CountSubmit(body, k);
    }
    assert t[1] == ToastError(InvalidMobileMessage);
  }

  /** Credential branch, handler resolves: the credential handler is called
      once with the current username and password, then exactly one
      success toast and exactly one redirect to the home route follow, in
      that order, and no error toast. */
  lemma CredentialResolved(mode: Mode, username: string, password: string, mobileNumber: string)
    requires !TakesOtpBranch(mode)
    ensures var t := SubmitEffects(mode, username, password, mobileNumber, Resolve);
            Count(t, HandlerCall) == 1 && Count(t, SuccessToast) == 1 &&
            Count(t, Navigation) == 1 && Count(t, ErrorToast) == 0 &&
            exists i :: 0 < i && i + 2 < |t| &&
              t[i] == CallSubmit(username, password) &&
              t[i + 1] == ToastSuccess(SuccessMessage) &&
              t[i + 2] == Navigate(HomeRoute)
  {
    var call, success, redirect := CallSubmit(username, password), ToastSuccess(SuccessMessage), Navigate(HomeRoute);
    var body := [call] + [success, redirect];
    var t := SubmitEffects(mode, username, password, mobileNumber, Resolve);
    assert t == [Loading(true)] + body + [Loading(false)];
    assert [success, redirect] == [success] + [redirect];
    forall k: Kind
      ensures Count(t, k) == (if IsKind(call, k) then 1 else 0) + (if IsKind(success, k) then 1 else 0) +
                             (if IsKind(redirect, k) then 1 else 0) + (if k == LoadingChange then 2 else 0)
    {
      CountSubmit(body, k);
      CountAppend([call], [success, redirect], k);
      CountAppend([success], [redirect], k);
      CountOne(call, k);
      CountOne(success, k);
      CountOne(redirect, k);
    }
    assert t[1] == call && t[2] == success && t[3] == redirect;
  }

  /** Credential branch, handler rejects: the credential handler is called
      once, exactly one generic error toast is raised, and there is no
      success toast and no redirect. */
  lemma CredentialRejected(mode: Mode, username: string, password: string, mobileNumber: string)
    requires !TakesOtpBranch(mode)
    ensures var t := SubmitEffects(mode, username, password, mobileNumber, Reject);
            Count(t, HandlerCall) == 1 && CallSubmit(username, password) in t &&
            Count(t, ErrorToast) == 1 && ToastError(CheckInputMessage) in t &&
            Count(t, SuccessToast) == 0 && Count(t, Navigation) == 0
  {
    var body := [CallSubmit(username, password)] + [ToastError(CheckInputMessage)];
    var t := SubmitEffects(mode, username, password, mobileNumber, Reject);
    assert t == [Loading(true)] + body + [Loading(false)];
    forall k: Kind ensures Count(t, k) == Count(body, k) + (if k == LoadingChange then 2 else 0) {
      CountSubmit(body, k);
    }
    assert t[1] == CallSubmit(username, password);
    assert t[2] == ToastError(CheckInputMessage);
  }

  /** The loading indicator goes on first and off last, exactly once each,
      so every handler call happens while it is on. */
  lemma LoadingBracketsHandler(mode: Mode, username: string, password: string, mobileNumber: string,
                               outcome: Outcome)
    ensures var t := SubmitEffects(mode, username, password, mobileNumber, outcome);
            2 <= |t| && t[0] == Loading(true) && t[|t| - 1] == Loading(false) &&
            Count(t, LoadingChange) == 2 &&
            forall i :: 0 <= i < |t| && IsKind(t[i], HandlerCall) ==> 0 < i < |t| - 1
  {
    var t := SubmitEffects(mode, username, password, mobileNumber, outcome);
    var body := t[1..|t| - 1];
    assert t == [Loading(true)] + body + [Loading(false)];
    CountSubmit(body, LoadingChange);
    assert Count(body, LoadingChange) == 0;
  }

  /** A submission redirects to the home route exactly when it goes to the
      credential handler and that handler resolves, and never twice. */
  lemma NavigatesIff(mode: Mode, username: string, password: string, mobileNumber: string,
                     outcome: Outcome)
    ensures var t := SubmitEffects(mode, username, password, mobileNumber, outcome);
            (Navigate(HomeRoute) in t <==> !TakesOtpBranch(mode) && outcome == Resolve) &&
            Count(t, Navigation) <= 1
  {
    var t := SubmitEffects(mode, username, password, mobileNumber, outcome);
    if TakesOtpBranch(mode) {
      if ValidateMobile(mobileNumber) {
        OtpValidNumber(mode, username, password, mobileNumber, outcome);
      } else {
        OtpInvalidNumber(mode, username, password, mobileNumber, outcome);
      }
      NotInWhenCountZero(t, Navigate(HomeRoute), Navigation);
    } else if outcome == Resolve {
      CredentialResolved(mode, username, password, mobileNumber);
    } else {
      CredentialRejected(mode, username, password, mobileNumber);
      NotInWhenCountZero(t, Navigate(HomeRoute), Navigation);
    }
  }

  /** The OTP handler only ever receives the form's mobile number, and only
      when that number is valid. */
  lemma OtpHandlerGetsValidNumber(mode: Mode, username: string, password: string,
                                  mobileNumber: string, outcome: Outcome, m: string)
    requires CallOtp(m) in SubmitEffects(mode, username, password, mobileNumber, outcome)
    ensures m == mobileNumber && ValidateMobile(m) && TakesOtpBranch(mode)
  {
  }

  /** With the `isOTP` flag set but no OTP handler supplied, submission
      behaves as in credential mode. */
  lemma OtpWithoutHandlerFallsThrough(username: string, password: string, mobileNumber: string,
                                      outcome: Outcome)
    ensures SubmitEffects(Mode(true, false), username, password, mobileNumber, outcome) ==
            SubmitEffects(Mode(false, false), username, password, mobileNumber, outcome)
    ensures CallSubmit(username, password) in SubmitEffects(Mode(true, false), username, password, mobileNumber, outcome)
  {
    assert SubmitEffects(Mode(true, false), username, password, mobileNumber, outcome)[1] ==
           CallSubmit(username, password);
  }

  lemma NotInWhenCountZero(t: seq<Effect>, e: Effect, k: Kind)
    requires Count(t, k) == 0 && IsKind(e, k)
    ensures e !in t
  {
  }
}
