/** The student's password-change form: its checks before anything is sent
    (the only place a minimum password length is enforced) and how its state
    changes with the server's answer. */
module PasswordChangeRequest {
  import opened Common

  const MinLength: nat := 6

  const Mismatch := "Passwords do not match"
  const TooShort := "Password must be at least 6 characters long"
  const Submitted := "Password change request submitted successfully! Please wait for admin approval."
  const SubmitFailed := "Failed to submit request"
  const NetworkError := "Network error"

  /** The checks of `handleSubmit`, in their order: the confirmation must
      match, then the password must have at least six characters. The
      result is the message shown, or None when the form may be sent. */
  function Validate(newPassword: string, confirmPassword: string): (err: Option<string>)
    ensures err.None? <==> newPassword == confirmPassword && |newPassword| >= MinLength
    ensures newPassword != confirmPassword ==> err == Some(Mismatch)
    ensures newPassword == confirmPassword && |newPassword| < MinLength ==> err == Some(TooShort)
  {
    if newPassword != confirmPassword then Some(Mismatch)
    else if |newPassword| < MinLength then Some(TooShort)
    else None
  }

  /** The JSON body sent to `POST /password-requests/request`. */
  datatype Body = Body(newPassword: string, reason: string)

  /** How the request ends: an OK response, an error response with its
      `message` ("" when it has none), or a failure to reach the server. */
  datatype Answer = Accepted | Refused(message: string) | Unreachable

  /** The component's form state. */
  class PasswordForm {
    var showForm: bool
    var newPassword: string
    var confirmPassword: string
    var reason: string
    var message: string

    constructor ()
      ensures !showForm && newPassword == "" && confirmPassword == "" && reason == "" && message == ""
    {
      showForm := false;
      newPassword, confirmPassword, reason, message := "", "", "", "";
    }

    /** `handleSubmit`. When a check fails, nothing is sent and only the
        message changes. Otherwise the body is sent, and `answer` is how the
        request ended: on success the fields are cleared and the form is
        hidden; on failure the fields stay and the server's message (or a
        generic one) is shown. */
    method HandleSubmit(answer: Answer) returns (sent: Option<Body>)
      modifies this
      ensures var err := Validate(old(newPassword), old(confirmPassword));
        && (err.Some? ==> sent.None? && message == err.value)
        && (err.None? ==> sent == Some(Body(old(newPassword), old(reason))))
      ensures sent.Some? ==> |sent.value.newPassword| >= MinLength
      ensures sent.Some? && answer == Accepted ==>
        && message == Submitted && !showForm
        && newPassword == "" && confirmPassword == "" && reason == ""
      ensures sent.Some? && answer.Refused? ==> message == OrElse(answer.message, SubmitFailed)
      ensures sent.Some? && answer == Unreachable ==> message == NetworkError
      ensures (sent.None? || answer != Accepted) ==>
        && showForm == old(showForm) && newPassword == old(newPassword)
        && confirmPassword == old(confirmPassword) && reason == old(reason)
    {
      message := "";
      var err := Validate(newPassword, confirmPassword);
      if err.Some? {
        message := err.value;
        return None;
      }
      sent := Some(Body(newPassword, reason));
      match answer
      case Accepted =>
        message := Submitted;
        newPassword := "";
        confirmPassword := "";
        reason := "";
        showForm := false;
      case Refused(m) =>
        message := OrElse(m, SubmitFailed);
      case Unreachable =>
        message := NetworkError;
    }
  }
}
