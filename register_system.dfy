// The registration form: three checks run in order (password length, user
// name, e-mail) and the first that fails puts its message in the info label
// and stops; when all pass, a registration request is sent to the account
// service. The service answers later with success or an error.

module RegisterSystem {
  import opened Wrappers

  /** The shortest password the form accepts. */
  const MinPasswordLength := 6

  const PasswordTooShort := "Password is too short"
  const NoUsername := "No username"
  const MailNotValid := "Mail is not valid"
  const Registered := "New User Registered"

  /** The request sent to the account service. */
  datatype RegisterRequest = RegisterRequest(
    displayName: string, email: string, password: string, requireBothUsernameAndEmail: bool)

  /** The length of a string as .NET counts it: in UTF-16 code units, where a
      character beyond U+FFFF takes a surrogate pair of two units. */
  function Utf16Length(s: string): (n: nat)
    ensures |s| <= n <= 2 * |s|
    ensures n == 0 <==> |s| == 0
    ensures n == |s| <==> forall i :: 0 <= i < |s| ==> s[i] as int <= 0xFFFF
  {
    if s == [] then 0
    else
      var rest := Utf16Length(s[1..]);
      assert forall i :: 1 <= i < |s| ==> s[i] == s[1..][i - 1];
      (if s[0] as int > 0xFFFF then 2 else 1) + rest
  }

  /** The form's checks, in order: the message of the first that fails, or
      None when all pass. An absent e-mail text is the empty string here. */
  function Validate(password: string, userName: string, email: string): (r: Option<string>)
    ensures r.Some? ==> r.value in {PasswordTooShort, NoUsername, MailNotValid}
  {
    if Utf16Length(password) < MinPasswordLength then Some(PasswordTooShort)
    else if Utf16Length(userName) <= 0 then Some(NoUsername)
    else if |email| == 0 then Some(MailNotValid)
    else None
  }

  /** The form passes exactly when the password has at least six UTF-16 code
      units and neither the user name nor the e-mail is empty. */
  lemma ValidateAccepts(password: string, userName: string, email: string)
    ensures Validate(password, userName, email).None? <==>
      Utf16Length(password) >= MinPasswordLength && |userName| > 0 && |email| > 0
  {
  }

  /** Three characters beyond U+FFFF make a password of six code units, long
      enough for the form. */
  lemma SurrogatePairsCount()
    ensures Utf16Length("\U{1F600}\U{1F600}\U{1F600}") == 6
    ensures Validate("\U{1F600}\U{1F600}\U{1F600}", "ada", "ada@example.org").None?
  {
  }

  /** Each message names a failed check, and a check is reported only when
      every earlier one passed: a short password is reported whatever the
      other fields hold, a missing user name only with a long enough
      password, a missing e-mail only when both others are fine. */
  lemma ValidateReportsFirstFailure(password: string, userName: string, email: string)
    ensures Validate(password, userName, email) == Some(PasswordTooShort) <==>
      Utf16Length(password) < MinPasswordLength
    ensures Validate(password, userName, email) == Some(NoUsername) <==>
      Utf16Length(password) >= MinPasswordLength && |userName| == 0
    ensures Validate(password, userName, email) == Some(MailNotValid) <==>
      Utf16Length(password) >= MinPasswordLength && |userName| > 0 && |email| == 0
  {
  }

  /** The form component: its three input fields, its info label, the two
      panels' visibility, and the requests it has sent. */
  class Form {
    var userEmail: string
    var userPassword: string
    var userName: string
    var infoLabel: string
    var loginPanelActive: bool
    var registerPanelActive: bool
    var sent: seq<RegisterRequest>

    constructor (userEmail: string, userPassword: string, userName: string)
      ensures this.userEmail == userEmail && this.userPassword == userPassword
      ensures this.userName == userName
      ensures infoLabel == "" && !loginPanelActive && registerPanelActive && sent == []
    {
      this.userEmail := userEmail;
      this.userPassword := userPassword;
      this.userName := userName;
      infoLabel := "";
      loginPanelActive := false;
      registerPanelActive := true;
      sent := [];
    }

    /** The register button: the first failed check shows its message and
        nothing is sent; otherwise one request with the user name as display
        name, the e-mail and the password is sent, and the label is left as
        it was. The fields and panels never change. */
    method RegisterUser()
      modifies this
      ensures userEmail == old(userEmail) && userPassword == old(userPassword) && userName == old(userName)
      ensures loginPanelActive == old(loginPanelActive) && registerPanelActive == old(registerPanelActive)
      ensures var v := Validate(userPassword, userName, userEmail);
        (v.Some? ==> infoLabel == v.value && sent == old(sent)) &&
        (v.None? ==> (infoLabel == old(infoLabel) &&
          sent == old(sent) + [RegisterRequest(userName, userEmail, userPassword, false)]))
    {
      if Utf16Length(userPassword) < MinPasswordLength {
        infoLabel := PasswordTooShort;
        return;
      }
      if Utf16Length(userName) <= 0 {
        infoLabel := NoUsername;
        return;
      }
      if |userEmail| == 0 {
        infoLabel := MailNotValid;
        return;
      }
      var request := RegisterRequest(userName, userEmail, userPassword, false);
      sent := sent + [request];
    }

    /** The service accepted the registration: the label says so and the
        login panel replaces the register panel. */
    method OnRegisterSuccess()
      modifies this
      ensures infoLabel == Registered && loginPanelActive && !registerPanelActive
      ensures userEmail == old(userEmail) && userPassword == old(userPassword) && userName == old(userName)
      ensures sent == old(sent)
    {
      infoLabel := Registered;
      loginPanelActive := true;
      registerPanelActive := false;
    }

    /** The service reported an error: it is only logged, so nothing the
        form shows changes. */
    method OnError()
      ensures unchanged(this)
    {
    }
  }
}
