/** The field checks of `validateSignupForm`. */
module Forms {
  import Security
  import JsText

  datatype SignupField = NameField | EmailField | PasswordField

  /**
   * The fields `validateSignupForm` flags, in the order it checks them. The
   * email check is the bare pattern: unlike `validateEmail` it has no length
   * bound.
   */
  function ValidateSignupForm(name: string, email: string, password: string): (errs: seq<SignupField>)
    ensures NameField in errs <==> |name| < 2
    ensures EmailField in errs <==> !Security.MatchesEmailPattern(email)
    ensures PasswordField in errs <==> |password| < 6
    ensures forall i, j :: 0 <= i < j < |errs| ==> Rank(errs[i]) < Rank(errs[j])
  {
    Security.EmailShapeIsPattern(email);
    (if |name| < 2 then [NameField] else [])
    + (if email == [] || !Security.EmailShape(email) then [EmailField] else [])
    + (if |password| < 6 then [PasswordField] else [])
  }

  function Rank(f: SignupField): nat {
    match f
    case NameField => 0
    case EmailField => 1
    case PasswordField => 2
  }

  /** A form that passes has a non-empty email of the form local@domain.tld. */
  lemma ValidFormHasEmail(name: string, email: string, password: string)
    requires ValidateSignupForm(name, email, password) == []
    ensures |email| >= 5 && |name| >= 2 && |password| >= 6
  {
    var at, dot :| 0 < at && at + 1 < dot && dot + 1 < |email| && email[at] == '@' && email[dot] == '.'
      && forall k :: 0 <= k < |email| && k != at ==> !JsText.IsWhitespace(email[k]) && email[k] != '@';
  }
}
