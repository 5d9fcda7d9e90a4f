/**
 The stand-alone login form: blank-field validation on submit, the
 confirmation alert, the submit button's enabling rule and the Enter key in
 the user-name field.
 */
module LoginPage {
  import opened Wrappers
  import Text

  const FillInAlert := "Please fill in both username and password."

  /**
   Either field is empty once trimmed: the submit button's `disabled`, and
   the same test `handleSubmit` repeats.
   */
  predicate Blank(userName: string, password: string): (b: bool)
    ensures b <==> Text.AllSatisfy(userName, Text.IsJsSpace) || Text.AllSatisfy(password, Text.IsJsSpace)
  {
    Text.TrimEmptyIff(userName, Text.IsJsSpace);
    Text.TrimEmptyIff(password, Text.IsJsSpace);
    Text.JsTrim(userName) == "" || Text.JsTrim(password) == ""
  }

  /**
   `handleSubmit`: the alert shown. A blank field gives the fill-in alert;
   otherwise the untrimmed values are echoed.
   */
  function HandleSubmit(userName: string, password: string): (alert: string)
    ensures Blank(userName, password) ==> alert == FillInAlert
    ensures !Blank(userName, password) ==> alert == "You submitted: " + userName + " " + password
  {
    if Blank(userName, password) then FillInAlert else "You submitted: " + userName + " " + password
  }

  /**
   The button and the handler agree: the button is disabled exactly when the
   handler would refuse.
   */
  lemma DisabledIffRefused(userName: string, password: string)
    ensures Blank(userName, password) <==> HandleSubmit(userName, password) == FillInAlert
  {
    if !Blank(userName, password) {
      var echo := "You submitted: " + userName + " " + password;
      assert echo[0] == 'Y' && FillInAlert[0] == 'P';
    }
  }

  datatype KeyEffect = FocusPassword | Default

  /** Enter in the user-name field moves focus to the password field and does not submit. */
  function UserNameKeyDown(key: string): (e: KeyEffect)
    ensures e == FocusPassword <==> key == "Enter"
  {
    if key == "Enter" then FocusPassword else Default
  }
}
