/**
 * The checks `MainWindow.launch_game` makes on the login form before it
 * touches any table: both fields empty, login empty, password empty, in that
 * order, each with its own status message.
 */
module Validation {
  import opened Common

  /** Why a launch request was turned away before authentication. */
  datatype Rejection = MissingBoth | MissingLogin | MissingPassword {

    /** The status text shown for the rejection. */
    function Message(): string {
      match this
      case MissingBoth => "Введите логин и пароль!"
      case MissingLogin => "Введите логин!"
      case MissingPassword => "Введите пароль!"
    }
  }

  /** The early exits of `launch_game`, or None when the request may go on to authentication. */
  function Validate(login: string, password: string): (r: Option<Rejection>)
    ensures r == None <==> login != "" && password != ""
    ensures r == Some(MissingBoth) <==> login == "" && password == ""
    ensures r == Some(MissingLogin) <==> login == "" && password != ""
    ensures r == Some(MissingPassword) <==> login != "" && password == ""
  {
    if login == "" && password == "" then Some(MissingBoth)
    else if login == "" then Some(MissingLogin)
    else if password == "" then Some(MissingPassword)
    else None
  }

  /** The three rejections are told apart by their messages. */
  lemma MessagesDistinct(a: Rejection, b: Rejection)
    requires a != b
    ensures a.Message() != b.Message()
  {
  }
}
