/**
 * `MainWindow.launch_game`: validate the form, authenticate or register
 * (raw-text variant), count the launch, lock the form and hand the selection
 * to the worker.
 */
module Session {
  import opened Common
  import Validation
  import Credentials
  import Stats
  import Menu

  /** The state one click can change: the two tables and whether the form is read-only. */
  datatype Session = Session(users: seq<Credentials.UserRow>, stats: seq<Stats.StatRow>, locked: bool)

  /** What `launch_setup_signal` carries to the worker: the picker text, its data and the login. */
  datatype Request = Request(name: string, data: Menu.Descriptor, login: string)

  /** The status text shown, the state left behind, and the request sent to the worker, if any. */
  datatype Outcome = Outcome(message: string, session: Session, request: Option<Request>)

  /** One click on the play button with the given form contents and picker selection. */
  function LaunchGame(s: Session, login: string, password: string, item: Menu.Item): (r: Outcome)
    ensures Validation.Validate(login, password).Some? ==>
              r == Outcome(Validation.Validate(login, password).value.Message(), s, None)
    ensures login != "" && password != "" ==>
              var a := Credentials.AuthPlain(s.users, login, password);
              && r.message == a.Message()
              && r.session.users == a.users
              && (!a.Ok() ==> r.session.stats == s.stats && r.session.locked == s.locked && r.request == None)
              && (a.Ok() ==> && r.session.stats == Stats.RecordLaunch(s.stats, item.text)
                             && r.session.locked
                             && r.request == Some(Request(item.text, item.data, login)))
  {
    match Validation.Validate(login, password)
    case Some(why) => Outcome(why.Message(), s, None)
    case None =>
      var a := Credentials.AuthPlain(s.users, login, password);
      if !a.Ok() then Outcome(a.Message(), s.(users := a.users), None)
      else
        Outcome(a.Message(),
                Session(a.users, Stats.RecordLaunch(s.stats, item.text), true),
                Some(Request(item.text, item.data, login)))
  }

  /** With both fields empty the request stops at the first check, whatever the tables hold. */
  lemma EmptyFormStops(s: Session, item: Menu.Item)
    ensures LaunchGame(s, "", "", item) == Outcome("Введите логин и пароль!", s, None)
  {
  }

  /** A known login with another stored password is refused before the stats table or the worker are touched. */
  lemma WrongPasswordStops(s: Session, login: string, password: string, item: Menu.Item, i: nat)
    requires login != "" && password != ""
    requires Credentials.FirstRowAt(s.users, login, i) && s.users[i].password != password
    ensures LaunchGame(s, login, password, item) ==
              Outcome("Неверный пароль. Пожалуйста, попробуйте еще раз.", s, None)
  {
  }

  /** A first click registers the player, counts the launch and starts the worker. */
  lemma FirstClickRegistersAndLaunches(s: Session, login: string, password: string, item: Menu.Item)
    requires login != "" && password != ""
    requires forall j :: 0 <= j < |s.users| ==> s.users[j].login != login
    ensures var r := LaunchGame(s, login, password, item);
      && r.message == "Регистрация прошла успешно!"
      && r.session.users == s.users + [Credentials.UserRow(login, password)]
      && r.session.stats == Stats.RecordLaunch(s.stats, item.text)
      && r.request == Some(Request(item.text, item.data, login))
  {
  }
}
