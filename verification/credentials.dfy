/**
 * The authenticate-or-register decision over the `users` table. The same
 * decision appears twice in the launcher: `auth` stores and compares a
 * SHA-256 hex digest of the password, while the inline copy in
 * `MainWindow.launch_game` stores and compares the raw text. Both are
 * `Check` applied to the value that goes into the password column.
 */
module Credentials {
  import opened Common
  import Table

  /** One row of `users(login TEXT, password TEXT)`. */
  datatype UserRow = UserRow(login: string, password: string)

  /** The key column of the users table. */
  function LoginOf(u: UserRow): string { u.login }

  /** The three ways an attempt can end. */
  datatype Verdict = Registered | WrongPassword | Authorized {

    /** The status text shown for the verdict. */
    function Message(): string {
      match this
      case Registered => "Регистрация прошла успешно!"
      case WrongPassword => "Неверный пароль. Пожалуйста, попробуйте еще раз."
      case Authorized => "Авторизация прошла успешно!"
    }

    /** The boolean half of `auth`'s `(message, bool)` pair. */
    predicate Accepted() {
      this != WrongPassword
    }
  }

  /** The outcome of one attempt, together with the users table it leaves behind. */
  datatype AuthResult = AuthResult(verdict: Verdict, users: seq<UserRow>) {
    function Message(): string { verdict.Message() }
    predicate Ok() { verdict.Accepted() }
  }

  /** The password digest, `hashlib.sha256(p.encode()).hexdigest()`, taken as a parameter. */
  type Digest = string -> string

  /** A digest that never maps two passwords to the same text. */
  ghost predicate Injective(digest: Digest) {
    forall p, q :: digest(p) == digest(q) ==> p == q
  }

  /** `login` has a row, and the first such row is at index `i`. */
  ghost predicate FirstRowAt(users: seq<UserRow>, login: string, i: nat) {
    && i < |users|
    && users[i].login == login
    && forall j :: 0 <= j < i ==> users[j].login != login
  }

  /** The row `fetchone()` returns for `SELECT * FROM users WHERE login = ?`. */
  function Lookup(users: seq<UserRow>, login: string): (r: Option<UserRow>)
    ensures r.None? <==> !Table.HasKey(users, LoginOf, login)
    ensures r.Some? ==> exists i: nat :: FirstRowAt(users, login, i) && users[i] == r.value
  {
    match Table.FindFirst(users, LoginOf, login)
    case None => None
    case Some(i) => assert FirstRowAt(users, login, i); Some(users[i])
  }

  /**
   * Authenticate-or-register, where `stored` is what the password column holds
   * for this attempt's password: an unseen login gets one new row, a known login
   * is judged by comparing its first row's password column with `stored`.
   */
  function Check(users: seq<UserRow>, login: string, stored: string): (r: AuthResult)
    ensures |users| <= |r.users| <= |users| + 1 && r.users[..|users|] == users
    ensures !Table.HasKey(users, LoginOf, login) ==>
              r == AuthResult(Registered, users + [UserRow(login, stored)])
    ensures forall i: nat :: FirstRowAt(users, login, i) && users[i].password != stored ==>
              r == AuthResult(WrongPassword, users)
    ensures forall i: nat :: FirstRowAt(users, login, i) && users[i].password == stored ==>
              r == AuthResult(Authorized, users)
  {
    match Lookup(users, login)
    case None => AuthResult(Registered, users + [UserRow(login, stored)])
    case Some(row) =>
      if row.password != stored then AuthResult(WrongPassword, users)
      else AuthResult(Authorized, users)
  }

  /** `auth(login, password)`: the digest is what is stored and what is compared. */
  function Auth(users: seq<UserRow>, login: string, password: string, digest: Digest): (r: AuthResult)
    ensures !Table.HasKey(users, LoginOf, login) ==>
              r == AuthResult(Registered, users + [UserRow(login, digest(password))])
    ensures forall i: nat :: FirstRowAt(users, login, i) && users[i].password != digest(password) ==>
              r == AuthResult(WrongPassword, users)
    ensures forall i: nat :: FirstRowAt(users, login, i) && users[i].password == digest(password) ==>
              r == AuthResult(Authorized, users)
  {
    Check(users, login, digest(password))
  }

  /** The inline copy in `launch_game`: the raw password is stored and compared. */
  function AuthPlain(users: seq<UserRow>, login: string, password: string): (r: AuthResult)
    ensures !Table.HasKey(users, LoginOf, login) ==>
              r == AuthResult(Registered, users + [UserRow(login, password)])
    ensures forall i: nat :: FirstRowAt(users, login, i) && users[i].password != password ==>
              r == AuthResult(WrongPassword, users)
    ensures forall i: nat :: FirstRowAt(users, login, i) && users[i].password == password ==>
              r == AuthResult(Authorized, users)
  {
    Check(users, login, password)
  }

  /** The three verdicts partition the inputs: the table grows exactly on registration, and only a wrong password is refused. */
  lemma CheckVerdicts(users: seq<UserRow>, login: string, stored: string)
    ensures var r := Check(users, login, stored);
      && (r.verdict == Registered <==> !Table.HasKey(users, LoginOf, login))
      && (r.users != users <==> r.verdict == Registered)
      && (!r.Ok() <==> r.verdict == WrongPassword)
  {
  }

  /** Unique logins stay unique. */
  lemma CheckKeepsLoginsUnique(users: seq<UserRow>, login: string, stored: string)
    requires Table.UniqueKeys(users, LoginOf)
    ensures Table.UniqueKeys(Check(users, login, stored).users, LoginOf)
  {
  }

  /** After an unseen login registers, the row it added is the one every later lookup of it finds. */
  lemma RegisteredRowIsFound(users: seq<UserRow>, login: string, stored: string)
    requires !Table.HasKey(users, LoginOf, login)
    ensures FirstRowAt(Check(users, login, stored).users, login, |users|)
    ensures Check(users, login, stored).users[|users|] == UserRow(login, stored)
  {
  }

  /** Register, then log in again with the same password: the second attempt is accepted and adds no row. */
  lemma RegisterThenLogin(users: seq<UserRow>, login: string, password: string, digest: Digest)
    requires !Table.HasKey(users, LoginOf, login)
    ensures var first := Auth(users, login, password, digest);
      var second := Auth(first.users, login, password, digest);
      && first.verdict == Registered
      && second.verdict == Authorized
      && second.users == first.users
  {
    RegisteredRowIsFound(users, login, digest(password));
  }

  /** With an injective digest, any other password is refused after registration. */
  lemma RegisterThenOtherPassword(users: seq<UserRow>, login: string, password: string, other: string, digest: Digest)
    requires Injective(digest)
    requires !Table.HasKey(users, LoginOf, login)
    requires other != password
    ensures var first := Auth(users, login, password, digest);
      var second := Auth(first.users, login, other, digest);
      && second.verdict == WrongPassword
      && second.users == first.users
  {
    RegisteredRowIsFound(users, login, digest(password));
  }
}
