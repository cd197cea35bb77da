/** The local account rules of InkWell: sign-up, login, logout and the
    storage key under which each user's note is kept (app.js:38,
    app.js:132-176). Storage itself is not modelled: the stored user list
    and the current user are the fields of a `Registry`. */
module Accounts {
  import opened Text

  /** A stored user record `{ name, email, password }`. */
  datatype User = User(name: string, email: string, password: string)

  /** The current-user record `{ name, email }`. */
  datatype Account = Account(name: string, email: string)

  datatype SignUpOutcome = SignedUp | MissingField | EmailExists
  datatype LoginOutcome = LoggedIn | InvalidCredentials

  const NotePrefix: string := "inkwell_note_"

  /** `noteKey(email)`: the prefix followed by the lower-cased email. */
  function NoteKey(email: string): (k: string)
    ensures |k| == |NotePrefix| + |email|
    ensures k[..|NotePrefix|] == NotePrefix
    ensures forall i :: |NotePrefix| <= i < |k| ==> !IsUpper(k[i])
    ensures k[|NotePrefix|..] == ToLower(email)
  {
    NotePrefix + ToLower(email)
  }

  /** Two emails share a note exactly when they agree up to letter case. */
  lemma NoteKeySame(a: string, b: string)
    ensures NoteKey(a) == NoteKey(b) <==> ToLower(a) == ToLower(b)
  {
    if NoteKey(a) == NoteKey(b) {
      assert NoteKey(a)[|NotePrefix|..] == ToLower(a);
      assert NoteKey(b)[|NotePrefix|..] == ToLower(b);
    }
  }

  /** The email a form field holds once the handlers normalise it
      (`.trim().toLowerCase()`). */
  function NormalEmail(raw: string): (e: string)
    ensures ToLower(e) == e
    ensures e == [] <==> AllWs(raw)
  {
    ToLowerIdempotent(Trim(raw));
    ToLower(Trim(raw))
  }

  /** `users.some((user) => user.email === email)`. */
  function EmailTaken(users: seq<User>, email: string): (b: bool)
    ensures b <==> exists i :: 0 <= i < |users| && users[i].email == email
  {
    if users == [] then false
    else if users[0].email == email then true
    else
      var b := EmailTaken(users[1..], email);
      assert b ==> exists i :: 0 <= i < |users| && users[i].email == email by {
        if b {
          var i :| 0 <= i < |users[1..]| && users[1..][i].email == email;
          assert users[i + 1].email == email;
        }
      }
      assert (exists i :: 0 <= i < |users| && users[i].email == email) ==> b by {
        if exists i :: 0 <= i < |users| && users[i].email == email {
          var i :| 0 <= i < |users| && users[i].email == email;
          assert i > 0 && users[1..][i - 1].email == email;
        }
      }
      b
  }

  predicate Matches(u: User, email: string, password: string) {
    u.email == email && u.password == password
  }

  /** `users.find((candidate) => candidate.email === email &&
      candidate.password === password)`: the first match, if any. */
  function FindUser(users: seq<User>, email: string, password: string): (r: Option<User>)
    ensures r.None? <==> forall i :: 0 <= i < |users| ==> !Matches(users[i], email, password)
    ensures r.Some? ==> exists i :: 0 <= i < |users| && users[i] == r.value && FirstMatch(users, email, password, i)
  {
    if users == [] then None
    else if Matches(users[0], email, password) then
      assert FirstMatch(users, email, password, 0);
      Some(users[0])
    else
      var r := FindUser(users[1..], email, password);
      if r.Some? then
        var i :| 0 <= i < |users[1..]| && users[1..][i] == r.value && FirstMatch(users[1..], email, password, i);
        assert FirstMatch(users, email, password, i + 1) by {
          forall j | 0 <= j < i + 1 ensures !Matches(users[j], email, password) {
            if j > 0 {
              assert users[j] == users[1..][j - 1];
            }
          }
        }
        r
      else
        assert forall i :: 0 <= i < |users| ==> !Matches(users[i], email, password) by {
          forall i | 0 <= i < |users| ensures !Matches(users[i], email, password) {
            if i > 0 {
              assert users[i] == users[1..][i - 1];
            }
          }
        }
        r
  }

  /** Entry `i` is the first to match the credentials. */
  predicate FirstMatch(users: seq<User>, email: string, password: string, i: int)
    requires 0 <= i < |users|
  {
    Matches(users[i], email, password) && forall j :: 0 <= j < i ==> !Matches(users[j], email, password)
  }

  /** No two stored users share an email. */
  predicate UniqueEmails(users: seq<User>) {
    forall i, j :: 0 <= i < j < |users| ==> users[i].email != users[j].email
  }

  /** Every stored user went through the sign-up checks: all fields are
      filled in and the email is lower-case. */
  predicate WellFormed(u: User) {
    u.name != [] && u.email != [] && u.password != [] && ToLower(u.email) == u.email
  }

  /** Appending a user whose email is not taken keeps emails unique. */
  lemma AppendKeepsUnique(users: seq<User>, u: User)
    requires UniqueEmails(users) && !EmailTaken(users, u.email)
    ensures UniqueEmails(users + [u])
  {
    var t := users + [u];
    forall i, j | 0 <= i < j < |t| ensures t[i].email != t[j].email {
      if j == |users| {
        assert t[i] == users[i];
      } else {
        assert t[i] == users[i] && t[j] == users[j];
      }
    }
  }

  /** A user just appended with a fresh email is what a login with the same
      credentials finds. */
  lemma FindAppended(users: seq<User>, u: User)
    requires !EmailTaken(users, u.email)
    ensures FindUser(users + [u], u.email, u.password) == Some(u)
  {
    var t := users + [u];
    assert Matches(t[|users|], u.email, u.password);
    var r := FindUser(t, u.email, u.password);
    var i :| 0 <= i < |t| && t[i] == r.value && FirstMatch(t, u.email, u.password, i);
    if i < |users| {
      assert t[i] == users[i];
    }
  }

  /** With unique emails, login under a stored email succeeds exactly when
      the password is that user's. */
  lemma FindByEmail(users: seq<User>, i: int, password: string)
    requires UniqueEmails(users) && 0 <= i < |users|
    ensures FindUser(users, users[i].email, password)
         == if users[i].password == password then Some(users[i]) else None
  {
    var email := users[i].email;
    var r := FindUser(users, email, password);
    if r.Some? {
      var k :| 0 <= k < |users| && users[k] == r.value && FirstMatch(users, email, password, k);
      assert k == i;
    } else {
      assert !Matches(users[i], email, password);
    }
  }

  class Registry {
    /** The stored user list (`inkwell_users`). */
    var users: seq<User>
    /** The stored current user (`inkwell_current_user`); `None` when no
        one is logged in. */
    var current: Option<Account>

    ghost predicate Valid()
      reads this
    {
      && UniqueEmails(users)
      && (forall i :: 0 <= i < |users| ==> WellFormed(users[i]))
      && (current.Some? ==> exists i :: 0 <= i < |users| && current.value == Account(users[i].name, users[i].email))
    }

    /** An empty store. */
    constructor ()
      ensures users == [] && current == None
      ensures Valid()
    {
      users := [];
      current := None;
    }

    /** The sign-up handler (app.js:132-151): the name and email are
        trimmed and the email lower-cased; an empty field fails first,
        then an email already stored; otherwise the user is appended and
        becomes the current user. */
    method SignUp(rawName: string, rawEmail: string, password: string) returns (outcome: SignUpOutcome)
      modifies this
      ensures old(Valid()) ==> Valid()
      ensures var name, email := Trim(rawName), NormalEmail(rawEmail);
        && (outcome == MissingField <==> name == [] || email == [] || password == [])
        && (outcome == EmailExists <==> name != [] && email != [] && password != [] && EmailTaken(old(users), email))
        && (outcome == SignedUp ==>
              users == old(users) + [User(name, email, password)] && current == Some(Account(name, email)))
        && (outcome != SignedUp ==> users == old(users) && current == old(current))
    {
      var name := Trim(rawName);
      var email := NormalEmail(rawEmail);
      if name == [] || email == [] || password == [] {
        return MissingField;
      }
      if EmailTaken(users, email) {
        return EmailExists;
      }
      var u := User(name, email, password);
      if UniqueEmails(users) {
        AppendKeepsUnique(users, u);
      }
      var n := |users|;
      users := users + [u];
      current := Some(Account(name, email));
      assert current.value == Account(users[n].name, users[n].email);
      outcome := SignedUp;
    }

    /** The login handler (app.js:156-170): the first stored user with the
        normalised email and the exact password becomes the current user;
        otherwise nothing changes. */
    method Login(rawEmail: string, password: string) returns (outcome: LoginOutcome)
      modifies this
      ensures old(Valid()) ==> Valid()
      ensures users == old(users)
      ensures var found := FindUser(users, NormalEmail(rawEmail), password);
        && (found.None? ==> outcome == InvalidCredentials && current == old(current))
        && (found.Some? ==> outcome == LoggedIn && current == Some(Account(found.value.name, found.value.email)))
    {
      var found := FindUser(users, NormalEmail(rawEmail), password);
      if found.None? {
        return InvalidCredentials;
      }
      current := Some(Account(found.value.name, found.value.email));
      outcome := LoggedIn;
    }

    /** The logout handler (app.js:172-176): the current user is removed;
        the stored users stay. */
    method Logout()
      modifies this
      ensures old(Valid()) ==> Valid()
      ensures users == old(users) && current == None
    {
      current := None;
    }
  }

  /** Signing up and then logging in with the same, possibly differently
      spaced or cased, email and the same password logs the new user in. */
  method SignUpThenLogin(r: Registry, rawName: string, rawEmail: string, loginEmail: string, password: string)
      returns (signed: SignUpOutcome, logged: LoginOutcome)
    requires NormalEmail(loginEmail) == NormalEmail(rawEmail)
    modifies r
    ensures signed == SignedUp ==> logged == LoggedIn && r.current == Some(Account(Trim(rawName), NormalEmail(rawEmail)))
  {
    signed := r.SignUp(rawName, rawEmail, password);
    logged := r.Login(loginEmail, password);
    if signed == SignedUp {
      FindAppended(old(r.users), User(Trim(rawName), NormalEmail(rawEmail), password));
    }
  }
}
