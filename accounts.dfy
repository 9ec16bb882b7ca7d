/** Accounts: the `.edu` rule, signing up and logging in. */
module Accounts {
  import opened Records
  import opened Text

  /** is_edu: `email.strip().lower().endswith(".edu")`. */
  predicate IsEdu(email: string) {
    EndsWith(Lower(Strip(email)), ".edu")
  }

  /** An address is accepted exactly when, without surrounding whitespace,
      its last four characters are ".edu" in any mix of upper and lower case. */
  lemma IsEduMeans(email: string)
    ensures var t := Strip(email); IsEdu(email) <==> |t| >= 4 && Lower(t[|t| - 4..]) == ".edu"
  {
    var t := Strip(email);
    var lt := Lower(t);
    if |t| >= 4 {
      LowerSlice(t, |t| - 4, |t|);
      assert lt[|lt| - 4..] == Lower(t[|t| - 4..]);
    }
  }

  /** Whitespace around the address never changes the verdict. */
  lemma IsEduIgnoresPadding(pre: string, email: string, post: string)
    requires AllSpace(pre) && AllSpace(post)
    ensures IsEdu(pre + email + post) == IsEdu(email)
  {
    StripIgnoresPadding(pre, email, post);
  }

  /** Lower-casing the address first never changes the verdict. */
  lemma IsEduIgnoresCase(email: string)
    ensures IsEdu(Lower(email)) == IsEdu(email)
  {
    StripLower(email);
    StripLower(Strip(email));
  }

  /** The name join on two strings: whichever are non-empty, with one
      space between them when both are. */
  lemma JoinNonEmptyPair(f: string, l: string)
    ensures Join(" ", NonEmpty([f, l])) == if f == [] then l else if l == [] then f else f + " " + l
  {
    assert [f, l][1..] == [l];
    assert [l][1..] == [];
    var tail := if l != [] then [l] else [];
    assert NonEmpty([l]) == tail + [];
    assert NonEmpty([f, l]) == (if f != [] then [f] else []) + tail;
    if f != [] && l != [] {
      assert NonEmpty([f, l]) == [f, l];
    }
  }

  lemma JoinTrimmed(f: string, l: string)
    requires Trimmed(f) && Trimmed(l) && f != [] && l != []
    ensures Trimmed(f + " " + l)
  {
    var j := f + " " + l;
    assert j[0] == f[0];
    assert j[|j| - 1] == l[|l| - 1];
  }

  /** The account name: the stripped first and last names that are not
      empty, joined by one space (`" ".join([...]).strip()`). */
  function DisplayName(firstName: string, lastName: string): (r: string)
    ensures var f, l := Strip(firstName), Strip(lastName);
      r == if f == [] then l else if l == [] then f else f + " " + l
  {
    var f, l := Strip(firstName), Strip(lastName);
    var joined := Join(" ", NonEmpty([f, l]));
    JoinNonEmptyPair(f, l);
    if f != [] && l != [] then JoinTrimmed(f, l); StripTrimmed(joined); Strip(joined)
    else StripTrimmed(joined); Strip(joined)
  }

  /** The 400 detail signup answers with, if any: the address is checked
      before the password. */
  function ValidateSignup(email: string, password: string): (r: Option<string>)
    ensures r == None <==> IsEdu(email) && |password| >= 8
    ensures !IsEdu(email) ==> r == Some("Email must end with .edu")
    ensures IsEdu(email) && |password| < 8 ==> r == Some("Password must be at least 8 characters")
  {
    if !IsEdu(email) then Some("Email must end with .edu")
    else if |password| < 8 then Some("Password must be at least 8 characters")
    else None
  }

  /** Some user has exactly this address (compared as given). */
  predicate EmailTaken(users: map<int, User>, email: string) {
    exists id | id in users :: users[id].email == email
  }

  /** The e-mail column is unique. */
  ghost predicate UniqueEmails(users: map<int, User>) {
    forall i, j :: i in users && j in users && users[i].email == users[j].email ==> i == j
  }

  /** The user with this address has a password that passes the check. */
  predicate CredentialsMatch(users: map<int, User>, email: string, password: string, checkPassword: (string, string) -> bool) {
    exists id | id in users :: users[id].email == email && checkPassword(password, users[id].passwordHash)
  }

  /** A user with a fresh id and an unused address keeps the addresses unique. */
  lemma AddUserKeepsUnique(users: map<int, User>, id: int, u: User)
    requires UniqueEmails(users) && id !in users && !EmailTaken(users, u.email)
    ensures UniqueEmails(users[id := u])
  {
    var after := users[id := u];
    assert forall k :: k in users ==> users[k].email != u.email;
    forall i, j | i in after && j in after && after[i].email == after[j].email
      ensures i == j
    {
      if i != id && j != id {
        assert users[i].email == users[j].email;
      }
    }
  }

  /** With unique addresses, the credentials match exactly when the one user
      with that address has a password passing the check. */
  lemma OwnerOfEmail(users: map<int, User>, email: string, password: string,
                     checkPassword: (string, string) -> bool, id: int)
    requires UniqueEmails(users) && id in users && users[id].email == email
    ensures CredentialsMatch(users, email, password, checkPassword) <==> checkPassword(password, users[id].passwordHash)
  {
    if CredentialsMatch(users, email, password, checkPassword) {
      var other :| other in users && users[other].email == email && checkPassword(password, users[other].passwordHash);
      assert other == id;
    }
  }

  datatype SignupReply = SignupRejected(statusCode: int, detail: string) | SignupOk(message: string)

  datatype LoginReply = LoginRejected(statusCode: int, detail: string) | LoggedIn(message: string, redirect: string)

  /** The cookie session of one browser. */
  class Session {
    var userId: Option<int>

    constructor ()
      ensures userId == None
    {
      userId := None;
    }
  }

  /** The users table. */
  class UserTable {
    var rows: map<int, User>
    var nextId: int

    ghost predicate Valid()
      reads this
    {
      (forall id :: id in rows ==> id < nextId) && UniqueEmails(rows)
    }

    constructor (initial: map<int, User>, firstFreeId: int)
      requires forall id :: id in initial ==> id < firstFreeId
      requires UniqueEmails(initial)
      ensures Valid() && rows == initial && nextId == firstFreeId
    {
      rows := initial;
      nextId := firstFreeId;
    }

    /** signup: 400 for a bad address or a short password, before the table
        is looked at; a soft "already exists" when the address is taken;
        otherwise exactly one user is added. `passwordHash` is the salted
        hash of `password`. */
    method Signup(email: string, password: string, firstName: string, lastName: string, passwordHash: string)
      returns (r: SignupReply)
      requires Valid()
      modifies this
      ensures Valid()
      ensures ValidateSignup(email, password) != None ==>
        r == SignupRejected(400, ValidateSignup(email, password).value) && rows == old(rows) && nextId == old(nextId)
      ensures ValidateSignup(email, password) == None && old(EmailTaken(rows, email)) ==>
        r == SignupOk("Account already exists. Please log in.") && rows == old(rows) && nextId == old(nextId)
      ensures ValidateSignup(email, password) == None && !old(EmailTaken(rows, email)) ==>
        && r == SignupOk("Account created. You can now log in.")
        && old(nextId) !in old(rows)
        && rows == old(rows)[old(nextId) := User(DisplayName(firstName, lastName), email, passwordHash, None)]
        && nextId == old(nextId) + 1
    {
      var invalid := ValidateSignup(email, password);
      if invalid != None {
        return SignupRejected(400, invalid.value);
      }
      if EmailTaken(rows, email) {
        return SignupOk("Account already exists. Please log in.");
      }
      var user := User(DisplayName(firstName, lastName), email, passwordHash, None);
      AddUserKeepsUnique(rows, nextId, user);
      rows := rows[nextId := user];
      nextId := nextId + 1;
      r := SignupOk("Account created. You can now log in.");
    }

    /** login: 400 for a non-.edu address, 401 when no user has the address
        or the password check fails, and only on success the session
        remembers that user. `checkPassword` compares a password with a
        stored hash. */
    method Login(session: Session, email: string, password: string, checkPassword: (string, string) -> bool)
      returns (r: LoginReply)
      requires Valid()
      modifies session
      ensures !IsEdu(email) ==>
        r == LoginRejected(400, "Email must end with .edu") && session.userId == old(session.userId)
      ensures IsEdu(email) && !CredentialsMatch(rows, email, password, checkPassword) ==>
        r == LoginRejected(401, "Invalid credentials") && session.userId == old(session.userId)
      ensures IsEdu(email) && CredentialsMatch(rows, email, password, checkPassword) ==>
        && r == LoggedIn("Logged in", "/profile")
        && session.userId.Some? && session.userId.value in rows && rows[session.userId.value].email == email
    {
      if !IsEdu(email) {
        return LoginRejected(400, "Email must end with .edu");
      }
      if !EmailTaken(rows, email) {
        return LoginRejected(401, "Invalid credentials");
      }
      var id :| id in rows && rows[id].email == email;
      OwnerOfEmail(rows, email, password, checkPassword, id);
      if !checkPassword(password, rows[id].passwordHash) {
        return LoginRejected(401, "Invalid credentials");
      }
      session.userId := Some(id);
      r := LoggedIn("Logged in", "/profile");
    }
  }
}
