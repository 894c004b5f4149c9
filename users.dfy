/**
 * The account model of users/models.py: a user identified by e-mail, with
 * a first and last name, and a table of users in which both the e-mail
 * address (the login identifier) and the username are unique.
 */
module Users {
  import opened Wrappers
  import opened Text

  datatype User = User(id: nat, email: string, username: string, firstName: string, lastName: string)

  /** `User.full_name`: first and last name joined by a space, then stripped. */
  function FullName(u: User): (r: string)
    ensures Unpadded(r)
  {
    Strip(u.firstName + " " + u.lastName)
  }

  /** With no first name the full name is the last name, stripped. */
  lemma FullNameWithoutFirst(u: User)
    requires u.firstName == ""
    ensures FullName(u) == Strip(u.lastName)
  {
    assert u.firstName + " " + u.lastName == [' '] + u.lastName;
    StripSpaceThen(' ', u.lastName);
  }

  /** With two non-empty names that carry no surrounding whitespace, the full name is exactly `first last`. */
  lemma FullNameOfCleanNames(u: User)
    requires u.firstName != "" && u.lastName != ""
    requires Unpadded(u.firstName) && Unpadded(u.lastName)
    ensures FullName(u) == u.firstName + " " + u.lastName
  {
    var core := u.firstName + " " + u.lastName;
    assert core[0] == u.firstName[0] && core[|core| - 1] == u.lastName[|u.lastName| - 1];
    assert [] + core + [] == core;
    StripOfPadded([], core, []);
  }

  /** Two clean words joined by a space keep the first word and the space in front after a strip. */
  lemma CleanJoinPrefix(a: string, b: string)
    requires a != "" && b != "" && Unpadded(a) && Unpadded(b)
    ensures a + " " <= Strip(a + " " + b)
  {
    var core := a + " " + b;
    assert core[0] == a[0] && core[|core| - 1] == b[|b| - 1];
    assert [] + core + [] == core;
    StripOfPadded([], core, []);
    assert core[..|a| + 1] == a + " ";
  }

  /** The full name is empty exactly when both names are blank. */
  lemma FullNameEmpty(u: User)
    ensures FullName(u) == "" <==> AllSpace(u.firstName) && AllSpace(u.lastName)
  {
    var joined := u.firstName + " " + u.lastName;
    if AllSpace(u.firstName) && AllSpace(u.lastName) {
      assert AllSpace(joined);
      assert joined == joined + [] + [];
      StripOfPadded(joined, [], []);
    }
    if FullName(u) == "" {
      StripEmptyOnlyIfBlank(joined);
      forall k | 0 <= k < |u.firstName| ensures IsSpace(u.firstName[k]) {
        assert joined[k] == u.firstName[k];
      }
      forall k | 0 <= k < |u.lastName| ensures IsSpace(u.lastName[k]) {
        assert joined[|u.firstName| + 1 + k] == u.lastName[k];
      }
    }
  }

  /** `User.get_short_name`: the first name as stored. */
  function ShortName(u: User): string {
    u.firstName
  }

  /** For clean names the short name is the leading word of the full name. */
  lemma ShortNameBeginsFullName(u: User)
    requires u.firstName != "" && u.lastName != ""
    requires Unpadded(u.firstName) && Unpadded(u.lastName)
    ensures ShortName(u) + " " <= FullName(u)
  {
    CleanJoinPrefix(u.firstName, u.lastName);
  }

  /** `User.__str__`: the e-mail address. */
  function Str(u: User): string {
    u.email
  }

  /** The table constraints: ids, e-mail addresses and usernames are each unique. */
  predicate UniqueAccounts(users: seq<User>) {
    forall i, j :: 0 <= i < j < |users| ==>
      users[i].id != users[j].id && users[i].email != users[j].email && users[i].username != users[j].username
  }

  /** Login lookup: the user whose e-mail (the USERNAME_FIELD) is `email`. */
  function FindByEmail(users: seq<User>, email: string): (r: Option<User>)
    ensures r.Some? ==> r.value in users && r.value.email == email
    ensures r.None? ==> forall u :: u in users ==> u.email != email
  {
    if users == [] then None
    else if users[0].email == email then Some(users[0])
    else FindByEmail(users[1..], email)
  }

  datatype AccountError = EmailTaken | UsernameTaken | IdTaken

  /** Inserting a user row: the unique constraints reject a repeated e-mail, username or id. */
  function Register(users: seq<User>, u: User): (r: Result<seq<User>, AccountError>)
    ensures r.Err? <==> exists v :: v in users && (v.email == u.email || v.username == u.username || v.id == u.id)
    ensures r.Ok? ==> r.value == users + [u]
  {
    if exists v :: v in users && v.email == u.email then Err(EmailTaken)
    else if exists v :: v in users && v.username == u.username then Err(UsernameTaken)
    else if exists v :: v in users && v.id == u.id then Err(IdTaken)
    else Ok(users + [u])
  }

  /** Registration keeps the table's constraints, and the new user is the one its e-mail logs in as. */
  lemma RegisterThenLogin(users: seq<User>, u: User)
    requires UniqueAccounts(users)
    requires Register(users, u).Ok?
    ensures UniqueAccounts(Register(users, u).value)
    ensures FindByEmail(Register(users, u).value, u.email) == Some(u)
    ensures forall v :: v in users ==> FindByEmail(Register(users, u).value, v.email) == Some(v)
  {
    var t := users + [u];
    forall v | v in users
      ensures FindByEmail(t, v.email) == Some(v)
    {
      EmailIdentifies(t, v);
    }
    EmailIdentifies(t, u);
  }

  /** In a table with unique e-mails, a user's `__str__` logs in as that user and no other. */
  lemma EmailIdentifies(users: seq<User>, u: User)
    requires UniqueAccounts(users) && u in users
    ensures FindByEmail(users, Str(u)) == Some(u)
  {
    if users[0] != u {
      assert u in users[1..];
      EmailIdentifies(users[1..], u);
    }
  }
}
