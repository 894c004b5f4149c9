/**
 * The profile model of profiles/models.py: a one-to-one companion record of
 * a user, with the name helpers that read through to the user's fields.
 */
module Profiles {
  import opened Wrappers
  import opened Text
  import Users

  datatype Profile = Profile(user: nat, phoneNumber: Option<string>, bio: string,
                             website: string, location: string, isVerified: bool)

  /** `Profile.__str__`: "Profil " followed by the username. */
  function Str(u: Users.User): (r: string)
    ensures |r| == 7 + |u.username| && r[..7] == "Profil " && r[7..] == u.username
  {
    "Profil " + u.username
  }

  /** Distinct usernames give distinct profile labels. */
  lemma StrInjective(u: Users.User, v: Users.User)
    requires Str(u) == Str(v)
    ensures u.username == v.username
  {
    assert Str(u)[7..] == u.username && Str(v)[7..] == v.username;
  }

  /**
   * `Profile.display_name`: the full name when it is non-empty, otherwise the
   * username. `Profile.full_name` is the same expression as `User.full_name`.
   */
  function DisplayName(u: Users.User): (r: string)
    ensures Users.FullName(u) != "" ==> r == Users.FullName(u)
    ensures Users.FullName(u) == "" ==> r == u.username
    ensures r == "" <==> Users.FullName(u) == "" && u.username == ""
  {
    var full := Users.FullName(u);
    if full != "" then full else u.username
  }

  /** A user with first and last name (the profile tests' "Test" "User") displays as "first last". */
  lemma DisplayNameOfNamedUser(u: Users.User)
    requires u.firstName != "" && u.lastName != ""
    requires Unpadded(u.firstName) && Unpadded(u.lastName)
    ensures DisplayName(u) == u.firstName + " " + u.lastName
  {
    Users.FullNameOfCleanNames(u);
  }

  /** A user without names (the profile tests' "noname") displays as the username. */
  lemma DisplayNameOfNamelessUser(u: Users.User)
    requires u.firstName == "" && u.lastName == ""
    ensures DisplayName(u) == u.username
  {
    Users.FullNameEmpty(u);
  }

  /** The one-to-one constraint on `Profile.user`. */
  predicate OneProfilePerUser(profiles: seq<Profile>) {
    forall i, j :: 0 <= i < j < |profiles| ==> profiles[i].user != profiles[j].user
  }

  datatype ProfileError = ProfileExists

  /** Inserting a profile row; a second profile for the same user breaks the unique constraint. */
  function AddProfile(profiles: seq<Profile>, p: Profile): (r: Result<seq<Profile>, ProfileError>)
    ensures r.Err? <==> exists q :: q in profiles && q.user == p.user
    ensures r.Ok? ==> r.value == profiles + [p]
  {
    if exists q :: q in profiles && q.user == p.user then Err(ProfileExists) else Ok(profiles + [p])
  }

  /** Adding profiles never gives a user two of them. */
  lemma AddProfileKeepsOneToOne(profiles: seq<Profile>, p: Profile)
    requires OneProfilePerUser(profiles)
    requires AddProfile(profiles, p).Ok?
    ensures OneProfilePerUser(AddProfile(profiles, p).value)
  {
    var t := profiles + [p];
    forall i, j | 0 <= i < j < |t| ensures t[i].user != t[j].user {
      if j == |profiles| {
        assert t[i] in profiles;
      }
    }
  }
}
