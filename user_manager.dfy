/** The account registry (`UserManager`): an in-memory list of users whose
    names are matched ignoring case, and the name of the logged-in user. */
module UserManagement {
  import opened Outcomes
  import opened Strings
  import opened Enums
  import opened Lists
  import opened Users

  /** `user.getUsername().equalsIgnoreCase(username)`. */
  predicate Named(u: User, username: string) {
    EqualsIgnoreCase(u.username, username)
  }

  /** The position of the first user named `username` ignoring case. */
  function FirstNamed(users: seq<User>, username: string): (r: Option<nat>)
    ensures r.None? <==> forall j :: 0 <= j < |users| ==> !Named(users[j], username)
    ensures r.Some? ==> r.value < |users| && Named(users[r.value], username) &&
                        forall j :: 0 <= j < r.value ==> !Named(users[j], username)
  {
    if users == [] then None
    else if Named(users[0], username) then Some(0)
    else
      match FirstNamed(users[1..], username)
      case None => None
      case Some(k) => Some(k + 1)
  }

  /** No two users share a name ignoring case. */
  ghost predicate UniqueNames(users: seq<User>) {
    forall i, j :: 0 <= i < j < |users| ==> !EqualsIgnoreCase(users[i].username, users[j].username)
  }

  /** The users `removeIf` keeps. */
  function NotNamed(username: string): User -> bool {
    (u: User) => !Named(u, username)
  }

  /** Equality ignoring case is an equivalence. */
  lemma EqualsIgnoreCaseEquivalence(a: string, b: string, c: string)
    ensures EqualsIgnoreCase(a, a)
    ensures EqualsIgnoreCase(a, b) ==> EqualsIgnoreCase(b, a)
    ensures EqualsIgnoreCase(a, b) && EqualsIgnoreCase(b, c) ==> EqualsIgnoreCase(a, c)
  {
    LowerEqualIffEqualsIgnoreCase(a, a);
    LowerEqualIffEqualsIgnoreCase(a, b);
    LowerEqualIffEqualsIgnoreCase(b, a);
    LowerEqualIffEqualsIgnoreCase(b, c);
    LowerEqualIffEqualsIgnoreCase(a, c);
  }

  /** With unique names, any user matching a name is the first match: the
      lookups by the name typed at login find the user who logged in. */
  lemma UniqueNameIsFirstMatch(users: seq<User>, i: nat, username: string)
    requires UniqueNames(users) && i < |users| && Named(users[i], username)
    ensures FirstNamed(users, username) == Some(i)
  {
    var r := FirstNamed(users, username);
    if r != Some(i) {
      var k := r.value;
      assert k < i;
      EqualsIgnoreCaseEquivalence(users[k].username, username, users[i].username);
      EqualsIgnoreCaseEquivalence(username, users[i].username, users[i].username);
    }
  }

  /** A name that `signUp` accepted is found again, at the end. */
  lemma SignedUpIsFound(users: seq<User>, u: User, username: string)
    requires FirstNamed(users, username).None? && u.username == username
    ensures FirstNamed(users + [u], username) == Some(|users|)
  {
    EqualsIgnoreCaseEquivalence(username, username, username);
    var all := users + [u];
    var r := FirstNamed(all, username);
    assert Named(all[|users|], username);
    assert forall j :: 0 <= j < |users| ==> all[j] == users[j];
  }

  /** Appending a user whose name no stored user has keeps names unique. */
  lemma SignUpKeepsNamesUnique(users: seq<User>, u: User)
    requires UniqueNames(users) && FirstNamed(users, u.username).None?
    ensures UniqueNames(users + [u])
  {
    var all := users + [u];
    forall i, j | 0 <= i < j < |all|
      ensures !EqualsIgnoreCase(all[i].username, all[j].username)
    {
      if j == |users| {
        assert !Named(users[i], u.username);
      } else {
        assert all[i] == users[i] && all[j] == users[j];
      }
    }
  }

  /** After `removeIf`, nobody of that name is left, and everyone else is. */
  lemma RemovedNameIsGone(users: seq<User>, username: string)
    ensures FirstNamed(Filter(users, NotNamed(username)), username).None?
    ensures forall j :: 0 <= j < |users| && !Named(users[j], username) ==>
              users[j] in Filter(users, NotNamed(username))
  {
    var kept := Filter(users, NotNamed(username));
    forall j | 0 <= j < |kept| ensures !Named(kept[j], username) {
      assert NotNamed(username)(kept[j]);
    }
  }

  class UserManager {
    var users: seq<User>
    /** The name as typed at the last successful login; `None` when nobody
        is logged in. */
    var currentUser: Option<string>

    constructor ()
      ensures users == [] && currentUser == None
    {
      users := [];
      currentUser := None;
    }

    /** `signUp`: refuses a name that some user has ignoring case; otherwise
        appends a new user with the given details. */
    method SignUp(username: string, password: string, role: Role) returns (ok: bool)
      modifies this
      ensures ok <==> FirstNamed(old(users), username).None?
      ensures !ok ==> users == old(users)
      ensures ok ==> |users| == |old(users)| + 1 && users[..|old(users)|] == old(users) &&
                     fresh(users[|old(users)|]) &&
                     users[|old(users)|].username == username &&
                     users[|old(users)|].password == password &&
                     users[|old(users)|].role == role
      ensures currentUser == old(currentUser)
      ensures old(UniqueNames(users)) ==> UniqueNames(users)
    {
      for i := 0 to |users|
        invariant users == old(users) && currentUser == old(currentUser)
        invariant forall j :: 0 <= j < i ==> !Named(users[j], username)
      {
        if EqualsIgnoreCase(users[i].username, username) {
          return false;
        }
      }
      var user := new User(username, password, role);
      if UniqueNames(users) {
        SignUpKeepsNamesUnique(users, user);
      }
      users := users + [user];
      assert users[..|old(users)|] == old(users);
      ok := true;
    }

    /** `login`: succeeds with the first user whose name matches ignoring
        case and whose password is exactly the one given, and then records
        the name as typed. */
    method Login(username: string, password: string) returns (ok: bool)
      modifies this
      ensures ok <==> exists i :: 0 <= i < |users| && Named(users[i], username) &&
                                  users[i].password == password
      ensures ok ==> currentUser == Some(username)
      ensures !ok ==> currentUser == old(currentUser)
      ensures users == old(users)
    {
      for i := 0 to |users|
        invariant users == old(users) && currentUser == old(currentUser)
        invariant forall j :: 0 <= j < i ==> !(Named(users[j], username) && users[j].password == password)
      {
        if EqualsIgnoreCase(users[i].username, username) && users[i].password == password {
          currentUser := Some(username);
          assert Named(users[i], username) && users[i].password == password;
          return true;
        }
      }
      return false;
    }

    /** `logout`: nobody is logged in afterwards. */
    method Logout()
      modifies this
      ensures currentUser == None && users == old(users)
    {
      currentUser := None;
    }

    /** `getUserRole`: the role of the first user named `username` ignoring
        case, or none. */
    method GetUserRole(username: string) returns (r: Option<Role>)
      ensures FirstNamed(users, username).None? ==> r.None?
      ensures FirstNamed(users, username).Some? ==> r == Some(users[FirstNamed(users, username).value].role)
    {
      for i := 0 to |users|
        invariant forall j :: 0 <= j < i ==> !Named(users[j], username)
      {
        if EqualsIgnoreCase(users[i].username, username) {
          return Some(users[i].role);
        }
      }
      return None;
    }

    /** `getCurrentUserRole`: none when nobody is logged in, otherwise the
        role looked up by the name as typed at login. */
    method GetCurrentUserRole() returns (r: Option<Role>)
      ensures currentUser.None? ==> r.None?
      ensures currentUser.Some? && FirstNamed(users, currentUser.value).None? ==> r.None?
      ensures currentUser.Some? && FirstNamed(users, currentUser.value).Some? ==>
                r == Some(users[FirstNamed(users, currentUser.value).value].role)
    {
      if currentUser.None? {
        return None;
      }
      r := GetUserRole(currentUser.value);
    }

    /** `findUserByUsername`: the first user named `username` ignoring case,
        or none. */
    method FindUserByUsername(username: string) returns (r: Option<User>)
      ensures r.None? <==> FirstNamed(users, username).None?
      ensures r.Some? ==> r.value == users[FirstNamed(users, username).value]
    {
      for i := 0 to |users|
        invariant forall j :: 0 <= j < i ==> !Named(users[j], username)
      {
        if EqualsIgnoreCase(users[i].username, username) {
          return Some(users[i]);
        }
      }
      return None;
    }

    /** `removeUser`: drops every user named `username` ignoring case, keeps
        the others in order, and says whether any was dropped; the logged-in
        name is left as it is. */
    method RemoveUser(username: string) returns (removed: bool)
      modifies this
      ensures users == Filter(old(users), NotNamed(username))
      ensures removed <==> FirstNamed(old(users), username).Some?
      ensures removed <==> |users| < |old(users)|
      ensures currentUser == old(currentUser)
    {
      var kept: seq<User> := [];
      removed := false;
      for i := 0 to |users|
        invariant users == old(users) && currentUser == old(currentUser)
        invariant kept == Filter(users[..i], NotNamed(username))
        invariant removed <==> exists j :: 0 <= j < i && Named(users[j], username)
        invariant removed <==> |kept| < i
      {
        FilterStep(users, i, NotNamed(username));
        if EqualsIgnoreCase(users[i].username, username) {
          removed := true;
        } else {
          kept := kept + [users[i]];
        }
      }
      TakeAll(users);
      users := kept;
    }
  }
}
