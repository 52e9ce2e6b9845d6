/** The login table: a fixed array of users with a count of the occupied
    slots, and the user currently logged in (newbank.c, `users`, `userCount`,
    `currentUser`, `initializeUsers`, `login`, `addUser`). */
module Users {

  /** The table holds at most this many users (`users[10]`). */
  const MaxUsers: nat := 10

  datatype User = User(username: string, password: string, isAdmin: bool)

  /** The zero-filled record a global starts with. */
  const NoUser := User("", "", false)

  /** Position of the first user from position `k` on that `Matches`, or -1. */
  function FirstFrom(users: seq<User>, username: string, password: string, byPassword: bool, k: nat): (i: int)
    requires k <= |users|
    ensures i == -1 || (k <= i < |users| && Matches(users[i], username, password, byPassword))
    decreases |users| - k
  {
    if k == |users| then -1
    else if Matches(users[k], username, password, byPassword) then k
    else FirstFrom(users, username, password, byPassword, k + 1)
  }

  /** A user has the name, and the password too when `byPassword` is set. */
  predicate Matches(user: User, username: string, password: string, byPassword: bool) {
    user.username == username && (byPassword ==> user.password == password)
  }

  /** The first user with this name, or -1 (the duplicate check of `addUser`). */
  function NameIndex(users: seq<User>, username: string): (i: int)
    ensures -1 <= i < |users|
    ensures 0 <= i ==> users[i].username == username
  {
    FirstFrom(users, username, "", false, 0)
  }

  /** The first user with this name and this password, or -1 (the scan of `login`). */
  function LoginIndex(users: seq<User>, username: string, password: string): (i: int)
    ensures -1 <= i < |users|
    ensures 0 <= i ==> users[i].username == username && users[i].password == password
  {
    FirstFrom(users, username, password, true, 0)
  }

  /** The scan finds nothing exactly when no user from `k` on matches, and it
      skips only users that do not match. */
  lemma {:induction false} FirstFromSpec(users: seq<User>, username: string, password: string, byPassword: bool, k: nat)
    requires k <= |users|
    ensures FirstFrom(users, username, password, byPassword, k) == -1 <==>
              forall j :: k <= j < |users| ==> !Matches(users[j], username, password, byPassword)
    ensures forall j :: k <= j < FirstFrom(users, username, password, byPassword, k) ==>
              !Matches(users[j], username, password, byPassword)
    decreases |users| - k
  {
    if k < |users| && !Matches(users[k], username, password, byPassword) {
      FirstFromSpec(users, username, password, byPassword, k + 1);
    }
  }

  /** No two users share a name. */
  ghost predicate UniqueNames(users: seq<User>) {
    forall i, j :: 0 <= i < j < |users| ==> users[i].username != users[j].username
  }

  /** With unique names, a login succeeds exactly when the one user with that
      name has that password, and it then picks that user. */
  lemma LoginByName(users: seq<User>, username: string, password: string)
    requires UniqueNames(users)
    ensures var k := NameIndex(users, username);
      LoginIndex(users, username, password) == if k != -1 && users[k].password == password then k else -1
  {
    FirstFromSpec(users, username, "", false, 0);
    FirstFromSpec(users, username, password, true, 0);
  }

  /** The users `initializeUsers` installs. */
  const InitialUsers := [User("admin", "admin123", true), User("user", "user123", false)]

  /** The table `users`, `userCount` and `currentUser`. */
  class UserTable {
    var users: array<User>
    var userCount: nat
    var currentUser: User

    ghost predicate Valid()
      reads this
    {
      users.Length == MaxUsers && userCount <= MaxUsers
    }

    /** The occupied prefix of the table. */
    function Registered(): (r: seq<User>)
      reads this, users
      requires Valid()
      ensures |r| == userCount
    {
      users[..userCount]
    }

    /** The zero-filled globals followed by `initializeUsers`. */
    constructor ()
      ensures Valid() && fresh(users)
      ensures Registered() == InitialUsers && UniqueNames(Registered())
      ensures currentUser == NoUser
    {
      users := new User[MaxUsers](_ => NoUser);
      currentUser := NoUser;
      new;
      users[0] := InitialUsers[0];
      users[1] := InitialUsers[1];
      userCount := 2;
      assert users[..userCount] == InitialUsers;
    }

    /** `login`: the first user whose name and password both match becomes the
        current user and its admin flag is returned; otherwise nothing changes
        and `isAdmin` keeps the caller's value. */
    method Login(username: string, password: string, isAdminIn: bool) returns (ok: bool, isAdmin: bool)
      requires Valid()
      modifies this
      ensures Valid() && users == old(users) && userCount == old(userCount)
      ensures var k := LoginIndex(Registered(), username, password);
        && (ok <==> k != -1)
        && (ok ==> isAdmin == Registered()[k].isAdmin && currentUser == User(username, password, isAdmin))
        && (!ok ==> isAdmin == isAdminIn && currentUser == old(currentUser))
    {
      FirstFromSpec(Registered(), username, password, true, 0);
      var i := 0;
      while i < userCount
        invariant 0 <= i <= userCount
        invariant forall j :: 0 <= j < i ==> !Matches(users[j], username, password, true)
      {
        if users[i].username == username && users[i].password == password {
          assert Registered()[i] == users[i];
          isAdmin := users[i].isAdmin;
          currentUser := User(username, password, isAdmin);
          return true, isAdmin;
        }
        i := i + 1;
      }
      return false, isAdminIn;
    }

    /** `addUser`: refuses when the table is full or the name is taken,
        otherwise appends the user. */
    method AddUser(username: string, password: string, isAdmin: bool) returns (added: bool)
      requires Valid()
      modifies this, users
      ensures Valid() && users == old(users) && currentUser == old(currentUser)
      ensures added <==> old(userCount) < MaxUsers && NameIndex(old(Registered()), username) == -1
      ensures added ==> Registered() == old(Registered()) + [User(username, password, isAdmin)]
      ensures !added ==> Registered() == old(Registered()) && userCount == old(userCount)
      ensures UniqueNames(old(Registered())) ==> UniqueNames(Registered())
    {
      if userCount >= MaxUsers {
        return false;
      }
      FirstFromSpec(Registered(), username, "", false, 0);
      var i := 0;
      while i < userCount
        invariant 0 <= i <= userCount
        invariant forall j :: 0 <= j < i ==> users[j].username != username
      {
        if users[i].username == username {
          assert Registered()[i] == users[i];
          return false;
        }
        i := i + 1;
      }
      users[userCount] := User(username, password, isAdmin);
      userCount := userCount + 1;
      assert users[..userCount] == old(users[..userCount]) + [User(username, password, isAdmin)];
      added := true;
    }
  }
}
