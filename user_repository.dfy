/** The user table: users keyed by username, changed in place. */
module UserRepo {
  import opened Wrappers
  import opened Model
  import Sets

  /** Why a user operation was refused. */
  datatype UserError =
    | UnknownUser(username: string)   // lookup: "User <username> not found"
    | UserAlreadyExists               // create and register: "User already exists"
    | UserNotFound                    // delete and update: "User not found"
    | InvalidCredentials              // authenticate: "Invalid credentials"

  class UserRepository {
    var users: map<string, User>

    /**
     * Every user is stored under its own username. A renaming update leaves
     * the old key behind, still mapping to the user that was stored there.
     */
    ghost predicate Valid()
      reads this
    {
      forall name :: name in users ==> users[name].username == name
    }

    constructor ()
      ensures Valid() && users == map[]
    {
      users := map[];
    }

    /** All stored users, one per username, in an unspecified order. */
    method GetAllUsers() returns (r: seq<User>)
      requires Valid()
      ensures forall u :: u in r ==> u.username in users && users[u.username] == u
      ensures forall name :: name in users ==> users[name] in r
      ensures |r| == |users|
    {
      r := [];
      var rest := users.Keys;
      while rest != {}
        invariant rest <= users.Keys
        invariant forall u :: u in r ==> u.username in users && users[u.username] == u && u.username !in rest
        invariant forall name :: name in users && name !in rest ==> users[name] in r
        invariant |r| + |rest| == |users|
        decreases |rest|
      {
        Sets.HasName(rest);
        var name :| name in rest;
        r := r + [users[name]];
        rest := rest - {name};
      }
    }

    /** The user stored under username, or the "not found" error naming it. */
    function GetUserByUsername(username: string): (r: Result<User, UserError>)
      reads this
      requires Valid()
      ensures r.Ok? <==> username in users
      ensures r.Ok? ==> r.value == users[username] && r.value.username == username
      ensures r.Err? ==> r.error == UnknownUser(username)
    {
      if username !in users then Err(UnknownUser(username)) else Ok(users[username])
    }

    /** Adds a user under its username, which must not be taken yet. */
    method CreateUser(user: User) returns (r: Outcome<UserError>)
      requires Valid()
      modifies this
      ensures Valid()
      ensures r.Pass? <==> user.username !in old(users)
      ensures r.Fail? ==> r.error == UserAlreadyExists && users == old(users)
      ensures r.Pass? ==> users == old(users)[user.username := user]
    {
      if user.username in users {
        return Fail(UserAlreadyExists);
      }
      users := users[user.username := user];
      r := Pass;
    }

    /** Removes the user stored under username, which must be present. */
    method DeleteUser(username: string) returns (r: Outcome<UserError>)
      requires Valid()
      modifies this
      ensures Valid()
      ensures r.Pass? <==> username in old(users)
      ensures r.Fail? ==> r.error == UserNotFound && users == old(users)
      ensures r.Pass? ==> users == old(users) - {username}
    {
      if username !in users {
        return Fail(UserNotFound);
      }
      users := users - {username};
      r := Pass;
    }

    /**
     * Requires `username` to be stored, then stores `user` under user's own
     * username. The entry under `username` is not removed, so after a change
     * of username both keys remain.
     */
    method UpdateUser(username: string, user: User) returns (r: Outcome<UserError>)
      requires Valid()
      modifies this
      ensures Valid()
      ensures r.Pass? <==> username in old(users)
      ensures r.Fail? ==> r.error == UserNotFound && users == old(users)
      ensures r.Pass? ==> users == old(users)[user.username := user]
      ensures r.Pass? && user.username != username ==> username in users && users[username] == old(users)[username]
    {
      if username !in users {
        return Fail(UserNotFound);
      }
      users := users[user.username := user];
      r := Pass;
    }
  }
}
