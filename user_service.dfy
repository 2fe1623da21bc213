/** Registration, authentication and the user-table operations the service passes through. */
module UserServices {
  import opened Wrappers
  import opened Model
  import opened UserRepo

  class UserService {
    const userRepository: UserRepository

    ghost predicate Valid()
      reads this, userRepository
    {
      userRepository.Valid()
    }

    constructor (userRepository: UserRepository)
      ensures this.userRepository == userRepository
    {
      this.userRepository := userRepository;
    }

    /**
     * register as written: it first looks the username up, and that lookup
     * fails for a name that is not stored, so a new user is refused with the
     * lookup's "not found" error; a stored name is refused as already
     * existing. The call that would store the user is never reached, so
     * nothing changes.
     */
    method Register(user: User) returns (r: Result<User, UserError>)
      requires Valid()
      ensures r.Err?
      ensures user.username !in userRepository.users ==> r.error == UnknownUser(user.username)
      ensures user.username in userRepository.users ==> r.error == UserAlreadyExists
    {
      var found := userRepository.GetUserByUsername(user.username);
      if found.Err? {
        return Err(found.error);
      }
      // The lookup never yields null, so the null test always reports an existing user.
      return Err(UserAlreadyExists);
    }

    /**
     * The stored user when the username is stored and its password matches;
     * a missing user and a wrong password both give "Invalid credentials".
     */
    function Authenticate(username: string, password: string): (r: Result<User, UserError>)
      reads this, userRepository
      requires Valid()
      ensures r.Ok? <==> username in userRepository.users && userRepository.users[username].password == password
      ensures r.Ok? ==> r.value == userRepository.users[username]
      ensures r.Err? ==> r.error == InvalidCredentials
    {
      match userRepository.GetUserByUsername(username)
      case Err(_) => Err(InvalidCredentials)
      case Ok(user) => if user.password == password then Ok(user) else Err(InvalidCredentials)
    }

    /** createUser: the repository's effect and error. */
    method CreateUser(user: User) returns (r: Outcome<UserError>)
      requires Valid()
      modifies userRepository
      ensures Valid()
      ensures r.Pass? <==> user.username !in old(userRepository.users)
      ensures r.Fail? ==> r.error == UserAlreadyExists && userRepository.users == old(userRepository.users)
      ensures r.Pass? ==> userRepository.users == old(userRepository.users)[user.username := user]
    {
      r := userRepository.CreateUser(user);
    }

    /** deleteUser: the repository's effect and error. */
    method DeleteUser(username: string) returns (r: Outcome<UserError>)
      requires Valid()
      modifies userRepository
      ensures Valid()
      ensures r.Pass? <==> username in old(userRepository.users)
      ensures r.Fail? ==> r.error == UserNotFound && userRepository.users == old(userRepository.users)
      ensures r.Pass? ==> userRepository.users == old(userRepository.users) - {username}
    {
      r := userRepository.DeleteUser(username);
    }

    /** updateUser: the repository's effect and error, old key kept. */
    method UpdateUser(username: string, user: User) returns (r: Outcome<UserError>)
      requires Valid()
      modifies userRepository
      ensures Valid()
      ensures r.Pass? <==> username in old(userRepository.users)
      ensures r.Fail? ==> r.error == UserNotFound && userRepository.users == old(userRepository.users)
      ensures r.Pass? ==> userRepository.users == old(userRepository.users)[user.username := user]
      ensures r.Pass? && user.username != username ==>
                username in userRepository.users && userRepository.users[username] == old(userRepository.users)[username]
    {
      r := userRepository.UpdateUser(username, user);
    }
  }
}
