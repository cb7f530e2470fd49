/** The user registry (service/UserService.java): registration with a unique email and
    the default USER role, lookups that fail with UserNotFoundException, the password
    check and enabling/disabling an account. */
module Users {
  import opened Wrappers
  import opened Seqs

  datatype Role = Role(id: int, name: string)

  /** One row of the user table with its roles (the user entity's own source file is
      not part of this model; only the fields the services touch are kept). */
  datatype User = User(
    id: int,
    email: string,
    password: string,
    firstName: string,
    lastName: string,
    enabled: bool,
    roles: seq<Role>)

  /** The request body of a registration (`UserRegistrationDto`). */
  datatype Registration = Registration(email: string, password: string, firstName: string, lastName: string)

  /** The exceptions of this service: UserAlreadyExistsException,
      UserNotFoundException (for an email or for an id), and the RuntimeException
      raised when the default role is missing. */
  datatype UserError =
    | UserAlreadyExists(email: string)
    | UserNotFoundByEmail(email: string)
    | UserNotFoundById(id: int)
    | DefaultRoleNotFound

  /** The injected `PasswordEncoder` (BCrypt): both operations are opaque here. */
  datatype PasswordEncoder = PasswordEncoder(encode: string -> string, matches: (string, string) -> bool)

  const DefaultRoleName: string := "USER"

  predicate UniqueEmails(users: seq<User>)
  {
    DistinctBy(users, (u: User) => u.email)
  }

  predicate UniqueUserIds(users: seq<User>)
  {
    DistinctBy(users, (u: User) => u.id)
  }

  /** `userRepository.findByEmail`. */
  function UserWithEmail(users: seq<User>, email: string): (r: Option<User>)
    ensures r.Some? <==> exists u :: u in users && u.email == email
    ensures r.Some? ==> r.value in users && r.value.email == email
  {
    var m := Filter(users, (u: User) => u.email == email);
    if m == [] then None else Some(m[0])
  }

  /** `userRepository.findById`. */
  function UserWithId(users: seq<User>, id: int): (r: Option<User>)
    ensures r.Some? <==> exists u :: u in users && u.id == id
    ensures r.Some? ==> r.value in users && r.value.id == id
  {
    var m := Filter(users, (u: User) => u.id == id);
    if m == [] then None else Some(m[0])
  }

  /** `roleRepository.findByName`. */
  function RoleNamed(roles: seq<Role>, name: string): (r: Option<Role>)
    ensures r.Some? <==> exists x :: x in roles && x.name == name
    ensures r.Some? ==> r.value in roles && r.value.name == name
  {
    var m := Filter(roles, (x: Role) => x.name == name);
    if m == [] then None else Some(m[0])
  }

  /** The table after `save` of an existing user: the row with `u`'s id is replaced by
      `u`, every other row stays as it was and where it was. */
  function ReplaceById(users: seq<User>, u: User): (r: seq<User>)
    ensures |r| == |users|
    ensures forall i :: 0 <= i < |r| ==> r[i] == if users[i].id == u.id then u else users[i]
  {
    if users == [] then []
    else (if users[0].id == u.id then [u] else [users[0]]) + ReplaceById(users[1..], u)
  }

  /** With unique emails, a lookup by email finds the one user holding it. */
  lemma UniqueEmailFindsTheUser(users: seq<User>, u: User)
    requires UniqueEmails(users) && u in users
    ensures UserWithEmail(users, u.email) == Some(u)
  {
    var m := Filter(users, (x: User) => x.email == u.email);
    var k :| 0 <= k < |users| && users[k] == u;
    assert m[0] in users;
    var j :| 0 <= j < |users| && users[j] == m[0];
    assert j == k;
  }

  /** A lookup by id finds the one user with that id. */
  lemma UniqueIdFindsTheUser(users: seq<User>, u: User)
    requires UniqueUserIds(users) && u in users
    ensures UserWithId(users, u.id) == Some(u)
  {
    var m := Filter(users, (x: User) => x.id == u.id);
    var k :| 0 <= k < |users| && users[k] == u;
    assert m[0] in users;
    var j :| 0 <= j < |users| && users[j] == m[0];
    assert j == k;
  }

  /** Replacing a stored user keeps every id below the generator `next`. */
  lemma ReplaceKeepsIdBound(users: seq<User>, u: User, x: User, next: int)
    requires forall v :: v in users ==> v.id < next
    requires x in users && x.id == u.id
    ensures forall v :: v in ReplaceById(users, u) ==> v.id < next
  {
    var r := ReplaceById(users, u);
    forall v | v in r ensures v.id < next {
      var i :| 0 <= i < |r| && r[i] == v;
      assert users[i] in users;
    }
  }

  /** Replacing a row by one with the same id and email keeps ids and emails unique. */
  lemma ReplaceKeepsKeys(users: seq<User>, u: User, x: User)
    requires UniqueEmails(users) && UniqueUserIds(users)
    requires x in users && x.id == u.id && x.email == u.email
    ensures UniqueEmails(ReplaceById(users, u)) && UniqueUserIds(ReplaceById(users, u))
  {
    var r := ReplaceById(users, u);
    var k :| 0 <= k < |users| && users[k] == x;
    forall i, j | 0 <= i < j < |r| ensures r[i].email != r[j].email && r[i].id != r[j].id {
      assert users[i].id == u.id ==> i == k;
      assert users[j].id == u.id ==> j == k;
      assert r[i].email == users[i].email && r[i].id == users[i].id;
      assert r[j].email == users[j].email && r[j].id == users[j].id;
    }
  }

  /** The user table (`UserRepository`, not itself part of this model) as the services
      see it. */
  class UserRepository {
    var users: seq<User>
    var nextId: int

    ghost predicate Valid()
      reads this
    {
      && UniqueEmails(users)
      && UniqueUserIds(users)
      && forall u :: u in users ==> u.id < nextId
    }

    constructor ()
      ensures Valid() && users == []
    {
      users := [];
      nextId := 1;
    }

    /** `save` of a new user: stored under a freshly generated id. */
    method Insert(u: User) returns (saved: User)
      requires Valid() && UserWithEmail(users, u.email).None?
      modifies this
      ensures Valid()
      ensures saved == u.(id := old(nextId))
      ensures users == old(users) + [saved] && nextId == old(nextId) + 1
    {
      saved := u.(id := nextId);
      users := users + [saved];
      nextId := nextId + 1;
    }

    /** `save` of a user already stored, whose email is unchanged. */
    method Update(u: User)
      requires Valid()
      requires exists x :: x in users && x.id == u.id && x.email == u.email
      modifies this`users
      ensures Valid()
      ensures users == ReplaceById(old(users), u)
    {
      var x :| x in users && x.id == u.id && x.email == u.email;
      ReplaceKeepsKeys(users, u, x);
      ReplaceKeepsIdBound(users, u, x, nextId);
      users := ReplaceById(users, u);
    }
  }

  class UserService {
    const repo: UserRepository
    /** The role table (`RoleRepository`), which this service only reads. */
    const roles: seq<Role>
    const encoder: PasswordEncoder

    constructor (repo: UserRepository, roles: seq<Role>, encoder: PasswordEncoder)
      ensures this.repo == repo && this.roles == roles && this.encoder == encoder
    {
      this.repo := repo;
      this.roles := roles;
      this.encoder := encoder;
    }

    /** `findByEmail`: the user with that email, or UserNotFoundException. */
    function FindByEmail(email: string): (r: Result<User, UserError>)
      reads repo
      ensures r.Success? <==> exists u :: u in repo.users && u.email == email
      ensures r.Success? ==> r.value in repo.users && r.value.email == email
      ensures r.Failure? ==> r.error == UserNotFoundByEmail(email)
    {
      match UserWithEmail(repo.users, email)
      case Some(u) => Success(u)
      case None => Failure(UserNotFoundByEmail(email))
    }

    /** `findById`: the user with that id, or UserNotFoundException. */
    function FindById(id: int): (r: Result<User, UserError>)
      reads repo
      ensures r.Success? <==> exists u :: u in repo.users && u.id == id
      ensures r.Success? ==> r.value in repo.users && r.value.id == id
      ensures r.Failure? ==> r.error == UserNotFoundById(id)
    {
      match UserWithId(repo.users, id)
      case Some(u) => Success(u)
      case None => Failure(UserNotFoundById(id))
    }

    /** `validatePassword`: the encoder's verdict on the raw password against the
        stored hash; a wrong password is `false`, never an exception. */
    function ValidatePassword(user: User, rawPassword: string): (r: bool)
      ensures r <==> encoder.matches(rawPassword, user.password)
    {
      encoder.matches(rawPassword, user.password)
    }

    /** `isEmailAvailable`. */
    function IsEmailAvailable(email: string): (r: bool)
      reads repo
      ensures r <==> forall u :: u in repo.users ==> u.email != email
      ensures r <==> FindByEmail(email).Failure?
    {
      UserWithEmail(repo.users, email).None?
    }

    /** `registerUser`: refuses a taken email, then builds an enabled account with the
        encoded password and the default USER role and stores it. */
    method RegisterUser(dto: Registration) returns (r: Result<User, UserError>)
      requires repo.Valid()
      modifies repo
      ensures repo.Valid()
      ensures !old(IsEmailAvailable(dto.email)) ==>
        r == Failure(UserAlreadyExists(dto.email)) && repo.users == old(repo.users)
      ensures old(IsEmailAvailable(dto.email)) && RoleNamed(roles, DefaultRoleName).None? ==>
        r == Failure(DefaultRoleNotFound) && repo.users == old(repo.users)
      ensures r.Success? <==> old(IsEmailAvailable(dto.email)) && RoleNamed(roles, DefaultRoleName).Some?
      ensures r.Success? ==>
        && r.value == User(old(repo.nextId), dto.email, encoder.encode(dto.password),
                           dto.firstName, dto.lastName, true, [RoleNamed(roles, DefaultRoleName).value])
        && repo.users == old(repo.users) + [r.value]
    {
      if UserWithEmail(repo.users, dto.email).Some? {
        return Failure(UserAlreadyExists(dto.email));
      }
      var user := User(0, dto.email, encoder.encode(dto.password), dto.firstName, dto.lastName, true, []);
      var userRole := RoleNamed(roles, DefaultRoleName);
      if userRole.None? {
        return Failure(DefaultRoleNotFound);
      }
      user := user.(roles := user.roles + [userRole.value]);
      var saved := repo.Insert(user);
      return Success(saved);
    }

    /** `disableUser`. */
    method DisableUser(userId: int) returns (r: Result<(), UserError>)
      requires repo.Valid()
      modifies repo`users
      ensures repo.Valid()
      ensures r.Failure? <==> old(FindById(userId)).Failure?
      ensures r.Failure? ==> r.error == UserNotFoundById(userId) && repo.users == old(repo.users)
      ensures r.Success? ==> repo.users == ReplaceById(old(repo.users), old(FindById(userId)).value.(enabled := false))
    {
      r := SetEnabled(userId, false);
    }

    /** `enableUser`. */
    method EnableUser(userId: int) returns (r: Result<(), UserError>)
      requires repo.Valid()
      modifies repo`users
      ensures repo.Valid()
      ensures r.Failure? <==> old(FindById(userId)).Failure?
      ensures r.Failure? ==> r.error == UserNotFoundById(userId) && repo.users == old(repo.users)
      ensures r.Success? ==> repo.users == ReplaceById(old(repo.users), old(FindById(userId)).value.(enabled := true))
    {
      r := SetEnabled(userId, true);
    }

    /** The shared body of `disableUser` and `enableUser`: find, set the flag, save. */
    method SetEnabled(userId: int, flag: bool) returns (r: Result<(), UserError>)
      requires repo.Valid()
      modifies repo`users
      ensures repo.Valid()
      ensures r.Failure? <==> old(FindById(userId)).Failure?
      ensures r.Failure? ==> r.error == UserNotFoundById(userId) && repo.users == old(repo.users)
      ensures r.Success? ==> repo.users == ReplaceById(old(repo.users), old(FindById(userId)).value.(enabled := flag))
    {
      var found := FindById(userId);
      if found.Failure? {
        return Failure(found.error);
      }
      var user := found.value.(enabled := flag);
      repo.Update(user);
      return Success(());
    }
  }

  /** Disabling or enabling changes nothing but the target user's flag: every other row
      is untouched and the target keeps its id, email, password, names and roles. */
  lemma SetEnabledTouchesOnlyTheFlag(users: seq<User>, target: User, flag: bool, i: int)
    requires UniqueUserIds(users) && target in users && 0 <= i < |users|
    ensures users[i] != target ==> ReplaceById(users, target.(enabled := flag))[i] == users[i]
    ensures users[i] == target ==> ReplaceById(users, target.(enabled := flag))[i] == users[i].(enabled := flag)
  {
    var k :| 0 <= k < |users| && users[k] == target;
    assert users[i].id == target.id ==> i == k;
  }
}
