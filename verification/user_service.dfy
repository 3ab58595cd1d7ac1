/** The user registry: registration with a unique email and a hashed password, partial
    update of the fields a request explicitly sets, and deletion. */
module UserService {
  import opened Results

  type Id = int

  /** The role a registered user gets. */
  const USER_ROLE: string := "user"

  datatype User = User(
    email: string,
    hashedPassword: string,
    firstName: Option<string>,
    lastName: Option<string>,
    role: string,
    isActive: bool)

  /** The users table and the id sequence new keys are drawn from. */
  datatype Registry = Registry(users: map<Id, User>, nextId: Id)

  /** The registration payload. */
  datatype UserCreate = UserCreate(email: string, password: string, firstName: Option<string>, lastName: Option<string>)

  /** A field of an update payload: absent, or explicitly set (possibly to null). */
  datatype Field<T> = Unset | Set(value: T)

  /** An update payload; only the fields it explicitly sets are written. */
  datatype UserUpdate = UserUpdate(email: Field<string>, firstName: Field<Option<string>>, lastName: Field<Option<string>>)

  /** The value of `f` where it is set, else `current`. */
  function Apply<T>(f: Field<T>, current: T): (v: T)
    ensures f.Set? ==> v == f.value
    ensures f.Unset? ==> v == current
  {
    if f.Set? then f.value else current
  }

  /** No two users share an email: the table's unique constraint. */
  predicate EmailsUnique(reg: Registry)
  {
    forall a, b :: a in reg.users && b in reg.users && a != b ==> reg.users[a].email != reg.users[b].email
  }

  /** Every key was drawn from the id sequence and emails are unique. */
  predicate Valid(reg: Registry)
  {
    && (forall k :: k in reg.users ==> k < reg.nextId)
    && EmailsUnique(reg)
  }

  /** Some user other than `except` holds `email`. */
  predicate EmailTaken(reg: Registry, email: string, except: Option<Id>)
  {
    exists k :: k in reg.users && reg.users[k].email == email && except != Some(k)
  }

  /** Registers a user with the hash of the password, role "user", active; an email
      already registered fails 400 and stores nothing. */
  function CreateUser(reg: Registry, data: UserCreate, hash: string -> string): (r: Result<(Registry, Id)>)
    ensures r.Fail? <==> exists k :: k in reg.users && reg.users[k].email == data.email
    ensures r.Fail? ==> r.error == BadRequest
    ensures r.Ok? ==>
      var (reg', k) := r.value;
      && reg'.users.Keys == reg.users.Keys + {k}
      && reg'.users[k] == User(data.email, hash(data.password), data.firstName, data.lastName, USER_ROLE, true)
      && (forall j :: j in reg.users && j != k ==> reg'.users[j] == reg.users[j])
  {
    if EmailTaken(reg, data.email, None) then Fail(BadRequest)
    else
      var k := reg.nextId;
      var user := User(data.email, hash(data.password), data.firstName, data.lastName, USER_ROLE, true);
      Ok((Registry(reg.users[k := user], k + 1), k))
  }

  /** Registration takes a fresh id and keeps the registry valid, and a second
      registration with the same email is refused. */
  lemma CreateUserPreservesValid(reg: Registry, data: UserCreate, other: UserCreate, hash: string -> string)
    requires Valid(reg)
    requires CreateUser(reg, data, hash).Ok?
    requires other.email == data.email
    ensures var (reg', k) := CreateUser(reg, data, hash).value;
      && k !in reg.users
      && Valid(reg')
      && CreateUser(reg', other, hash) == Fail(BadRequest)
  {
    var (reg', k) := CreateUser(reg, data, hash).value;
    assert reg'.users[k].email == other.email;
  }

  /** Writes the fields the payload sets. An unknown id fails 404; an email held by
      another user violates the unique constraint at commit and fails 500. */
  function UpdateUser(reg: Registry, id: Id, patch: UserUpdate): (r: Result<Registry>)
    ensures id !in reg.users ==> r == Fail(NotFound)
    ensures r.Ok? <==> id in reg.users && !(patch.email.Set? && EmailTaken(reg, patch.email.value, Some(id)))
    ensures id in reg.users && r.Fail? ==> r.error == ServerError
    ensures r.Ok? ==>
      var u := reg.users[id];
      && r.value.nextId == reg.nextId
      && r.value.users.Keys == reg.users.Keys
      && (forall j :: j in reg.users && j != id ==> r.value.users[j] == reg.users[j])
      && r.value.users[id].email == Apply(patch.email, u.email)
      && r.value.users[id].firstName == Apply(patch.firstName, u.firstName)
      && r.value.users[id].lastName == Apply(patch.lastName, u.lastName)
      && r.value.users[id].hashedPassword == u.hashedPassword
      && r.value.users[id].role == u.role
      && r.value.users[id].isActive == u.isActive
  {
    if id !in reg.users then Fail(NotFound)
    else if patch.email.Set? && EmailTaken(reg, patch.email.value, Some(id)) then Fail(ServerError)
    else
      var u := reg.users[id];
      var u' := u.(email := Apply(patch.email, u.email),
                   firstName := Apply(patch.firstName, u.firstName),
                   lastName := Apply(patch.lastName, u.lastName));
      Ok(reg.(users := reg.users[id := u']))
  }

  /** An update keeps emails unique; an empty payload changes nothing; and applying
      the same payload twice is the same as applying it once. */
  lemma UpdateUserProperties(reg: Registry, id: Id, patch: UserUpdate)
    requires Valid(reg)
    ensures UpdateUser(reg, id, patch).Ok? ==> Valid(UpdateUser(reg, id, patch).value)
    ensures id in reg.users ==> UpdateUser(reg, id, UserUpdate(Unset, Unset, Unset)) == Ok(reg)
    ensures UpdateUser(reg, id, patch).Ok? ==>
      UpdateUser(UpdateUser(reg, id, patch).value, id, patch) == UpdateUser(reg, id, patch)
  {
    if UpdateUser(reg, id, patch).Ok? {
      var reg' := UpdateUser(reg, id, patch).value;
      assert EmailsUnique(reg') by {
        forall a, b | a in reg'.users && b in reg'.users && a != b
          ensures reg'.users[a].email != reg'.users[b].email
        {
          if a == id && patch.email.Set? {
            assert !(reg.users[b].email == patch.email.value && Some(id) != Some(b));
          } else if b == id && patch.email.Set? {
            assert !(reg.users[a].email == patch.email.value && Some(id) != Some(a));
          }
        }
      }
      assert reg'.users[id := reg'.users[id]] == reg'.users;
    }
    if id in reg.users {
      assert reg.users[id := reg.users[id]] == reg.users;
    }
  }

  /** Removes exactly the user `id`; an unknown id fails 404. */
  function DeleteUser(reg: Registry, id: Id): (r: Result<Registry>)
    ensures r.Fail? <==> id !in reg.users
    ensures r.Fail? ==> r.error == NotFound
    ensures r.Ok? ==>
      && r.value.users.Keys == reg.users.Keys - {id}
      && (forall j :: j in r.value.users ==> r.value.users[j] == reg.users[j])
      && r.value.nextId == reg.nextId
  {
    if id !in reg.users then Fail(NotFound)
    else Ok(reg.(users := reg.users - {id}))
  }

  /** Deletion keeps the registry valid, cannot be repeated, frees the email for a
      new registration, and the deleted id is never handed out again. */
  lemma DeleteUserFreesEmail(reg: Registry, id: Id, data: UserCreate, hash: string -> string)
    requires Valid(reg)
    requires id in reg.users
    requires data.email == reg.users[id].email
    ensures var reg' := DeleteUser(reg, id).value;
      && Valid(reg')
      && DeleteUser(reg', id) == Fail(NotFound)
      && UpdateUser(reg', id, UserUpdate(Unset, Unset, Unset)) == Fail(NotFound)
      && CreateUser(reg', data, hash).Ok?
      && CreateUser(reg', data, hash).value.1 != id
  {
  }
}
