/** The account handlers of the user service as functions of the store's
    state: what each of CreateUser, UpdateUser and DeleteUser replies and
    what the users table holds afterwards. The SQL statements the handlers
    issue are given their meaning over an in-memory table. */
module Users {
  import opened Outcomes
  import opened Secrets

  /** Name of the role every new account receives. */
  const DefaultUserRole: string := "buyer"

  /** A row of the users table; its id is the key it is stored under. */
  datatype User = User(
    firstName: string,
    lastName: string,
    email: string,
    password: Digest,
    phoneNumber: string,
    roleId: nat)

  /** What UpdateUser returns: the updated row, without its password. */
  datatype UserView = UserView(id: nat, email: string, firstName: string, lastName: string, phoneNumber: string)

  datatype CreateUserRequest = CreateUserRequest(
    firstName: string,
    lastName: string,
    email: string,
    password: string,
    phoneNumber: string)

  /** An empty string in any field means "leave this field as it is". */
  datatype UpdateUserRequest = UpdateUserRequest(
    id: nat,
    email: string,
    password: string,
    firstName: string,
    lastName: string,
    phoneNumber: string)

  /** The account tables: users by id, the roles lookup (only read here) and
      the sequence that hands out user ids. */
  datatype UserDb = UserDb(users: map<nat, User>, roles: map<string, nat>, nextId: nat)

  predicate EmailInUse(users: map<nat, User>, email: string) {
    exists id :: id in users && users[id].email == email
  }

  ghost predicate EmailsUnique(users: map<nat, User>) {
    forall i, j :: i in users && j in users && users[i].email == users[j].email ==> i == j
  }

  /** What the store guarantees: ids come from a sequence that starts at 1,
      and no two users share an email (the unique constraint). */
  ghost predicate Valid(db: UserDb) {
    && 1 <= db.nextId
    && (forall id :: id in db.users ==> 1 <= id < db.nextId)
    && EmailsUnique(db.users)
  }

  /** Rewriting one row keeps emails unique when no other row holds its new email. */
  lemma ReplaceKeepsEmailsUnique(users: map<nat, User>, id: nat, row: User)
    requires EmailsUnique(users) && !EmailInUse(users - {id}, row.email)
    ensures EmailsUnique(users[id := row])
  {
    forall k | k in users && k != id
      ensures users[k].email != row.email
    {
      assert k in users - {id};
    }
    var after := users[id := row];
    forall i, j | i in after && j in after && after[i].email == after[j].email
      ensures i == j
    {
      if i != id && j != id {
        assert users[i].email == users[j].email;
      }
    }
  }

  function View(id: nat, u: User): UserView {
    UserView(id, u.email, u.firstName, u.lastName, u.phoneNumber)
  }

  // ----- SQL building blocks -----

  /** `SELECT id FROM roles WHERE name = $1`, scanned into one value. */
  function SelectRoleId(roles: map<string, nat>, name: string, fault: Fault): Result<nat, DbError> {
    if fault.Fails? then Err(Driver(fault.reason))
    else if name !in roles then Err(NoRows)
    else Ok(roles[name])
  }

  /** SQL `NULLIF(x, y)`. */
  function NullIf(x: string, y: string): Option<string> {
    if x == y then None else Some(x)
  }

  /** SQL `COALESCE(o, d)`. */
  function Coalesce<T>(o: Option<T>, d: T): T {
    match o
    case Some(v) => v
    case None => d
  }

  /** `COALESCE(NULLIF($n, ''), column)`: the empty string keeps what is stored. */
  function KeepIfEmpty(requested: string, stored: string): (r: string)
    ensures requested != "" ==> r == requested
    ensures requested == "" ==> r == stored
    ensures r == "" ==> requested == "" && stored == ""
  {
    Coalesce(NullIf(requested, ""), stored)
  }

  /** The row the coalescing UPDATE writes over `u`; `digest` is the `$3`
      parameter, None when no new password was given. */
  function Merge(u: User, req: UpdateUserRequest, digest: Option<Digest>): (v: User)
    ensures v.roleId == u.roleId
    ensures v.password == (if digest.Some? then digest.value else u.password)
    ensures v.email == (if req.email == "" then u.email else req.email)
    ensures v.firstName == (if req.firstName == "" then u.firstName else req.firstName)
    ensures v.lastName == (if req.lastName == "" then u.lastName else req.lastName)
    ensures v.phoneNumber == (if req.phoneNumber == "" then u.phoneNumber else req.phoneNumber)
  {
    User(
      KeepIfEmpty(req.firstName, u.firstName),
      KeepIfEmpty(req.lastName, u.lastName),
      KeepIfEmpty(req.email, u.email),
      Coalesce(digest, u.password),
      KeepIfEmpty(req.phoneNumber, u.phoneNumber),
      u.roleId)
  }

  // ----- error classification -----

  /** How CreateUser reports a failed INSERT. */
  function ClassifyInsertError(e: DbError): (err: Error)
    ensures err.Status?
    ensures err.code == AlreadyExists <==> e == UniqueViolation
    ensures err.code == AlreadyExists ==> err.message == "email already exists"
    ensures err.code != AlreadyExists ==> err == Status(Internal, "failed to create user")
  {
    if e == UniqueViolation then Status(AlreadyExists, "email already exists")
    else Status(Internal, "failed to create user")
  }

  /** How UpdateUser reports a failed UPDATE ... RETURNING. */
  function ClassifyUpdateError(e: DbError): (err: Error)
    ensures err.Status? <==> e == NoRows
    ensures e == NoRows ==> err == Status(NotFound, "user not found")
    ensures e != NoRows ==> err == Raw(e)
  {
    if e == NoRows then Status(NotFound, "user not found") else Raw(e)
  }

  // ----- the handlers -----

  /** True when the role lookup of CreateUser finds a row. */
  predicate RoleFound(db: UserDb, lookup: Fault) {
    SelectRoleId(db.roles, DefaultUserRole, lookup).Ok?
  }

  /** The row CreateUser inserts. */
  function NewUser(req: CreateUserRequest, digest: Digest, roleId: nat): User {
    User(req.firstName, req.lastName, req.email, digest, req.phoneNumber, roleId)
  }

  /** CreateUser: look up the default role, hash the password, insert the row. */
  function CreateUser(db: UserDb, req: CreateUserRequest, h: Hasher, lookup: Fault, insert: Fault): (s: Step<UserDb, nat>)
    requires Valid(db)
    ensures Valid(s.state) && s.state.roles == db.roles
    ensures s.result.Err? ==> s.state == db
    ensures s.result == Err(Status(Internal, "failed to get user role")) <==> !RoleFound(db, lookup)
    ensures s.result == Err(Status(Internal, "failed to process password"))
      <==> RoleFound(db, lookup) && h.hash(req.password).None?
    ensures s.result == Err(Status(Internal, "failed to create user"))
      <==> RoleFound(db, lookup) && h.hash(req.password).Some? && insert.Fails?
    ensures s.result == Err(Status(AlreadyExists, "email already exists"))
      <==> RoleFound(db, lookup) && h.hash(req.password).Some? && insert.Healthy? && EmailInUse(db.users, req.email)
    ensures s.result.Ok?
      <==> RoleFound(db, lookup) && h.hash(req.password).Some? && insert.Healthy? && !EmailInUse(db.users, req.email)
    ensures s.result.Ok? ==>
      && 1 <= s.result.value && s.result.value !in db.users
      && s.state.users == db.users[s.result.value := NewUser(req, h.hash(req.password).value, db.roles[DefaultUserRole])]
  {
    match SelectRoleId(db.roles, DefaultUserRole, lookup)
    case Err(_) => Step(Err(Status(Internal, "failed to get user role")), db)
    case Ok(roleId) =>
      match h.hash(req.password)
      case None => Step(Err(Status(Internal, "failed to process password")), db)
      case Some(digest) =>
        if insert.Fails? then
          Step(Err(ClassifyInsertError(Driver(insert.reason))), db)
        else if EmailInUse(db.users, req.email) then
          Step(Err(ClassifyInsertError(UniqueViolation)), db)
        else
          var id := db.nextId;
          Step(Ok(id), db.(users := db.users[id := NewUser(req, digest, roleId)], nextId := id + 1))
  }

  /** The `$3` parameter of UpdateUser's statement: a fresh digest when a
      password is given, nil otherwise. */
  function NewDigest(h: Hasher, password: string): Option<Digest> {
    if password == "" then None else h.hash(password)
  }

  /** True when UpdateUser fails to hash the password it was given. */
  predicate HashFails(h: Hasher, password: string) {
    password != "" && h.hash(password).None?
  }

  /** UpdateUser: hash a new password if one is given, then one coalescing
      UPDATE ... RETURNING on the row with the requested id. */
  function UpdateUser(db: UserDb, req: UpdateUserRequest, h: Hasher, fault: Fault): (s: Step<UserDb, UserView>)
    requires Valid(db)
    ensures Valid(s.state) && s.state.roles == db.roles && s.state.nextId == db.nextId
    ensures s.result.Err? ==> s.state == db
    ensures s.result == Err(Status(Internal, "failed to process password")) <==> HashFails(h, req.password)
    ensures !HashFails(h, req.password) && fault.Fails? ==> s.result == Err(Raw(Driver(fault.reason)))
    ensures s.result == Err(Status(NotFound, "user not found"))
      <==> !HashFails(h, req.password) && fault.Healthy? && req.id !in db.users
    ensures s.result == Err(Raw(UniqueViolation))
      <==> && !HashFails(h, req.password) && fault.Healthy? && req.id in db.users
           && EmailInUse(db.users - {req.id}, Merge(db.users[req.id], req, NewDigest(h, req.password)).email)
    ensures s.result.Ok?
      <==> && !HashFails(h, req.password) && fault.Healthy? && req.id in db.users
           && !EmailInUse(db.users - {req.id}, Merge(db.users[req.id], req, NewDigest(h, req.password)).email)
    ensures s.result.Ok? ==>
      && req.id in db.users
      && s.state.users == db.users[req.id := Merge(db.users[req.id], req, NewDigest(h, req.password))]
      && s.result.value == View(req.id, s.state.users[req.id])
  {
    if HashFails(h, req.password) then
      Step(Err(Status(Internal, "failed to process password")), db)
    else
      var digest := NewDigest(h, req.password);
      if fault.Fails? then
        Step(Err(ClassifyUpdateError(Driver(fault.reason))), db)
      else if req.id !in db.users then
        Step(Err(ClassifyUpdateError(NoRows)), db)
      else
        var row := Merge(db.users[req.id], req, digest);
        if EmailInUse(db.users - {req.id}, row.email) then
          Step(Err(ClassifyUpdateError(UniqueViolation)), db)
        else
          ReplaceKeepsEmailsUnique(db.users, req.id, row);
          Step(Ok(View(req.id, row)), db.(users := db.users[req.id := row]))
  }

  /** DeleteUser: `DELETE FROM users WHERE id = $1`, then the affected-row
      count decides between success and NotFound. */
  function DeleteUser(db: UserDb, id: nat, exec: Fault, rowCount: Fault): (s: Step<UserDb, ()>)
    requires Valid(db)
    ensures Valid(s.state) && s.state.roles == db.roles && s.state.nextId == db.nextId
    ensures exec.Fails? ==> s == Step(Err(Raw(Driver(exec.reason))), db)
    ensures exec.Healthy? ==> s.state.users == db.users - {id}
    ensures exec.Healthy? && rowCount.Fails? ==> s.result == Err(Raw(Driver(rowCount.reason)))
    ensures s.result == Ok(()) <==> exec.Healthy? && rowCount.Healthy? && id in db.users
    ensures s.result == Err(Status(NotFound, "user not found"))
      <==> exec.Healthy? && rowCount.Healthy? && id !in db.users
  {
    if exec.Fails? then
      Step(Err(Raw(Driver(exec.reason))), db)
    else
      var affected := if id in db.users then 1 else 0;
      var after := db.(users := db.users - {id});
      if rowCount.Fails? then Step(Err(Raw(Driver(rowCount.reason))), after)
      else if affected == 0 then Step(Err(Status(NotFound, "user not found")), after)
      else Step(Ok(()), after)
  }

  // ----- properties relating several calls -----

  /** A second account with an email that is already stored is refused as
      AlreadyExists, and the table keeps only the first one. */
  lemma DuplicateEmailConflicts(db: UserDb, first: CreateUserRequest, second: CreateUserRequest, h: Hasher, h2: Hasher)
    requires Valid(db)
    requires CreateUser(db, first, h, Healthy, Healthy).result.Ok?
    requires second.email == first.email && h2.hash(second.password).Some?
    ensures var s1 := CreateUser(db, first, h, Healthy, Healthy);
            CreateUser(s1.state, second, h2, Healthy, Healthy) == Step(Err(Status(AlreadyExists, "email already exists")), s1.state)
  {
    var s1 := CreateUser(db, first, h, Healthy, Healthy);
    var id := s1.result.value;
    assert id in s1.state.users && s1.state.users[id].email == second.email;
  }

  /** The stored digest of a new account verifies against the password it was
      created with and is not that password. */
  lemma CreatedPasswordVerifies(db: UserDb, req: CreateUserRequest, h: Hasher, lookup: Fault, insert: Fault)
    requires Valid(db) && Sound(h)
    requires CreateUser(db, req, h, lookup, insert).result.Ok?
    ensures var s := CreateUser(db, req, h, lookup, insert);
            var stored := s.state.users[s.result.value].password;
            h.verify(stored, req.password) && stored.text != req.password
  {
  }

  /** A password given to UpdateUser replaces the digest by one that verifies
      against it; without one the stored digest stays. */
  lemma UpdatedPasswordVerifies(db: UserDb, req: UpdateUserRequest, h: Hasher, fault: Fault)
    requires Valid(db) && Sound(h)
    requires UpdateUser(db, req, h, fault).result.Ok?
    ensures var after := UpdateUser(db, req, h, fault).state.users[req.id].password;
            && (req.password != "" ==> h.verify(after, req.password) && after.text != req.password)
            && (req.password == "" ==> after == db.users[req.id].password)
  {
  }

  /** An update whose fields are all empty changes nothing and returns the
      stored row. */
  lemma EmptyUpdateKeepsRow(db: UserDb, id: nat, h: Hasher)
    requires Valid(db) && id in db.users
    ensures var u := db.users[id];
            UpdateUser(db, UpdateUserRequest(id, "", "", "", "", ""), h, Healthy) == Step(Ok(View(id, u)), db)
  {
    var req := UpdateUserRequest(id, "", "", "", "", "");
    var u := db.users[id];
    assert Merge(u, req, None) == u;
    assert !EmailInUse(db.users - {id}, u.email);
    assert db.users[id := u] == db.users;
  }

  /** Repeating a successful update with the same request, under any hasher
      `h2` that can hash its password: the reply is the same; with no new
      password the tables are the same, and with one only the stored digest
      changes, to `h2`'s digest, which a sound `h2` verifies against the
      password. */
  lemma UpdateIdempotent(db: UserDb, req: UpdateUserRequest, h: Hasher, h2: Hasher)
    requires Valid(db)
    requires UpdateUser(db, req, h, Healthy).result.Ok?
    requires !HashFails(h2, req.password)
    ensures var s1 := UpdateUser(db, req, h, Healthy);
            var s2 := UpdateUser(s1.state, req, h2, Healthy);
            && s2.result == s1.result
            && (req.password == "" ==> s2.state == s1.state)
            && (req.password != "" ==>
                  && s2.state.roles == s1.state.roles && s2.state.nextId == s1.state.nextId
                  && s2.state.users == s1.state.users[req.id := s1.state.users[req.id].(password := h2.hash(req.password).value)])
            && (req.password != "" && Sound(h2) ==> h2.verify(s2.state.users[req.id].password, req.password))
  {
    var s1 := UpdateUser(db, req, h, Healthy);
    var row := s1.state.users[req.id];
    var row2 := Merge(row, req, NewDigest(h2, req.password));
    assert row2 == if req.password == "" then row else row.(password := h2.hash(req.password).value);
    assert row2.email == row.email;
    assert !EmailInUse(s1.state.users - {req.id}, row.email);
    if req.password == "" {
      assert s1.state.users[req.id := row] == s1.state.users;
    }
  }

  /** Deleting the same id twice: success, then NotFound. */
  lemma DeleteUserTwice(db: UserDb, id: nat)
    requires Valid(db) && id in db.users
    ensures var s1 := DeleteUser(db, id, Healthy, Healthy);
            && s1.result == Ok(())
            && DeleteUser(s1.state, id, Healthy, Healthy) == Step(Err(Status(NotFound, "user not found")), s1.state)
  {
    var s1 := DeleteUser(db, id, Healthy, Healthy);
    assert id !in s1.state.users;
    assert s1.state.users - {id} == s1.state.users;
  }
}
