/** The user service's gRPC handler, holding the account tables it changes.
    Each method takes the steps of its handler in order and returns early on
    the first failure; its postcondition ties the reply and the new tables to
    the functions of module Users. */
module UserHandler {
  import opened Outcomes
  import opened Secrets
  import Users

  class UserServerHandler {
    var users: map<nat, Users.User>
    const roles: map<string, nat>
    var nextId: nat

    /** The tables as one value. */
    function Db(): Users.UserDb
      reads this
    {
      Users.UserDb(users, roles, nextId)
    }

    ghost predicate Valid()
      reads this
    {
      Users.Valid(Db())
    }

    /** An empty users table next to a given roles table. */
    constructor (roles: map<string, nat>)
      ensures Valid() && users == map[] && this.roles == roles
    {
      users := map[];
      this.roles := roles;
      nextId := 1;
    }

    method CreateUser(req: Users.CreateUserRequest, h: Hasher, lookup: Fault, insert: Fault)
      returns (r: Result<nat, Error>)
      requires Valid()
      modifies this
      ensures Valid()
      ensures Step(r, Db()) == Users.CreateUser(old(Db()), req, h, lookup, insert)
    {
      // SELECT id FROM roles WHERE name = $1
      var role := Users.SelectRoleId(roles, Users.DefaultUserRole, lookup);
      if role.Err? {
        return Err(Status(Internal, "failed to get user role"));
      }
      var hashed := h.hash(req.password);
      if hashed.None? {
        return Err(Status(Internal, "failed to process password"));
      }
      // INSERT INTO users (...) VALUES (...) RETURNING id
      if insert.Fails? {
        return Err(Users.ClassifyInsertError(Driver(insert.reason)));
      }
      if Users.EmailInUse(users, req.email) {
        return Err(Users.ClassifyInsertError(UniqueViolation));
      }
      var id := nextId;
      users := users[id := Users.NewUser(req, hashed.value, role.value)];
      nextId := nextId + 1;
      return Ok(id);
    }

    method UpdateUser(req: Users.UpdateUserRequest, h: Hasher, fault: Fault)
      returns (r: Result<Users.UserView, Error>)
      requires Valid()
      modifies this
      ensures Valid()
      ensures Step(r, Db()) == Users.UpdateUser(old(Db()), req, h, fault)
    {
      var digest: Option<Digest> := None;
      if req.password != "" {
        var hashed := h.hash(req.password);
        if hashed.None? {
          return Err(Status(Internal, "failed to process password"));
        }
        digest := hashed;
      }
      // UPDATE users SET ... = COALESCE(...) WHERE id = $1 RETURNING ...
      if fault.Fails? {
        return Err(Users.ClassifyUpdateError(Driver(fault.reason)));
      }
      if req.id !in users {
        return Err(Users.ClassifyUpdateError(NoRows));
      }
      var row := Users.Merge(users[req.id], req, digest);
      if Users.EmailInUse(users - {req.id}, row.email) {
        return Err(Users.ClassifyUpdateError(UniqueViolation));
      }
      Users.ReplaceKeepsEmailsUnique(users, req.id, row);
      users := users[req.id := row];
      return Ok(Users.View(req.id, row));
    }

    method DeleteUser(id: nat, exec: Fault, rowCount: Fault)
      returns (r: Result<(), Error>)
      requires Valid()
      modifies this
      ensures Valid()
      ensures Step(r, Db()) == Users.DeleteUser(old(Db()), id, exec, rowCount)
    {
      // DELETE FROM users WHERE id = $1
      if exec.Fails? {
        return Err(Raw(Driver(exec.reason)));
      }
      var affected := if id in users then 1 else 0;
      users := users - {id};
      if rowCount.Fails? {
        return Err(Raw(Driver(rowCount.reason)));
      }
      if affected == 0 {
        return Err(Status(NotFound, "user not found"));
      }
      return Ok(());
    }
  }
}
