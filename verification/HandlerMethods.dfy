/**
 * The handlers as they are written: straight sequences of store calls with early returns, on the in-memory store.
 * Each leaves the store and answers as its request does when nothing interrupts it.
 */
module HandlerMethods {
  import opened Wrappers
  import opened Blank
  import opened StoreModel
  import opened StoreInvariants
  import opened Stores
  import opened MemoryStore
  import opened Handlers
  import opened Uninterrupted

  lemma DeletionRefused(check: Check, m: MemState, username: string, id: Id, env: Env)
    requires id > 0
    requires var u := ByName(m, username);
             u.None? || id !in m.sessions || m.sessions[id].userId != u.value.id
    ensures Alone(check, Memory(m), DeleteOne(username, id), env) == (Memory(m), 404)
  {
    DeletionEndsEarly(check, Memory(m), username, id, env);
  }

  lemma DeletionDeletes(check: Check, m: MemState, username: string, id: Id, u: User, env: Env)
    requires MemInv(m) && id > 0 && ByName(m, username) == Some(u) && id in m.sessions && m.sessions[id].userId == u.id
    ensures Alone(check, Memory(m), DeleteOne(username, id), env) == (Memory(MemDeleteSession(m, id).0), 204)
  {
    DeletionReachesWrite(check, Memory(m), username, id, u, env);
  }

  lemma LoginRefused(check: Check, m: MemState, username: string, password: string, env: Env)
    requires !IsBlank(username) && !IsBlank(password)
    requires var u := ByName(m, username); u.None? || !check(u.value.passwordHash, password)
    ensures Alone(check, Memory(m), Login(username, password), env) == (Memory(m), 401)
  {
    LoginEndsEarly(check, Memory(m), username, password, env);
    if u :| ByName(m, username) == Some(u) { LoginReachesWrite(check, Memory(m), username, password, u, env); }
  }

  lemma LoginCreates(check: Check, m: MemState, username: string, password: string, u: User, env: Env)
    requires !IsBlank(username) && !IsBlank(password)
    requires ByName(m, username) == Some(u) && check(u.passwordHash, password)
    ensures var (m', reply) := MemCreateSession(m, u.id, u.username, u.role, SessionTtl(env.hours), env.token, env.now);
            Alone(check, Memory(m), Login(username, password), env) == (Memory(m'), if reply.Failed? then 500 else 200)
  {
    LoginReachesWrite(check, Memory(m), username, password, u, env);
  }

  class AuthHandler {
    const store: InMemoryStore
    const check: Check

    constructor (store: InMemoryStore, check: Check)
      ensures this.store == store && this.check == check
    {
      this.store, this.check := store, check;
    }

    /** The user lookup every handler of a logged-in user begins with. */
    method Lookup(username: string) returns (found: Option<UserObject>)
      requires store.Valid()
      ensures found.Some? <==> ByName(store.State(), username).Some?
      ensures found.Some? ==>
        && ByName(store.State(), username).value == found.value.Value()
        && found.value.id in store.users && store.users[found.value.id] == found.value
    {
      var r := store.GetUserByUsername(username);
      if r.Failure? { return None; }
      FoundByName(store.State(), username, r.value.id);
      found := Some(r.value);
    }

    method LoginHandler(username: string, password: string, env: Env) returns (status: nat)
      requires store.Valid()
      modifies store
      ensures store.Valid()
      ensures (Memory(store.State()), status)
           == Alone(check, Memory(old(store.State())), Login(username, password), env)
    {
      if IsBlank(username) || IsBlank(password) {
        LoginEndsEarly(check, Memory(store.State()), username, password, env);
        return 400;
      }
      var found := Lookup(username);
      if found.None? || !check(found.value.passwordHash, password) {
        LoginRefused(check, store.State(), username, password, env);
        return 401;
      }
      var user := found.value;
      LoginCreates(check, store.State(), username, password, user.Value(), env);
      var session := store.CreateSession(user.id, user.username, user.role, SessionTtl(env.hours), env.token, env.now);
      if session.Failure? { return 500; }
      status := 200;
    }

    method DeleteSessionHandler(username: string, id: Id, env: Env) returns (status: nat)
      requires store.Valid()
      modifies store
      ensures store.Valid()
      ensures (Memory(store.State()), status) == Alone(check, Memory(old(store.State())), DeleteOne(username, id), env)
      ensures status != 500
    {
      if id <= 0 {
        DeletionEndsEarly(check, Memory(store.State()), username, id, env);
        return 400;
      }
      var found := Lookup(username);
      if found.None? {
        DeletionRefused(check, store.State(), username, id, env);
        return 404;
      }
      var session := store.GetSessionByID(id);
      if session.Failure? || session.value.userId != found.value.id {
        DeletionRefused(check, store.State(), username, id, env);
        return 404;
      }
      DeletionDeletes(check, store.State(), username, id, found.value.Value(), env);
      var deleted := store.DeleteSession(id);
      if deleted.Failure? { assert false; }  // only another request in between makes the answer 500
      status := 204;
    }

    method DeleteAllSessionsHandler(username: string, keepToken: string, env: Env) returns (status: nat)
      requires store.Valid()
      modifies store
      ensures store.Valid()
      ensures (Memory(store.State()), status)
           == Alone(check, Memory(old(store.State())), DeleteAll(username, keepToken), env)
    {
      if keepToken == "" { return 400; }
      DeleteAllReachesWrite(check, Memory(store.State()), username, keepToken, env);
      var found := Lookup(username);
      if found.None? { return 404; }
      store.DeleteSessionsByUserID(found.value.id, keepToken);
      status := 204;
    }

    method PasswordChangeHandler(username: string, current: string, new_: string, newHash: string, env: Env)
      returns (status: nat)
      requires store.Valid()
      modifies store.users.Values
      ensures store.Valid()
      ensures (Memory(store.State()), status)
           == Alone(check, Memory(old(store.State())), ChangePassword(username, current, new_, newHash), env)
      ensures status != 500
    {
      PasswordEndsEarly(check, Memory(store.State()), username, current, new_, newHash, env);
      if IsBlank(current) || IsBlank(new_) { return 400; }
      var found := Lookup(username);
      if found.None? { return 404; }
      var user := found.value;
      if !check(user.passwordHash, current) { return 401; }
      PasswordReachesWrite(check, Memory(store.State()), username, current, new_, newHash, user.Value(), env);
      OwnNameIsFree(store.State(), user.id);
      var updated := store.UpdateUser(user.id, user.username, newHash, user.role, env.now);
      if updated.Failure? { assert false; }  // only another request in between makes the answer 500
      status := 200;
    }

    method CreateUserHandler(username: string, password: string, hash: string, role: string, env: Env)
      returns (status: nat)
      requires store.Valid()
      modifies store
      ensures store.Valid()
      ensures (Memory(store.State()), status)
           == Alone(check, Memory(old(store.State())), NewUser(username, password, hash, role), env)
    {
      CreationAlone(check, Memory(store.State()), username, password, hash, role, env);
      if IsBlank(username) || IsBlank(password) || IsBlank(role) { return 400; }
      if !ValidRole(role) { return 400; }
      var created := store.CreateUser(username, hash, role, env.now);
      if created.Failure? { return 409; }  // the store has no other error
      status := 201;
    }

    /** The write that ends an edit that has passed all its guards. */
    method WriteEdit(id: Id, username: string, hash: string, role: string, ghost edit: Edit, env: Env)
      returns (status: nat)
      requires store.Valid() && id > 0 && id in store.users && (edit.role.Some? ==> ValidRole(edit.role.value))
      requires username == Or(edit.username, store.users[id].username)
      requires hash == Or(edit.hash, store.users[id].passwordHash) && role == Or(edit.role, store.users[id].role)
      modifies store.users[id]
      ensures store.Valid()
      ensures (Memory(store.State()), status) == Alone(check, Memory(old(store.State())), EditUser(id, edit), env)
    {
      EditReachesWrite(check, Memory(store.State()), id, edit, env);
      var updated := store.UpdateUser(id, username, hash, role, env.now);
      if updated.Failure? { return 409; }  // the user is there, so the name is taken
      status := 200;
    }

    method UpdateUserHandler(id: Id, edit: Edit, env: Env) returns (status: nat)
      requires store.Valid()
      modifies if id in store.users then {store.users[id]} else {}
      ensures store.Valid()
      ensures (Memory(store.State()), status) == Alone(check, Memory(old(store.State())), EditUser(id, edit), env)
    {
      EditEndsEarly(check, Memory(store.State()), id, edit, env);
      if id <= 0 { return 400; }
      var existing := store.GetUser(id);
      if existing.Failure? { return 404; }
      var existingUser := existing.value;
      var updatedUsername := existingUser.username;
      var updatedPasswordHash := existingUser.passwordHash;
      var updatedRole := existingUser.role;
      if edit.username.Some? { updatedUsername := edit.username.value; }
      if edit.role.Some? {
        if !ValidRole(edit.role.value) { return 400; }
        updatedRole := edit.role.value;
      }
      if edit.hash.Some? { updatedPasswordHash := edit.hash.value; }
      status := WriteEdit(id, updatedUsername, updatedPasswordHash, updatedRole, edit, env);
    }

    method DeleteUserHandler(id: Id, env: Env) returns (status: nat)
      requires store.Valid()
      modifies store
      ensures store.Valid()
      ensures (Memory(store.State()), status) == Alone(check, Memory(old(store.State())), RemoveUser(id), env)
    {
      RemovalAlone(check, Memory(store.State()), id, env);
      if id <= 0 { return 400; }
      var deleted := store.DeleteUser(id);
      if deleted.Failure? { return 404; }  // the store has no other error
      status := 204;
    }
  }
}
