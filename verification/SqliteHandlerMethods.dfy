/**
 * The handlers as they are written, on the SQLite store, as the server runs them.  Each leaves the tables and answers
 * as its request does when nothing interrupts it.  The clock, and the expiry time of a new session, must be times the
 * store can write.
 */
module SqliteHandlerMethods {
  import opened Wrappers
  import opened Blank
  import opened StoreModel
  import opened StoreInvariants
  import opened Stores
  import opened SqliteStore
  import opened Handlers
  import opened Uninterrupted

  // ------------------------------------------------------------------------------------------
  // What the requests come to, in terms of the tables
  // ------------------------------------------------------------------------------------------

  lemma LookedUp(q: SqlState, id: Id)
    requires Sound(q) && id in q.users
    ensures ByName(Seen(q), q.users[id].username) == Some(ReadUser(id, q.users[id]))
  {
    assert Seen(q).users[id] == ReadUser(id, q.users[id]);
    FoundByName(Seen(q), q.users[id].username, id);
  }

  lemma NotFound(q: SqlState, username: string)
    requires !RowNameUsed(q.users, username)
    ensures ByName(Seen(q), username) == None
  {
    SeenNames(q, username, 0);
  }

  lemma LoginCreates(check: Check, q: SqlState, username: string, password: string, u: User, env: Env)
    requires Sound(q) && !IsBlank(username) && !IsBlank(password)
    requires ByName(Seen(q), username) == Some(u) && check(u.passwordHash, password)
    ensures var (q', reply) := SqlCreateSession(q, u.id, u.username, u.role, SessionTtl(env.hours), env.token, env.now);
            && Sound(q')
            && Alone(check, Sqlite(q), Login(username, password), env)
               == (Sqlite(q'), if reply.Failed? then 500 else 200)
  {
    LoginReachesWrite(check, Sqlite(q), username, password, u, env);
    StepSound(q, CreateSession(u.id, u.username, u.role, SessionTtl(env.hours), env.token), env.now);
  }

  lemma LoginRefused(check: Check, q: SqlState, username: string, password: string, env: Env)
    requires !IsBlank(username) && !IsBlank(password)
    requires var u := ByName(Seen(q), username); u.None? || !check(u.value.passwordHash, password)
    ensures Alone(check, Sqlite(q), Login(username, password), env) == (Sqlite(q), 401)
  {
    LoginEndsEarly(check, Sqlite(q), username, password, env);
    if u :| ByName(Seen(q), username) == Some(u) { LoginReachesWrite(check, Sqlite(q), username, password, u, env); }
  }

  lemma DeletionRefused(check: Check, q: SqlState, username: string, id: Id, env: Env)
    requires id > 0
    requires var u := ByName(Seen(q), username);
             u.None? || id !in q.sessions || q.sessions[id].userId != u.value.id
    ensures Alone(check, Sqlite(q), DeleteOne(username, id), env) == (Sqlite(q), 404)
  {
    DeletionEndsEarly(check, Sqlite(q), username, id, env);
    if id in q.sessions { assert Seen(q).sessions[id] == ReadSession(id, q.sessions[id]); }
  }

  lemma DeletionDeletes(check: Check, q: SqlState, username: string, id: Id, u: User, env: Env)
    requires Sound(q) && id > 0 && ByName(Seen(q), username) == Some(u)
    requires id in q.sessions && q.sessions[id].userId == u.id
    ensures var q' := q.(sessions := q.sessions - {id});
            Sound(q') && Alone(check, Sqlite(q), DeleteOne(username, id), env) == (Sqlite(q'), 204)
  {
    assert Seen(q).sessions[id] == ReadSession(id, q.sessions[id]);
    DeletionReachesWrite(check, Sqlite(q), username, id, u, env);
    StepSound(q, DeleteSession(id), env.now);
  }

  lemma DeleteAllDeletes(check: Check, q: SqlState, username: string, keepToken: string, env: Env)
    requires Sound(q) && keepToken != ""
    ensures ByName(Seen(q), username).None? ==>
      Alone(check, Sqlite(q), DeleteAll(username, keepToken), env) == (Sqlite(q), 404)
    ensures ByName(Seen(q), username).Some? ==>
      var q' := q.(sessions := RowsWithoutUser(q.sessions, ByName(Seen(q), username).value.id, keepToken));
      Sound(q') && Alone(check, Sqlite(q), DeleteAll(username, keepToken), env) == (Sqlite(q'), 204)
  {
    DeleteAllReachesWrite(check, Sqlite(q), username, keepToken, env);
    if u :| ByName(Seen(q), username) == Some(u) { StepSound(q, DeleteSessionsByUserID(u.id, keepToken), env.now); }
  }

  lemma PasswordRefused(
    check: Check, q: SqlState, username: string, current: string, new_: string, newHash: string, env: Env)
    requires !IsBlank(current) && !IsBlank(new_)
    requires var u := ByName(Seen(q), username); u.None? || !check(u.value.passwordHash, current)
    ensures Alone(check, Sqlite(q), ChangePassword(username, current, new_, newHash), env)
         == (Sqlite(q), if ByName(Seen(q), username).None? then 404 else 401)
  {
    PasswordEndsEarly(check, Sqlite(q), username, current, new_, newHash, env);
  }

  lemma PasswordUpdates(
    check: Check, q: SqlState, username: string, current: string, new_: string, newHash: string, u: User, env: Env)
    requires Sound(q) && !IsBlank(current) && !IsBlank(new_)
    requires ByName(Seen(q), username) == Some(u) && check(u.passwordHash, current)
    ensures var (q', reply) := SqlUpdateUser(q, u.id, u.username, newHash, u.role, env.now);
            && Sound(q') && reply.UserReply?
            && Alone(check, Sqlite(q), ChangePassword(username, current, new_, newHash), env) == (Sqlite(q'), 200)
  {
    PasswordReachesWrite(check, Sqlite(q), username, current, new_, newHash, u, env);
    StepSound(q, UpdateUser(u.id, u.username, newHash, u.role), env.now);
    var k :| k in Seen(q).users && Seen(q).users[k] == u;
    OwnNameIsFree(Seen(q), k);
    SeenNames(q, u.username, u.id);
  }

  lemma CreationCreates(
    check: Check, q: SqlState, username: string, password: string, hash: string, role: string, env: Env)
    requires Sound(q) && !IsBlank(username) && !IsBlank(password) && !IsBlank(role) && ValidRole(role)
    ensures var (q', reply) := SqlCreateUser(q, username, hash, role, env.now);
            && Sound(q')
            && Alone(check, Sqlite(q), NewUser(username, password, hash, role), env)
               == (Sqlite(q'), if reply.Failed? then 409 else 201)
  {
    CreationAlone(check, Sqlite(q), username, password, hash, role, env);
    StepSound(q, CreateUser(username, hash, role), env.now);
  }

  lemma EditUpdates(check: Check, q: SqlState, id: Id, edit: Edit, env: Env)
    requires Sound(q) && id > 0 && id in q.users && (edit.role.Some? ==> ValidRole(edit.role.value))
    ensures var row := q.users[id];
            var (q', reply) := SqlUpdateUser(
              q, id, Or(edit.username, row.username), Or(edit.hash, row.passwordHash), Or(edit.role, row.role),
              env.now);
            && Sound(q')
            && Alone(check, Sqlite(q), EditUser(id, edit), env) == (Sqlite(q'), if reply.Failed? then 409 else 200)
  {
    var row := q.users[id];
    assert Seen(q).users[id] == ReadUser(id, row);
    EditReachesWrite(check, Sqlite(q), id, edit, env);
    StepSound(q, UpdateUser(id, Or(edit.username, row.username), Or(edit.hash, row.passwordHash),
                            Or(edit.role, row.role)), env.now);
  }

  lemma RemovalDeletes(check: Check, q: SqlState, id: Id, env: Env)
    requires Sound(q) && id > 0
    ensures var q' := if id in q.users then q.(users := q.users - {id}) else q;
            && Sound(q')
            && Alone(check, Sqlite(q), RemoveUser(id), env) == (Sqlite(q'), if id in q.users then 204 else 404)
  {
    RemovalAlone(check, Sqlite(q), id, env);
    StepSound(q, DeleteUser(id), env.now);
  }

  // ------------------------------------------------------------------------------------------
  // The handlers
  // ------------------------------------------------------------------------------------------

  class AuthHandler {
    const store: SQLiteStore
    const check: Check

    constructor (store: SQLiteStore, check: Check)
      ensures this.store == store && this.check == check
    {
      this.store, this.check := store, check;
    }

    /** The text of the instant has a four-digit year. */
    predicate CanWrite(t: int) { Covers(store.codec, Trunc(t)) }

    /** When a session opened now is over. */
    function Expiry(env: Env): int { env.now + SessionTtl(env.hours) }

    method Lookup(username: string) returns (found: Option<User>)
      requires store.Valid() && Sound(store.table)
      ensures found == ByName(Seen(store.table), username)
    {
      var r := store.GetUserByUsername(username);
      if r.Failure? {
        NotFound(store.table, username);
        return None;
      }
      LookedUp(store.table, r.value.id);
      found := Some(r.value);
    }

    /** The store call that ends a login, and its answer. */
    method OpenSession(u: User, ttl: int, ghost expires: int, env: Env) returns (status: nat)
      requires store.Valid() && CanWrite(env.now) && CanWrite(expires) && expires == env.now + ttl
      modifies store
      ensures store.Valid()
      ensures var (q, reply) := SqlCreateSession(old(store.table), u.id, u.username, u.role, ttl, env.token, env.now);
              store.table == q && status == if reply.Failed? then 500 else 200
    {
      var session := store.CreateSession(u.id, u.username, u.role, ttl, env.token, env.now);
      if session.Failure? { return 500; }
      status := 200;
    }

    method LoginHandler(username: string, password: string, env: Env) returns (status: nat)
      requires store.Valid() && Sound(store.table) && CanWrite(env.now) && CanWrite(Expiry(env))
      modifies store
      ensures store.Valid() && Sound(store.table)
      ensures (Sqlite(store.table), status) == Alone(check, Sqlite(old(store.table)), Login(username, password), env)
    {
      if IsBlank(username) || IsBlank(password) {
        LoginEndsEarly(check, Sqlite(store.table), username, password, env);
        return 400;
      }
      var found := Lookup(username);
      if found.None? || !check(found.value.passwordHash, password) {
        LoginRefused(check, store.table, username, password, env);
        return 401;
      }
      LoginCreates(check, store.table, username, password, found.value, env);
      status := OpenSession(found.value, SessionTtl(env.hours), Expiry(env), env);
    }

    method DeleteSessionHandler(username: string, id: Id, env: Env) returns (status: nat)
      requires store.Valid() && Sound(store.table)
      modifies store
      ensures store.Valid() && Sound(store.table)
      ensures (Sqlite(store.table), status) == Alone(check, Sqlite(old(store.table)), DeleteOne(username, id), env)
      ensures status != 500
    {
      if id <= 0 {
        DeletionEndsEarly(check, Sqlite(store.table), username, id, env);
        return 400;
      }
      var found := Lookup(username);
      if found.None? {
        DeletionRefused(check, store.table, username, id, env);
        return 404;
      }
      var session := store.GetSessionByID(id);
      if session.Failure? || session.value.userId != found.value.id {
        DeletionRefused(check, store.table, username, id, env);
        return 404;
      }
      DeletionDeletes(check, store.table, username, id, found.value, env);
      var deleted := store.DeleteSession(id);
      if deleted.Failure? { assert false; }  // only another request in between makes the answer 500
      status := 204;
    }

    method DeleteAllSessionsHandler(username: string, keepToken: string, env: Env) returns (status: nat)
      requires store.Valid() && Sound(store.table)
      modifies store
      ensures store.Valid() && Sound(store.table)
      ensures (Sqlite(store.table), status)
           == Alone(check, Sqlite(old(store.table)), DeleteAll(username, keepToken), env)
    {
      if keepToken == "" { return 400; }
      DeleteAllDeletes(check, store.table, username, keepToken, env);
      var found := Lookup(username);
      if found.None? { return 404; }
      store.DeleteSessionsByUserID(found.value.id, keepToken);
      status := 204;
    }

    method PasswordChangeHandler(username: string, current: string, new_: string, newHash: string, env: Env)
      returns (status: nat)
      requires store.Valid() && Sound(store.table) && CanWrite(env.now)
      modifies store
      ensures store.Valid() && Sound(store.table)
      ensures (Sqlite(store.table), status)
           == Alone(check, Sqlite(old(store.table)), ChangePassword(username, current, new_, newHash), env)
      ensures status != 500
    {
      if IsBlank(current) || IsBlank(new_) {
        PasswordEndsEarly(check, Sqlite(store.table), username, current, new_, newHash, env);
        return 400;
      }
      var found := Lookup(username);
      if found.None? || !check(found.value.passwordHash, current) {
        PasswordRefused(check, store.table, username, current, new_, newHash, env);
        return if found.None? then 404 else 401;
      }
      var user := found.value;
      PasswordUpdates(check, store.table, username, current, new_, newHash, user, env);
      var updated := store.UpdateUser(user.id, user.username, newHash, user.role, env.now);
      if updated.Failure? { assert false; }  // only another request in between makes the answer 500
      status := 200;
    }

    method CreateUserHandler(username: string, password: string, hash: string, role: string, env: Env)
      returns (status: nat)
      requires store.Valid() && Sound(store.table) && CanWrite(env.now)
      modifies store
      ensures store.Valid() && Sound(store.table)
      ensures (Sqlite(store.table), status)
           == Alone(check, Sqlite(old(store.table)), NewUser(username, password, hash, role), env)
    {
      if IsBlank(username) || IsBlank(password) || IsBlank(role) || !ValidRole(role) {
        CreationAlone(check, Sqlite(store.table), username, password, hash, role, env);
        return 400;
      }
      CreationCreates(check, store.table, username, password, hash, role, env);
      var created := store.CreateUser(username, hash, role, env.now);
      if created.Failure? { return 409; }  // the store has no other error
      status := 201;
    }

    method UpdateUserHandler(id: Id, edit: Edit, env: Env) returns (status: nat)
      requires store.Valid() && Sound(store.table) && CanWrite(env.now)
      modifies store
      ensures store.Valid() && Sound(store.table)
      ensures (Sqlite(store.table), status) == Alone(check, Sqlite(old(store.table)), EditUser(id, edit), env)
    {
      EditEndsEarly(check, Sqlite(store.table), id, edit, env);
      if id <= 0 { return 400; }
      var existing := store.GetUser(id);
      if existing.Failure? { return 404; }
      var existingUser := existing.value;
      var updatedUsername := existingUser.username;
      var updatedPasswordHash := existingUser.passwordHash;
      var updatedRole := existingUser.role;
      if edit.username.Some? { updatedUsername := edit.username.value; }
      if edit.role.Some? {
        if !ValidRole(edit.role.value) { return 400; }
        updatedRole := edit.role.value;
      }
      if edit.hash.Some? { updatedPasswordHash := edit.hash.value; }
      EditUpdates(check, store.table, id, edit, env);
      var updated := store.UpdateUser(id, updatedUsername, updatedPasswordHash, updatedRole, env.now);
      if updated.Failure? { return 409; }  // the user is there, so the name is taken
      status := 200;
    }

    method DeleteUserHandler(id: Id, env: Env) returns (status: nat)
      requires store.Valid() && Sound(store.table)
      modifies store
      ensures store.Valid() && Sound(store.table)
      ensures (Sqlite(store.table), status) == Alone(check, Sqlite(old(store.table)), RemoveUser(id), env)
    {
      if id <= 0 {
        RemovalAlone(check, Sqlite(store.table), id, env);
        return 400;
      }
      RemovalDeletes(check, store.table, id, env);
      var deleted := store.DeleteUser(id);
      if deleted.Failure? { return 404; }  // the store has no other error
      status := 204;
    }
  }
}
