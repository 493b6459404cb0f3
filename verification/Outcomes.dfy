/**
 * What every request is answered, and what it does to the store, said of what is stored.  `Finish` is what its last
 * store call does, whatever has happened before; `Alone` is what it comes to uninterrupted.
 */
module Outcomes {
  import opened Wrappers
  import opened Blank
  import opened StoreModel
  import opened StoreInvariants
  import opened Stores
  import opened Handlers
  import opened Uninterrupted

  ghost predicate Nobody(m: MemState, username: string) {
    forall k :: k in m.users ==> m.users[k].username != username
  }

  ghost predicate TakenByOther(m: MemState, username: string, id: Id) {
    exists k :: k in m.users && k != id && m.users[k].username == username
  }

  /** In any world that is the request's last step. */
  lemma LastStep(check: Check, w: World, r: nat, env: Env)
    requires r < |w.requests| && Change(w.requests[r], env).Some?
    ensures var w', (s', status) := Apply(check, w, Advance(r, env)), Finish(w.store, w.requests[r], env);
            w'.store == s' && r < |w'.requests| && w'.requests[r] == Answered(status)
  {
    Others(check, w, Advance(r, env), r);
  }

  // ------------------------------------------------------------------------------------------
  // The last store call
  // ------------------------------------------------------------------------------------------

  /** The session a login opens ends exactly its time to live after the reading of the clock.  The in-memory store
      refuses only a time to live that is not positive, SQLite only a token that is in use. */
  lemma LoginWrites(s: Store, u: User, env: Env)
    ensures var outcome, ttl := Finish(s, LoginCreate(u), env), SessionTtl(env.hours);
            match s
            case Memory(m) =>
              var id := m.nextSessionId;
              var session := Session(id, u.id, u.username, u.role, env.token, env.now, env.now + ttl);
              outcome == if ttl <= 0 then (s, 500)
                         else (Memory(m.(sessions := m.sessions[id := session], nextSessionId := id + 1)), 200)
            case Sqlite(q) =>
              var id, created, expires := q.sessionSeq + 1, env.now / 1_000_000_000, (env.now + ttl) / 1_000_000_000;
              var row := SessionRow(u.id, u.username, u.role, env.token, created, expires);
              outcome == if exists k :: k in q.sessions && q.sessions[k].token == env.token then (s, 500)
                         else (Sqlite(q.(sessions := q.sessions[id := row], sessionSeq := id)), 200)
  {
    var ttl := SessionTtl(env.hours);
    match s
    case Memory(m) => SessionExactly(m, u.id, u.username, u.role, ttl, env.token, env.now);
    case Sqlite(q) => SessionRowExactly(q, u.id, u.username, u.role, ttl, env.token, env.now);
  }

  /** Exactly one user is rewritten; it keeps its ID and creation time. */
  ghost predicate Rewritten(m: MemState, id: Id, username: string, hash: string, role: string, now: int, m': MemState) {
    && id in m.users && id in m'.users && m' == m.(users := m.users[id := m'.users[id]])
    && var updatedAt := m'.users[id].updatedAt;
       && m'.users[id] == User(id, username, hash, role, m.users[id].createdAt, updatedAt)
       && updatedAt / 1_000_000_000 == now / 1_000_000_000
  }

  lemma UpdateDoes(s: Store, id: Id, username: string, hash: string, role: string, now: int)
    requires MemInv(View(s))
    ensures var (s', reply) := Do(s, UpdateUser(id, username, hash, role), now);
            if id !in View(s).users then (s', reply) == (s, Failed(UserNotFound))
            else if TakenByOther(View(s), username, id) then (s', reply) == (s, Failed(UsernameTaken))
            else reply.UserReply? && Rewritten(View(s), id, username, hash, role, now, View(s'))
  {
    DoEffect(s, UpdateUser(id, username, hash, role), now);
    DoDetails(s, UpdateUser(id, username, hash, role), now);
  }

  /** So the status of a request that ends with an update is one of three. */
  lemma UpdateEnds(s: Store, q: Request, env: Env, op: Op)
    requires MemInv(View(s)) && op.UpdateUser? && Change(q, env) == Some(op)
    ensures var (s', status) := Finish(s, q, env);
            if op.id !in View(s).users then s' == s && status == Status(Failed(UserNotFound), q)
            else if TakenByOther(View(s), op.username, op.id) then s' == s && status == Status(Failed(UsernameTaken), q)
            else status == Ok(q) && Rewritten(View(s), op.id, op.username, op.passwordHash, op.role, env.now, View(s'))
  {
    UpdateDoes(s, op.id, op.username, op.passwordHash, op.role, env.now);
  }

  lemma PasswordWrites(s: Store, u: User, newHash: string, env: Env)
    requires MemInv(View(s))
    ensures var (s', status) := Finish(s, ChangePasswordWrite(u, newHash), env);
            if u.id !in View(s).users || TakenByOther(View(s), u.username, u.id) then (s', status) == (s, 500)
            else status == 200 && Rewritten(View(s), u.id, u.username, newHash, u.role, env.now, View(s'))
  {
    UpdateEnds(s, ChangePasswordWrite(u, newHash), env, UpdateUser(u.id, u.username, newHash, u.role));
  }

  /** A field is stored as asked for, or else as the request has read it. */
  lemma EditWrites(s: Store, u: User, edit: Edit, env: Env)
    requires MemInv(View(s))
    ensures var (s', status) := Finish(s, EditUserWrite(u, edit), env);
            var username := if edit.username.Some? then edit.username.value else u.username;
            var hash := if edit.hash.Some? then edit.hash.value else u.passwordHash;
            var role := if edit.role.Some? then edit.role.value else u.role;
            if u.id !in View(s).users then (s', status) == (s, 500)
            else if TakenByOther(View(s), username, u.id) then (s', status) == (s, 409)
            else status == 200 && Rewritten(View(s), u.id, username, hash, role, env.now, View(s'))
  {
    var username, hash, role := Or(edit.username, u.username), Or(edit.hash, u.passwordHash), Or(edit.role, u.role);
    UpdateEnds(s, EditUserWrite(u, edit), env, UpdateUser(u.id, username, hash, role));
  }

  lemma DeleteOneWrites(s: Store, userId: Id, session: Session, env: Env)
    requires MemInv(View(s))
    ensures var (s', status) := Finish(s, DeleteOneRemove(userId, session), env);
            var m := View(s);
            if session.id !in m.sessions then (s', status) == (s, 500)
            else status == 204 && View(s') == m.(sessions := m.sessions - {session.id})
  {
    DoEffect(s, DeleteSession(session.id), env.now);
  }

  lemma DeleteAllWrites(s: Store, userId: Id, keepToken: string, env: Env, k: Id)
    requires MemInv(View(s))
    ensures var (s', status) := Finish(s, DeleteAllRemove(userId, keepToken), env);
            var m, m' := View(s), View(s');
            && status == 204 && m' == m.(sessions := m'.sessions)
            && (k in m'.sessions <==>
                  k in m.sessions && (m.sessions[k].userId != userId || m.sessions[k].token == keepToken))
            && (k in m'.sessions ==> m'.sessions[k] == m.sessions[k])
  {
    DoEffect(s, DeleteSessionsByUserID(userId, keepToken), env.now);
    WithoutUserMeans(View(s).sessions, userId, keepToken, k);
  }

  // ------------------------------------------------------------------------------------------
  // Whole requests
  // ------------------------------------------------------------------------------------------

  lemma NobodyByName(m: MemState, username: string)
    ensures Nobody(m, username) <==> ByName(m, username).None?
  {
  }

  /** 400, 401, or what opening the session comes to. */
  lemma LoginOutcome(check: Check, s: Store, username: string, password: string, id: Id, env: Env)
    requires MemInv(View(s))
    ensures var outcome, m := Alone(check, s, Login(username, password), env), View(s);
            && (IsBlank(username) || IsBlank(password) ==> outcome == (s, 400))
            && (!IsBlank(username) && !IsBlank(password) ==>
                  && (Nobody(m, username) ==> outcome == (s, 401))
                  && (id in m.users && m.users[id].username == username ==>
                        outcome == if check(m.users[id].passwordHash, password)
                                   then Finish(s, LoginCreate(m.users[id]), env) else (s, 401)))
  {
    var m := View(s);
    LoginEndsEarly(check, s, username, password, env);
    NobodyByName(m, username);
    if !IsBlank(username) && !IsBlank(password) && id in m.users && m.users[id].username == username {
      FoundByName(m, username, id);
      LoginFinishes(check, s, username, password, m.users[id], env);
    }
  }

  /** Unless SESSION_TTL is a positive number a session lasts 24 hours, and otherwise as many hours. */
  lemma LoginLasts(check: Check, m: MemState, password: string, id: Id, env: Env)
    requires MemInv(m) && id in m.users && check(m.users[id].passwordHash, password)
    requires !IsBlank(m.users[id].username) && !IsBlank(password)
    requires env.hours.Some? ==> env.hours.value <= 2_562_047
    ensures var u, (s', status) := m.users[id], Alone(check, Memory(m), Login(m.users[id].username, password), env);
            var seconds := if env.hours.Some? && env.hours.value > 0 then env.hours.value * 3_600 else 86_400;
            var ends := env.now + seconds * 1_000_000_000;
            && status == 200 && m.nextSessionId in View(s').sessions && m.nextSessionId !in m.sessions
            && View(s').sessions[m.nextSessionId]
            == Session(m.nextSessionId, id, u.username, u.role, env.token, env.now, ends)
  {
    LoginOutcome(check, Memory(m), m.users[id].username, password, id, env);
    LoginWrites(Memory(m), m.users[id], env);
    SessionTtlMeans(env.hours);
  }

  /** Likewise with SQLite, to the second. */
  lemma LoginLastsSqlite(check: Check, q: SqlState, password: string, id: Id, env: Env)
    requires MemInv(Seen(q)) && id in q.users && check(q.users[id].passwordHash, password)
    requires !IsBlank(q.users[id].username) && !IsBlank(password)
    requires env.hours.Some? ==> env.hours.value <= 2_562_047
    requires forall k :: k in q.sessions ==> q.sessions[k].token != env.token
    ensures var u, (s', status) := q.users[id], Alone(check, Sqlite(q), Login(q.users[id].username, password), env);
            var seconds := if env.hours.Some? && env.hours.value > 0 then env.hours.value * 3_600 else 86_400;
            var second := env.now / 1_000_000_000;
            && status == 200 && s'.Sqlite? && q.sessionSeq + 1 in s'.sql.sessions
            && s'.sql.sessions[q.sessionSeq + 1]
            == SessionRow(id, u.username, u.role, env.token, second, second + seconds)
  {
    assert Seen(q).users[id] == ReadUser(id, q.users[id]);
    LoginOutcome(check, Sqlite(q), q.users[id].username, password, id, env);
    RowLasts(q, ReadUser(id, q.users[id]), env);
  }

  lemma RowLasts(q: SqlState, u: User, env: Env)
    requires env.hours.Some? ==> env.hours.value <= 2_562_047
    requires forall k :: k in q.sessions ==> q.sessions[k].token != env.token
    ensures var (s', status) := Finish(Sqlite(q), LoginCreate(u), env);
            var seconds := if env.hours.Some? && env.hours.value > 0 then env.hours.value * 3_600 else 86_400;
            var second := env.now / 1_000_000_000;
            && status == 200 && s'.Sqlite? && q.sessionSeq + 1 in s'.sql.sessions
            && s'.sql.sessions[q.sessionSeq + 1]
            == SessionRow(u.id, u.username, u.role, env.token, second, second + seconds)
  {
    var seconds := if env.hours.Some? && env.hours.value > 0 then env.hours.value * 3_600 else 86_400;
    LoginWrites(Sqlite(q), u, env);
    SessionTtlMeans(env.hours);
    SecondsLater(env.now, seconds);
  }

  lemma SecondsLater(t: int, seconds: int)
    ensures (t + seconds * 1_000_000_000) / 1_000_000_000 == t / 1_000_000_000 + seconds
  {
  }

  /** Listing sessions changes nothing and finds no fault but that there is no such user. */
  lemma SessionsOutcome(check: Check, s: Store, username: string, env: Env)
    ensures Alone(check, s, Sessions(username), env)
         == (s, if exists k :: k in View(s).users && View(s).users[k].username == username then 200 else 404)
  {
    AloneLooks(check, s, Sessions(username), env);
    NobodyByName(View(s), username);
    if ByName(View(s), username).Some? {
      AloneLooks(check, s, SessionsList(ByName(View(s), username).value.id), env);
    }
  }

  lemma DeleteOneOutcome(check: Check, s: Store, username: string, owner: Id, id: Id, env: Env)
    requires MemInv(View(s))
    ensures var outcome, m := Alone(check, s, DeleteOne(username, id), env), View(s);
            && (id <= 0 ==> outcome == (s, 400))
            && (id > 0 && Nobody(m, username) ==> outcome == (s, 404))
            && (id > 0 && owner in m.users && m.users[owner].username == username ==>
                  if id !in m.sessions || m.sessions[id].userId != owner then outcome == (s, 404)
                  else outcome.1 == 204 && View(outcome.0) == m.(sessions := m.sessions - {id}))
  {
    var m := View(s);
    DeletionEndsEarly(check, s, username, id, env);
    NobodyByName(m, username);
    if id > 0 && owner in m.users && m.users[owner].username == username {
      FoundByName(m, username, owner);
      if id in m.sessions && m.sessions[id].userId == owner {
        DeletionReachesWrite(check, s, username, id, m.users[owner], env);
        DoEffect(s, DeleteSession(id), env.now);
      }
    }
  }

  lemma DeleteAllOutcome(check: Check, s: Store, username: string, owner: Id, keepToken: string, env: Env)
    requires MemInv(View(s))
    ensures var outcome, m := Alone(check, s, DeleteAll(username, keepToken), env), View(s);
            && (keepToken == "" ==> outcome == (s, 400))
            && (keepToken != "" && Nobody(m, username) ==> outcome == (s, 404))
            && (keepToken != "" && owner in m.users && m.users[owner].username == username ==>
                  outcome == Finish(s, DeleteAllRemove(owner, keepToken), env))
  {
    AloneLooks(check, s, DeleteAll(username, keepToken), env);
    NobodyByName(View(s), username);
    AloneFinishes(check, s, DeleteAllRemove(owner, keepToken), env);
    if owner in View(s).users && View(s).users[owner].username == username { FoundByName(View(s), username, owner); }
  }

  /** Uninterrupted, a password change that passes its guards succeeds and changes the hash alone. */
  lemma PasswordOutcome(
    check: Check, s: Store, username: string, id: Id, current: string, new_: string, newHash: string, env: Env)
    requires MemInv(View(s))
    ensures var outcome, m := Alone(check, s, ChangePassword(username, current, new_, newHash), env), View(s);
            && (IsBlank(current) || IsBlank(new_) ==> outcome == (s, 400))
            && (!IsBlank(current) && !IsBlank(new_) ==>
                  && (Nobody(m, username) ==> outcome == (s, 404))
                  && (id in m.users && m.users[id].username == username ==>
                        if !check(m.users[id].passwordHash, current) then outcome == (s, 401)
                        else
                          && outcome.1 == 200
                          && Rewritten(m, id, username, newHash, m.users[id].role, env.now, View(outcome.0))))
  {
    var m := View(s);
    PasswordEndsEarly(check, s, username, current, new_, newHash, env);
    NobodyByName(m, username);
    if !IsBlank(current) && !IsBlank(new_) && id in m.users && m.users[id].username == username {
      FoundByName(m, username, id);
      if check(m.users[id].passwordHash, current) {
        PasswordFinishes(check, s, username, current, new_, newHash, m.users[id], env);
        PasswordWrites(s, m.users[id], newHash, env);
      }
    }
  }

  /** A user can be created with the role admin, developer or viewer and with no other. */
  lemma NewUserOutcome(check: Check, s: Store, username: string, password: string, hash: string, role: string, env: Env)
    requires MemInv(View(s))
    ensures var outcome, m := Alone(check, s, NewUser(username, password, hash, role), env), View(s);
            if IsBlank(username) || IsBlank(password) || role !in {"admin", "developer", "viewer"} then
              outcome == (s, 400)
            else if !Nobody(m, username) then outcome == (s, 409)
            else
              var m', id := View(outcome.0), m.nextId;
              && outcome.1 == 201 && id !in m.users && id in m'.users
              && m' == m.(users := m.users[id := m'.users[id]], nextId := id + 1)
              && m'.users[id] == User(id, username, hash, role, m'.users[id].createdAt, m'.users[id].updatedAt)
              && m'.users[id].createdAt / 1_000_000_000 == env.now / 1_000_000_000
              && m'.users[id].updatedAt / 1_000_000_000 == env.now / 1_000_000_000
  {
    RolesAre(role);
    CreationAlone(check, s, username, password, hash, role, env);
    DoEffect(s, CreateUser(username, hash, role), env.now);
    DoDetails(s, CreateUser(username, hash, role), env.now);
    if role in {"admin", "developer", "viewer"} { VisibleIsNotBlank(role, 0); }
  }

  /** An edit may set the role to admin, developer or viewer and to nothing else. */
  lemma EditOutcome(check: Check, s: Store, id: Id, edit: Edit, env: Env)
    requires MemInv(View(s))
    ensures var outcome, m := Alone(check, s, EditUser(id, edit), env), View(s);
            if id <= 0 then outcome == (s, 400)
            else if id !in m.users then outcome == (s, 404)
            else if edit.role.Some? && edit.role.value !in {"admin", "developer", "viewer"} then outcome == (s, 400)
            else if edit.username.Some? && TakenByOther(m, edit.username.value, id) then outcome == (s, 409)
            else
              var u := m.users[id];
              var username := if edit.username.Some? then edit.username.value else u.username;
              var hash := if edit.hash.Some? then edit.hash.value else u.passwordHash;
              var role := if edit.role.Some? then edit.role.value else u.role;
              outcome.1 == 200 && Rewritten(m, id, username, hash, role, env.now, View(outcome.0))
  {
    EditEndsEarly(check, s, id, edit, env);
    if edit.role.Some? { RolesAre(edit.role.value); }
    if id > 0 && id in View(s).users && (edit.role.Some? ==> ValidRole(edit.role.value)) {
      EditFinishes(check, s, id, edit, env);
      EditWrites(s, View(s).users[id], edit, env);
    }
  }

  lemma RemoveUserOutcome(check: Check, s: Store, id: Id, env: Env)
    requires MemInv(View(s))
    ensures var outcome, m := Alone(check, s, RemoveUser(id), env), View(s);
            if id <= 0 then outcome == (s, 400)
            else if id !in m.users then outcome == (s, 404)
            else outcome.1 == 204 && View(outcome.0) == m.(users := m.users - {id})
  {
    RemovalAlone(check, s, id, env);
    DoEffect(s, DeleteUser(id), env.now);
  }
}
