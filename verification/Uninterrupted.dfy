/** What a request comes to when nothing interrupts it, with either store, up to its last store call. */
module Uninterrupted {
  import opened Wrappers
  import opened Blank
  import opened StoreModel
  import opened StoreInvariants
  import opened Stores
  import opened Handlers

  /** Usernames being unique, nobody else can have taken the name a user still has. */
  lemma OwnNameIsFree(m: MemState, id: Id)
    requires MemInv(m) && id in m.users
    ensures !NameUsedByOther(m.users, m.users[id].username, id)
  {
  }

  /** What the last store call of a request leaves and answers. */
  function Finish(s: Store, q: Request, env: Env): (Store, nat)
    requires Change(q, env).Some?
  {
    var (s', reply) := Do(s, Change(q, env).value, env.now); (s', Status(reply, q))
  }

  lemma AloneFinishes(check: Check, s: Store, q: Request, env: Env)
    requires Change(q, env).Some?
    ensures Alone(check, s, q, env) == Finish(s, q, env)
  {
    AloneWrites(check, s, q, env);
  }

  lemma LoginEndsEarly(check: Check, s: Store, username: string, password: string, env: Env)
    ensures IsBlank(username) || IsBlank(password) ==> Alone(check, s, Login(username, password), env) == (s, 400)
    ensures !IsBlank(username) && !IsBlank(password) && ByName(View(s), username).None? ==>
      Alone(check, s, Login(username, password), env) == (s, 401)
  {
    AloneLooks(check, s, Login(username, password), env);
  }

  lemma LoginFinishes(check: Check, s: Store, username: string, password: string, u: User, env: Env)
    requires !IsBlank(username) && !IsBlank(password) && ByName(View(s), username) == Some(u)
    ensures Alone(check, s, Login(username, password), env)
         == if check(u.passwordHash, password) then Finish(s, LoginCreate(u), env) else (s, 401)
  {
    AloneLooks(check, s, Login(username, password), env);
    AloneLooks(check, s, LoginCheck(u, password), env);
    if check(u.passwordHash, password) {
      AloneLooks(check, s, LoginRead(u), env);
      AloneFinishes(check, s, LoginCreate(u), env);
    }
  }

  lemma LoginReachesWrite(check: Check, s: Store, username: string, password: string, u: User, env: Env)
    requires !IsBlank(username) && !IsBlank(password) && ByName(View(s), username) == Some(u)
    ensures Alone(check, s, Login(username, password), env)
         == if !check(u.passwordHash, password) then (s, 401)
            else
              var op := CreateSession(u.id, u.username, u.role, SessionTtl(env.hours), env.token);
              var (s', reply) := Do(s, op, env.now);
              (s', if reply.Failed? then 500 else 200)
  {
    LoginFinishes(check, s, username, password, u, env);
    CreateSessionReplies(s, Change(LoginCreate(u), env).value, env.now);
  }

  lemma CreateSessionReplies(s: Store, op: Op, now: int)
    requires op.CreateSession?
    ensures var reply := Do(s, op, now).1;
            reply.SessionReply? || reply == Failed(BadTtl) || reply == Failed(TokenExists)
  {
  }

  lemma DeletionEndsEarly(check: Check, s: Store, username: string, id: Id, env: Env)
    ensures id <= 0 ==> Alone(check, s, DeleteOne(username, id), env) == (s, 400)
    ensures var u, m := ByName(View(s), username), View(s);
            id > 0 && (u.None? || id !in m.sessions || m.sessions[id].userId != u.value.id) ==>
              Alone(check, s, DeleteOne(username, id), env) == (s, 404)
  {
    AloneLooks(check, s, DeleteOne(username, id), env);
    if id > 0 && ByName(View(s), username).Some? {
      AloneLooks(check, s, DeleteOneFetch(ByName(View(s), username).value.id, id), env);
    }
  }

  lemma DeletionReachesWrite(check: Check, s: Store, username: string, id: Id, u: User, env: Env)
    requires id > 0 && ByName(View(s), username) == Some(u)
    requires id in View(s).sessions && View(s).sessions[id].userId == u.id && View(s).sessions[id].id == id
    ensures var (s', reply) := Do(s, DeleteSession(id), env.now);
            Alone(check, s, DeleteOne(username, id), env) == (s', if reply.Failed? then 500 else 204)
  {
    AloneLooks(check, s, DeleteOne(username, id), env);
    AloneLooks(check, s, DeleteOneFetch(u.id, id), env);
    AloneWrites(check, s, DeleteOneRemove(u.id, View(s).sessions[id]), env);
    DeletionReplies(s, id, env.now);
  }

  lemma DeletionReplies(s: Store, id: Id, now: int)
    ensures var reply := Do(s, DeleteSession(id), now).1; reply == Done || reply == Failed(SessionNotFound)
  {
  }

  lemma DeleteAllReachesWrite(check: Check, s: Store, username: string, keepToken: string, env: Env)
    requires keepToken != ""
    ensures var u := ByName(View(s), username);
            Alone(check, s, DeleteAll(username, keepToken), env)
            == if u.None? then (s, 404) else (Do(s, DeleteSessionsByUserID(u.value.id, keepToken), env.now).0, 204)
  {
    AloneLooks(check, s, DeleteAll(username, keepToken), env);
    if ByName(View(s), username).Some? {
      AloneWrites(check, s, DeleteAllRemove(ByName(View(s), username).value.id, keepToken), env);
    }
  }

  lemma PasswordEndsEarly(
    check: Check, s: Store, username: string, current: string, new_: string, newHash: string, env: Env)
    ensures var u := ByName(View(s), username);
            var outcome := Alone(check, s, ChangePassword(username, current, new_, newHash), env);
            if IsBlank(current) || IsBlank(new_) then outcome == (s, 400)
            else if u.None? then outcome == (s, 404)
            else !check(u.value.passwordHash, current) ==> outcome == (s, 401)
  {
    AloneLooks(check, s, ChangePassword(username, current, new_, newHash), env);
    if !IsBlank(current) && !IsBlank(new_) && ByName(View(s), username).Some? {
      AloneLooks(check, s, ChangePasswordCheck(ByName(View(s), username).value, current, newHash), env);
    }
  }

  lemma UpdateReplies(s: Store, id: Id, username: string, hash: string, role: string, now: int)
    ensures var reply := Do(s, UpdateUser(id, username, hash, role), now).1;
            reply.UserReply? || reply == Failed(UserNotFound) || reply == Failed(UsernameTaken)
  {
  }

  lemma CheckedFinishes(check: Check, s: Store, u: User, current: string, newHash: string, env: Env)
    requires check(u.passwordHash, current)
    ensures Alone(check, s, ChangePasswordCheck(u, current, newHash), env)
         == Finish(s, ChangePasswordWrite(u, newHash), env)
  {
    AloneLooks(check, s, ChangePasswordCheck(u, current, newHash), env);
    AloneLooks(check, s, ChangePasswordRead(u, newHash), env);
    AloneFinishes(check, s, ChangePasswordWrite(u, newHash), env);
  }

  lemma PasswordFinishes(
    check: Check, s: Store, username: string, current: string, new_: string, newHash: string, u: User, env: Env)
    requires !IsBlank(current) && !IsBlank(new_)
    requires ByName(View(s), username) == Some(u) && check(u.passwordHash, current)
    ensures Alone(check, s, ChangePassword(username, current, new_, newHash), env)
         == Finish(s, ChangePasswordWrite(u, newHash), env)
  {
    AloneLooks(check, s, ChangePassword(username, current, new_, newHash), env);
    CheckedFinishes(check, s, u, current, newHash, env);
  }

  lemma PasswordReachesWrite(
    check: Check, s: Store, username: string, current: string, new_: string, newHash: string, u: User, env: Env)
    requires !IsBlank(current) && !IsBlank(new_)
    requires ByName(View(s), username) == Some(u) && check(u.passwordHash, current)
    ensures var (s', reply) := Do(s, UpdateUser(u.id, u.username, newHash, u.role), env.now);
            Alone(check, s, ChangePassword(username, current, new_, newHash), env)
            == (s', if reply.Failed? then 500 else 200)
  {
    PasswordFinishes(check, s, username, current, new_, newHash, u, env);
    UpdateReplies(s, u.id, u.username, newHash, u.role, env.now);
  }

  lemma EditFinishes(check: Check, s: Store, id: Id, edit: Edit, env: Env)
    requires id > 0 && id in View(s).users && (edit.role.Some? ==> ValidRole(edit.role.value))
    ensures Alone(check, s, EditUser(id, edit), env) == Finish(s, EditUserWrite(View(s).users[id], edit), env)
  {
    var u := View(s).users[id];
    AloneLooks(check, s, EditUser(id, edit), env);
    AloneLooks(check, s, EditUserRead(u, edit), env);
    AloneFinishes(check, s, EditUserWrite(u, edit), env);
  }

  lemma EditReachesWrite(check: Check, s: Store, id: Id, edit: Edit, env: Env)
    requires id > 0 && id in View(s).users && View(s).users[id].id == id
    requires edit.role.Some? ==> ValidRole(edit.role.value)
    ensures var u := View(s).users[id];
            var op := UpdateUser(
                        id, Or(edit.username, u.username), Or(edit.hash, u.passwordHash), Or(edit.role, u.role));
            var (s', reply) := Do(s, op, env.now);
            Alone(check, s, EditUser(id, edit), env)
            == (s', if !reply.Failed? then 200 else if reply.error.UsernameTaken? then 409 else 500)
  {
    var u := View(s).users[id];
    EditFinishes(check, s, id, edit, env);
    UpdateReplies(s, id, Or(edit.username, u.username), Or(edit.hash, u.passwordHash), Or(edit.role, u.role), env.now);
  }

  lemma EditEndsEarly(check: Check, s: Store, id: Id, edit: Edit, env: Env)
    ensures id <= 0 ==> Alone(check, s, EditUser(id, edit), env) == (s, 400)
    ensures id > 0 && id !in View(s).users ==> Alone(check, s, EditUser(id, edit), env) == (s, 404)
    ensures id > 0 && id in View(s).users && edit.role.Some? && !ValidRole(edit.role.value) ==>
      Alone(check, s, EditUser(id, edit), env) == (s, 400)
  {
    AloneLooks(check, s, EditUser(id, edit), env);
    if id > 0 && id in View(s).users { AloneLooks(check, s, EditUserRead(View(s).users[id], edit), env); }
  }

  lemma CreationAlone(check: Check, s: Store, username: string, password: string, hash: string, role: string, env: Env)
    ensures Alone(check, s, NewUser(username, password, hash, role), env)
         == if IsBlank(username) || IsBlank(password) || IsBlank(role) || !ValidRole(role) then (s, 400)
            else
              var (s', reply) := Do(s, CreateUser(username, hash, role), env.now);
              (s', if reply.Failed? then 409 else 201)
  {
    var q := NewUser(username, password, hash, role);
    if Change(q, env).None? { AloneLooks(check, s, q, env); } else { AloneWrites(check, s, q, env); }
  }

  lemma RemovalAlone(check: Check, s: Store, id: Id, env: Env)
    ensures Alone(check, s, RemoveUser(id), env)
         == if id <= 0 then (s, 400)
            else var (s', reply) := Do(s, DeleteUser(id), env.now); (s', if reply.Failed? then 404 else 204)
  {
    if id <= 0 { AloneLooks(check, s, RemoveUser(id), env); } else { AloneWrites(check, s, RemoveUser(id), env); }
  }
}
