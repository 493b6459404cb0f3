/**
 * The request handlers, interleaved, over either store.  Each handler makes its store calls one after the
 * other, each under the store's lock; in between any other request may run.  A request is therefore a program
 * counter with the values its handler holds.  A step is one store call with the guards after it, or one unlocked
 * read of a fetched user: of its password hash, or of the fields that are passed on by value.
 *
 * What a request has fetched is a copy of a row with the SQLite store.  With the in-memory store it is the stored
 * object itself, which changes under its holders when it is updated.  Of a user that is fetched only for its ID
 * just the ID is kept, as nothing ever writes it; nor are sessions ever written.
 */
module Handlers {
  import opened Wrappers
  import opened Blank
  import opened StoreModel
  import opened StoreInvariants
  import opened Stores

  /** `bcrypt.CompareHashAndPassword`: hash and password. */
  type Check = (string, string) -> bool

  /** The fields a client asks to change. */
  datatype Edit = Edit(username: Option<string>, hash: Option<string>, role: Option<string>)

  datatype Request =
    | Login(username: string, password: string)
    | LoginCheck(user: User, password: string)   // about to read the hash
    | LoginRead(user: User)                      // about to read ID, name and role
    | LoginCreate(read: User)                    // has read them, about to lock the store
    | Sessions(username: string)
    | SessionsList(userId: Id)
    | DeleteOne(username: string, id: Id)
    | DeleteOneFetch(userId: Id, id: Id)
    | DeleteOneRemove(userId: Id, session: Session)
    | DeleteAll(username: string, keepToken: string)
    | DeleteAllRemove(userId: Id, keepToken: string)
    | ChangePassword(username: string, current: string, new_: string, newHash: string)
    | ChangePasswordCheck(user: User, current: string, newHash: string)
    | ChangePasswordRead(user: User, newHash: string)
    | ChangePasswordWrite(read: User, newHash: string)
    | NewUser(username: string, password: string, hash: string, role: string)
    | EditUser(id: Id, edit: Edit)
    | EditUserRead(user: User, edit: Edit)
    | EditUserWrite(read: User, edit: Edit)
    | RemoveUser(id: Id)
    | Answered(status: nat)

  /** What a step takes from outside: the clock, a random token, and SESSION_TTL if it is a number. */
  datatype Env = Env(now: int, token: string, hours: Option<int>)

  predicate ValidRole(role: string) { role == "admin" || role == "developer" || role == "viewer" }

  /** int64 arithmetic wraps around. */
  function Wrap64(x: int): int {
    (x + 0x8000_0000_0000_0000) % 0x1_0000_0000_0000_0000 - 0x8000_0000_0000_0000
  }

  /** `time.Duration(hours) * time.Hour`, 24 hours unless SESSION_TTL is positive. */
  function SessionTtl(hours: Option<int>): int {
    Wrap64((if hours.Some? && hours.value > 0 then hours.value else 24) * 3600 * SECOND)
  }

  /** The time to live is the one asked for exactly up to 2562047 hours; beyond that the product wraps. */
  lemma TtlExactIff(hours: int)
    requires hours > 0
    ensures SessionTtl(Some(hours)) == hours * 3600 * SECOND <==> hours <= 2562047
  {
  }

  /** 24 hours unless the variable is a positive number, and then so many hours. */
  lemma SessionTtlMeans(hours: Option<int>)
    ensures hours.None? || hours.value <= 0 ==> SessionTtl(hours) == 86_400_000_000_000
    ensures hours.Some? && 0 < hours.value <= 2_562_047 ==> SessionTtl(hours) == hours.value * 3_600_000_000_000
  {
    if hours.Some? && hours.value > 0 { TtlExactIff(hours.value); }
  }

  /** The only int64 that differs from the exact product by a multiple of 2^64. */
  lemma Wrap64Means(x: int, y: int, turns: int)
    requires -0x8000_0000_0000_0000 <= y < 0x8000_0000_0000_0000 && x == y + turns * 0x1_0000_0000_0000_0000
    ensures Wrap64(x) == y
  {
  }

  lemma RolesAre(role: string)
    ensures ValidRole(role) <==> role in {"admin", "developer", "viewer"}
  {
  }

  /** `GetUserByUsername` */
  ghost function ByName(m: MemState, username: string): (u: Option<User>)
    ensures u.Some? ==> u.value.username == username && exists k :: k in m.users && m.users[k] == u.value
    ensures u.None? <==> !NameUsed(m.users, username)
  {
    if NameUsed(m.users, username) then
      var k :| k in m.users && m.users[k].username == username;
      Some(m.users[k])
    else None
  }

  /** Usernames being unique, it is the only one of that name. */
  lemma FoundByName(m: MemState, username: string, id: Id)
    requires MemInv(m) && id in m.users && m.users[id].username == username
    ensures ByName(m, username) == Some(m.users[id])
  {
    assert NameUsed(m.users, username);
    var u := ByName(m, username).value;
    assert u.id in m.users && m.users[u.id] == u;
  }

  /** What a request has just arrived as. */
  predicate Arriving(q: Request) {
    || q.Login? || q.Sessions? || q.DeleteOne? || q.DeleteAll? || q.ChangePassword? || q.NewUser? || q.EditUser?
    || q.RemoveUser?
  }

  /** The request holds a fetched user, some fields of which it has still to read. */
  predicate HoldsUser(q: Request) {
    q.LoginCheck? || q.LoginRead? || q.ChangePasswordCheck? || q.ChangePasswordRead? || q.EditUserRead?
  }

  /** The request has read the fields it passes on. */
  predicate HasRead(q: Request) { q.LoginCreate? || q.ChangePasswordWrite? || q.EditUserWrite? }

  /** What the write that ends a request is to change. */
  function EditOf(q: Request): Edit
    requires q.ChangePasswordWrite? || q.EditUserWrite?
  {
    match q
    case ChangePasswordWrite(_, newHash) => Edit(None, Some(newHash), None)
    case EditUserWrite(_, edit) => edit
  }

  function Or(asked: Option<string>, read: string): string { if asked.Some? then asked.value else read }

  /** The store call, if any, by which the next step of a request changes the store. */
  function Change(q: Request, env: Env): Option<Op> {
    match q
    case LoginCreate(u) => Some(CreateSession(u.id, u.username, u.role, SessionTtl(env.hours), env.token))
    case DeleteOneRemove(_, s) => Some(DeleteSession(s.id))
    case DeleteAllRemove(userId, keep) => Some(DeleteSessionsByUserID(userId, keep))
    case ChangePasswordWrite(u, hash) => Some(UpdateUser(u.id, u.username, hash, u.role))
    case NewUser(username, password, hash, role) =>
      if IsBlank(username) || IsBlank(password) || IsBlank(role) || !ValidRole(role) then None
      else Some(CreateUser(username, hash, role))
    case EditUserWrite(u, edit) =>
      Some(UpdateUser(u.id, Or(edit.username, u.username), Or(edit.hash, u.passwordHash), Or(edit.role, u.role)))
    case RemoveUser(id) => if id <= 0 then None else Some(DeleteUser(id))
    case _ => None
  }

  /** The status of success. */
  function Ok(q: Request): nat {
    if q.NewUser? then 201 else if q.DeleteOneRemove? || q.DeleteAllRemove? || q.RemoveUser? then 204 else 200
  }

  function Status(reply: Reply, q: Request): nat {
    match reply
    case Failed(UserExists) => 409
    case Failed(UsernameTaken) => if q.EditUserWrite? then 409 else 500
    case Failed(UserNotFound) => if q.RemoveUser? then 404 else 500
    case Failed(_) => 500
    case _ => Ok(q)
  }

  /** Where a step that changes nothing leaves the request; `m` is what can be read from the store. */
  ghost function Look(check: Check, m: MemState, q: Request): Request {
    match q
    case Login(username, password) =>
      if IsBlank(username) || IsBlank(password) then Answered(400)
      else
        var u := ByName(m, username);
        if u.None? then Answered(401) else LoginCheck(u.value, password)
    case LoginCheck(u, password) => if check(u.passwordHash, password) then LoginRead(u) else Answered(401)
    case LoginRead(u) => LoginCreate(u)
    case Sessions(username) =>
      var u := ByName(m, username);
      if u.None? then Answered(404) else SessionsList(u.value.id)
    case SessionsList(_) => Answered(200)
    case DeleteOne(username, id) =>
      if id <= 0 then Answered(400)
      else
        var u := ByName(m, username);
        if u.None? then Answered(404) else DeleteOneFetch(u.value.id, id)
    case DeleteOneFetch(userId, id) =>
      if id !in m.sessions || m.sessions[id].userId != userId then Answered(404)
      else DeleteOneRemove(userId, m.sessions[id])
    case DeleteAll(username, keep) =>
      if keep == "" then Answered(400)
      else
        var u := ByName(m, username);
        if u.None? then Answered(404) else DeleteAllRemove(u.value.id, keep)
    case ChangePassword(username, current, new_, newHash) =>
      if IsBlank(current) || IsBlank(new_) then Answered(400)
      else
        var u := ByName(m, username);
        if u.None? then Answered(404) else ChangePasswordCheck(u.value, current, newHash)
    case ChangePasswordCheck(u, current, newHash) =>
      if check(u.passwordHash, current) then ChangePasswordRead(u, newHash) else Answered(401)
    case ChangePasswordRead(u, newHash) => ChangePasswordWrite(u, newHash)
    case EditUser(id, edit) =>
      if id <= 0 then Answered(400) else if id !in m.users then Answered(404) else EditUserRead(m.users[id], edit)
    case EditUserRead(u, edit) =>
      if edit.role.Some? && !ValidRole(edit.role.value) then Answered(400) else EditUserWrite(u, edit)
    case _ => Answered(400)
  }

  /** Where the next step leaves the request. */
  ghost function Proceed(check: Check, s: Store, q: Request, env: Env): Request {
    var op := Change(q, env);
    if op.None? then Look(check, View(s), q) else Answered(Status(Do(s, op.value, env.now).1, q))
  }

  // ------------------------------------------------------------------------------------------
  // Runs
  // ------------------------------------------------------------------------------------------

  datatype World = World(store: Store, requests: seq<Request>)

  datatype Event = Arrive(q: Request) | Advance(r: nat, env: Env)

  predicate Enabled(w: World, e: Event) {
    match e
    case Arrive(q) => Arriving(q)
    case Advance(r, _) => r < |w.requests| && !w.requests[r].Answered?
  }

  /** The call by which an event changes the store. */
  function OpOf(w: World, e: Event): Option<Op>
    requires Enabled(w, e)
  {
    if e.Advance? then Change(w.requests[e.r], e.env) else None
  }

  /** The user an event updates in the store, as it is afterwards. */
  function Updated(w: World, e: Event): Option<User>
    requires Enabled(w, e)
  {
    var op := OpOf(w, e);
    if op.Some? && op.value.UpdateUser? then
      match Do(w.store, op.value, e.env.now).1 case UserReply(u) => Some(u) case _ => None
    else None
  }

  /** An update of the stored object is seen by whoever holds it. */
  function Noticed(q: Request, u: User): Request {
    if HoldsUser(q) && q.user.id == u.id then q.(user := u) else q
  }

  function AllNoticed(requests: seq<Request>, u: User): seq<Request> {
    seq(|requests|, i requires 0 <= i < |requests| => Noticed(requests[i], u))
  }

  function StoreAfter(w: World, e: Event): Store
    requires Enabled(w, e)
  {
    var op := OpOf(w, e);
    if op.Some? then Do(w.store, op.value, e.env.now).0 else w.store
  }

  ghost function Apply(check: Check, w: World, e: Event): World
    requires Enabled(w, e)
  {
    match e
    case Arrive(q) => w.(requests := w.requests + [q])
    case Advance(r, env) =>
      var requests := w.requests[r := Proceed(check, w.store, w.requests[r], env)];
      var u := Updated(w, e);
      World(StoreAfter(w, e), if w.store.Memory? && u.Some? then AllNoticed(requests, u.value) else requests)
  }

  ghost predicate Leads(check: Check, w: World, events: seq<Event>, w': World)
    decreases |events|
  {
    if events == [] then w == w'
    else Enabled(w, events[0]) && Leads(check, Apply(check, w, events[0]), events[1..], w')
  }

  /** A request other than the one that moves stays where it is, except that it may notice an update. */
  lemma Others(check: Check, w: World, e: Event, r: nat)
    requires Enabled(w, e) && r < |w.requests|
    ensures r < |Apply(check, w, e).requests|
    ensures var q, u := Apply(check, w, e).requests[r], Updated(w, e);
            var p := if e.Advance? && r == e.r then Proceed(check, w.store, w.requests[r], e.env) else w.requests[r];
            q == if w.store.Memory? && u.Some? then Noticed(p, u.value) else p
  {
  }

  // ------------------------------------------------------------------------------------------
  // The invariant
  // ------------------------------------------------------------------------------------------

  predicate Given(m: MemState, id: Id) { 1 <= id < m.nextId }

  /** The user existed when it was looked up, and its ID belongs to nobody else. */
  ghost predicate Known(m: MemState, u: User) {
    Given(m, u.id) && (u.id in m.users ==> m.users[u.id].createdAt == u.createdAt)
  }

  ghost predicate RequestInv(m: MemState, q: Request) {
    && (HoldsUser(q) ==> Known(m, q.user))
    && (HasRead(q) ==> Known(m, q.read))
    && (q.SessionsList? || q.DeleteOneFetch? || q.DeleteOneRemove? || q.DeleteAllRemove? ==> Given(m, q.userId))
    && (q.DeleteOneRemove? ==>
          var s := q.session;
          s.userId == q.userId && 1 <= s.id < m.nextSessionId && (s.id in m.sessions ==> m.sessions[s.id] == s))
  }

  /** Every session belongs to an ID that has been given out. */
  ghost predicate OwnedInv(m: MemState) {
    forall k :: k in m.sessions ==> Given(m, m.sessions[k].userId)
  }

  ghost predicate Inv(w: World) {
    && MemInv(View(w.store)) && OwnedInv(View(w.store))
    && forall r :: 0 <= r < |w.requests| ==> RequestInv(View(w.store), w.requests[r])
  }

  lemma RequestStable(m: MemState, m': MemState, q: Request)
    requires Continues(m, m') && RequestInv(m, q)
    ensures RequestInv(m', q)
  {
  }

  lemma ByNameKnown(m: MemState, username: string)
    requires MemInv(m) && ByName(m, username).Some?
    ensures Known(m, ByName(m, username).value)
  {
  }

  lemma NoticedInv(m: MemState, q: Request, u: User)
    requires RequestInv(m, q) && u.id in m.users && m.users[u.id] == u
    ensures RequestInv(m, Noticed(q, u))
  {
  }

  lemma LookupInv(check: Check, m: MemState, q: Request)
    requires MemInv(m) && (q.Login? || q.Sessions? || q.DeleteOne? || q.DeleteAll? || q.ChangePassword?)
    ensures RequestInv(m, Look(check, m, q))
  {
    if ByName(m, q.username).Some? { ByNameKnown(m, q.username); }
  }

  lemma LookInv(check: Check, m: MemState, q: Request)
    requires MemInv(m) && OwnedInv(m) && RequestInv(m, q)
    ensures RequestInv(m, Look(check, m, q))
  {
    if q.Login? || q.Sessions? || q.DeleteOne? || q.DeleteAll? || q.ChangePassword? { LookupInv(check, m, q); }
  }

  lemma EffectOwned(m: MemState, q: Request, env: Env, m': MemState, reply: Reply)
    requires MemInv(m) && OwnedInv(m) && RequestInv(m, q) && Change(q, env).Some?
    requires Effect(m, Change(q, env).value, m', reply)
    ensures OwnedInv(m')
  {
  }

  /** A user that an event updates is afterwards in the store as it was written. */
  lemma UpdatedIsStored(w: World, e: Event)
    requires MemInv(View(w.store)) && Enabled(w, e) && Updated(w, e).Some?
    ensures var u, m, m' := Updated(w, e).value, View(w.store), View(StoreAfter(w, e));
            u.id in m.users && u.id in m'.users && m'.users[u.id] == u
  {
    DoEffect(w.store, OpOf(w, e).value, e.env.now);
  }

  lemma StepStore(w: World, e: Event)
    requires Inv(w) && Enabled(w, e)
    ensures var m' := View(StoreAfter(w, e)); MemInv(m') && OwnedInv(m') && Continues(View(w.store), m')
  {
    if OpOf(w, e).Some? {
      var op := OpOf(w, e).value;
      var (s', reply) := Do(w.store, op, e.env.now);
      DoEffect(w.store, op, e.env.now);
      EffectInv(View(w.store), op, View(s'), reply);
      EffectOwned(View(w.store), w.requests[e.r], e.env, View(s'), reply);
    }
  }

  lemma StepRequest(check: Check, w: World, e: Event, r: nat)
    requires Inv(w) && Enabled(w, e) && r < |w.requests|
    ensures r < |Apply(check, w, e).requests|
    ensures RequestInv(View(StoreAfter(w, e)), Apply(check, w, e).requests[r])
  {
    var m, m' := View(w.store), View(StoreAfter(w, e));
    Others(check, w, e, r);
    StepStore(w, e);
    var p := if e.Advance? && r == e.r then Proceed(check, w.store, w.requests[r], e.env) else w.requests[r];
    LookInv(check, m, w.requests[r]);
    assert RequestInv(m, w.requests[r]) && RequestInv(m, p);
    RequestStable(m, m', p);
    if Updated(w, e).Some? {
      UpdatedIsStored(w, e);
      NoticedInv(m', p, Updated(w, e).value);
    }
  }

  lemma StepInv(check: Check, w: World, e: Event)
    requires Inv(w) && Enabled(w, e)
    ensures Inv(Apply(check, w, e)) && Continues(View(w.store), View(Apply(check, w, e).store))
  {
    StepStore(w, e);
    var w' := Apply(check, w, e);
    forall r | 0 <= r < |w'.requests| ensures RequestInv(View(w'.store), w'.requests[r]) {
      if r < |w.requests| { StepRequest(check, w, e, r); }
    }
  }

  lemma {:induction false} RunInv(check: Check, w: World, events: seq<Event>, w': World)
    requires Inv(w) && Leads(check, w, events, w')
    ensures Inv(w') && Continues(View(w.store), View(w'.store))
    decreases |events|
  {
    if events != [] {
      StepInv(check, w, events[0]);
      RunInv(check, Apply(check, w, events[0]), events[1..], w');
    }
  }

  /** Nothing stored and nobody served, with either store. */
  const FreshMemory := World(Memory(EmptyMem), [])

  const FreshSqlite := World(Sqlite(EmptySql), [])

  lemma FreshInv()
    ensures Inv(FreshMemory) && Inv(FreshSqlite)
  {
  }

  // ------------------------------------------------------------------------------------------
  // Serving
  // ------------------------------------------------------------------------------------------

  /** How many steps a request has at most before it is answered. */
  function StepsLeft(q: Request): nat {
    match q
    case Answered(_) => 0
    case Login(_, _) => 4
    case ChangePassword(_, _, _, _) => 4
    case LoginCheck(_, _) => 3
    case ChangePasswordCheck(_, _, _) => 3
    case EditUser(_, _) => 3
    case DeleteOne(_, _) => 3
    case LoginRead(_) => 2
    case ChangePasswordRead(_, _) => 2
    case EditUserRead(_, _) => 2
    case DeleteOneFetch(_, _) => 2
    case Sessions(_) => 2
    case DeleteAll(_, _) => 2
    case _ => 1
  }

  lemma StepsLeftDecreases(check: Check, s: Store, q: Request, env: Env)
    requires !q.Answered?
    ensures StepsLeft(Proceed(check, s, q, env)) < StepsLeft(q)
  {
  }

  /** Every step of a request brings its answer nearer, and no other request's step puts it off; so no handler
      takes more than four steps, whatever runs in between. */
  lemma RequestProgress(check: Check, w: World, e: Event, r: nat)
    requires Enabled(w, e) && r < |w.requests|
    ensures r < |Apply(check, w, e).requests|
    ensures var before, after := StepsLeft(w.requests[r]), StepsLeft(Apply(check, w, e).requests[r]);
            before <= 4 && if e.Advance? && r == e.r then after < before else after == before
  {
    Others(check, w, e, r);
    if e.Advance? && r == e.r { StepsLeftDecreases(check, w.store, w.requests[r], e.env); }
  }

  /** Only the step that answers a request with success changes the store: a request that is refused, with any
      status from 400 on, has changed nothing. */
  lemma OnlySuccessWrites(check: Check, w: World, e: Event)
    requires MemInv(View(w.store)) && Enabled(w, e) && Apply(check, w, e).store != w.store
    ensures e.Advance? && e.r < |Apply(check, w, e).requests|
    ensures var q := Apply(check, w, e).requests[e.r]; q.Answered? && 200 <= q.status < 300
  {
    DoEffect(w.store, OpOf(w, e).value, e.env.now);
    Others(check, w, e, e.r);
  }

  /** What a request comes to when nothing interrupts it. */
  ghost function Alone(check: Check, s: Store, q: Request, env: Env): (Store, nat)
    decreases StepsLeft(q)
  {
    if q.Answered? then (s, q.status)
    else
      var op := Change(q, env);
      StepsLeftDecreases(check, s, q, env);
      Alone(check, if op.Some? then Do(s, op.value, env.now).0 else s, Proceed(check, s, q, env), env)
  }

  lemma AloneLooks(check: Check, s: Store, q: Request, env: Env)
    requires !q.Answered? && Change(q, env).None?
    ensures Alone(check, s, q, env) == Alone(check, s, Look(check, View(s), q), env)
  {
  }

  lemma AloneWrites(check: Check, s: Store, q: Request, env: Env)
    requires Change(q, env).Some?
    ensures var (s', reply) := Do(s, Change(q, env).value, env.now); Alone(check, s, q, env) == (s', Status(reply, q))
  {
  }

  /** It is the run of the request by itself. */
  lemma {:induction false} AloneIsRun(check: Check, s: Store, q: Request, env: Env) returns (events: seq<Event>)
    ensures var (s', status) := Alone(check, s, q, env);
            Leads(check, World(s, [q]), events, World(s', [Answered(status)])) && |events| <= StepsLeft(q)
    decreases StepsLeft(q)
  {
    if q.Answered? {
      events := [];
    } else {
      var w, e := World(s, [q]), Advance(0, env);
      var w' := Apply(check, w, e);
      StepsLeftDecreases(check, s, q, env);
      Others(check, w, e, 0);
      assert w'.requests == [Proceed(check, s, q, env)];
      var rest := AloneIsRun(check, w'.store, w'.requests[0], env);
      events := [e] + rest;
      assert events[1..] == rest;
    }
  }

  // ------------------------------------------------------------------------------------------
  // Deleting sessions
  // ------------------------------------------------------------------------------------------

  /** Under any interleaving a session disappears only by a request of its owner: either the very session that
      the request fetched, or one whose token is not the one to keep. */
  lemma WhoDeletes(check: Check, w0: World, events: seq<Event>, w: World, e: Event, k: Id)
    requires Inv(w0) && Leads(check, w0, events, w) && Enabled(w, e)
    requires k in View(w.store).sessions && k !in View(Apply(check, w, e).store).sessions
    ensures e.Advance? && (w.requests[e.r].DeleteOneRemove? || w.requests[e.r].DeleteAllRemove?)
    ensures View(w.store).sessions[k].userId == w.requests[e.r].userId
    ensures w.requests[e.r].DeleteOneRemove? ==> View(w.store).sessions[k] == w.requests[e.r].session
    ensures w.requests[e.r].DeleteAllRemove? ==> View(w.store).sessions[k].token != w.requests[e.r].keepToken
  {
    RunInv(check, w0, events, w);
    DoEffect(w.store, OpOf(w, e).value, e.env.now);
    assert RequestInv(View(w.store), w.requests[e.r]);
  }

  lemma RemovalStep(check: Check, w: World, r: nat, env: Env)
    requires MemInv(View(w.store)) && r < |w.requests| && w.requests[r].DeleteOneRemove?
    ensures var w', m, id := Apply(check, w, Advance(r, env)), View(w.store), w.requests[r].session.id;
            && View(w'.store) == m.(sessions := m.sessions - {id})
            && r < |w'.requests| && w'.requests[r] == Answered(if id in m.sessions then 204 else 500)
  {
    var m, id := View(w.store), w.requests[r].session.id;
    DoEffect(w.store, DeleteSession(id), env.now);
    if id !in m.sessions { assert m.sessions - {id} == m.sessions; }
    Others(check, w, Advance(r, env), r);
  }

  /** A `DeleteSession` request removes the session it fetched, if it is still there, and changes nothing else. */
  lemma DeleteOneExactly(check: Check, w0: World, events: seq<Event>, w: World, r: nat, env: Env)
    requires Inv(w0) && Leads(check, w0, events, w) && r < |w.requests| && w.requests[r].DeleteOneRemove?
    ensures var q, w', m := w.requests[r], Apply(check, w, Advance(r, env)), View(w.store);
            && View(w'.store) == m.(sessions := m.sessions - {q.session.id})
            && q.session.userId == q.userId
            && (q.session.id in m.sessions ==> m.sessions[q.session.id] == q.session)
            && r < |w'.requests| && w'.requests[r] == Answered(if q.session.id in m.sessions then 204 else 500)
  {
    RunInv(check, w0, events, w);
    assert RequestInv(View(w.store), w.requests[r]);
    RemovalStep(check, w, r, env);
  }

  // ------------------------------------------------------------------------------------------
  // No inherited sessions
  // ------------------------------------------------------------------------------------------

  /** The sessions of a user created later are all created later: whatever was deleted and created again, a
      new user never has an old session. */
  lemma NoInheritedSessions(check: Check, w0: World, before: seq<Event>, w: World, after: seq<Event>, w': World, k: Id)
    requires Inv(w0) && Leads(check, w0, before, w) && Leads(check, w, after, w')
    requires k in View(w'.store).sessions && View(w'.store).sessions[k].userId >= View(w.store).nextId
    ensures k >= View(w.store).nextSessionId && k !in View(w.store).sessions
  {
    RunInv(check, w0, before, w);
    RunInv(check, w, after, w');
  }

  /** A user that has just been created has no session at all. */
  lemma NewUserHasNoSession(check: Check, w0: World, events: seq<Event>, w: World, r: nat, env: Env, k: Id)
    requires Inv(w0) && Leads(check, w0, events, w) && r < |w.requests| && w.requests[r].NewUser?
    requires Apply(check, w, Advance(r, env)).requests[r] == Answered(201)
    ensures var id, m' := View(w.store).nextId, View(Apply(check, w, Advance(r, env)).store);
            && id in m'.users && m'.users[id].username == w.requests[r].username && id !in View(w.store).users
            && (k in m'.sessions ==> m'.sessions[k].userId != id)
  {
    RunInv(check, w0, events, w);
    DoEffect(w.store, Change(w.requests[r], env).value, env.now);
  }

  // ------------------------------------------------------------------------------------------
  // Roles
  // ------------------------------------------------------------------------------------------

  ghost predicate RolesValid(m: MemState) {
    && (forall k :: k in m.users ==> ValidRole(m.users[k].role))
    && forall k :: k in m.sessions ==> ValidRole(m.sessions[k].role)
  }

  /** The roles a request may still write are valid. */
  predicate HeldRoleValid(q: Request) {
    && (HoldsUser(q) ==> ValidRole(q.user.role))
    && (HasRead(q) ==> ValidRole(q.read.role))
    && (q.EditUserWrite? && q.edit.role.Some? ==> ValidRole(q.edit.role.value))
  }

  ghost predicate RolesInv(w: World) {
    RolesValid(View(w.store)) && forall r :: 0 <= r < |w.requests| ==> HeldRoleValid(w.requests[r])
  }

  lemma LookRoles(check: Check, m: MemState, q: Request)
    requires RolesValid(m) && HeldRoleValid(q)
    ensures HeldRoleValid(Look(check, m, q))
  {
  }

  lemma EffectRoles(m: MemState, q: Request, env: Env, m': MemState, reply: Reply)
    requires RolesValid(m) && HeldRoleValid(q) && Change(q, env).Some?
    requires Effect(m, Change(q, env).value, m', reply)
    ensures RolesValid(m')
  {
  }

  lemma StoreRoles(w: World, e: Event)
    requires MemInv(View(w.store)) && RolesInv(w) && Enabled(w, e)
    ensures RolesValid(View(StoreAfter(w, e)))
    ensures Updated(w, e).Some? ==> ValidRole(Updated(w, e).value.role)
  {
    if OpOf(w, e).Some? {
      var (s', reply) := Do(w.store, OpOf(w, e).value, e.env.now);
      DoEffect(w.store, OpOf(w, e).value, e.env.now);
      EffectRoles(View(w.store), w.requests[e.r], e.env, View(s'), reply);
    }
    if Updated(w, e).Some? { UpdatedIsStored(w, e); }
  }

  lemma StepRoles(check: Check, w: World, e: Event)
    requires MemInv(View(w.store)) && RolesInv(w) && Enabled(w, e)
    ensures RolesInv(Apply(check, w, e))
  {
    var w' := Apply(check, w, e);
    StoreRoles(w, e);
    forall r | 0 <= r < |w'.requests| ensures HeldRoleValid(w'.requests[r]) {
      if r < |w.requests| {
        Others(check, w, e, r);
        LookRoles(check, View(w.store), w.requests[r]);
      }
    }
  }

  /** From a store whose roles are valid, as the seeded one is, every role ever stored is admin, developer or
      viewer. */
  lemma {:induction false} RunRoles(check: Check, w: World, events: seq<Event>, w': World)
    requires Inv(w) && RolesInv(w) && Leads(check, w, events, w')
    ensures RolesInv(w')
    ensures forall k :: k in View(w'.store).users ==> View(w'.store).users[k].role in {"admin", "developer", "viewer"}
    ensures forall k :: k in View(w'.store).sessions ==>
      View(w'.store).sessions[k].role in {"admin", "developer", "viewer"}
    decreases |events|
  {
    if events != [] {
      StepRoles(check, w, events[0]);
      StepInv(check, w, events[0]);
      RunRoles(check, Apply(check, w, events[0]), events[1..], w');
    }
  }
}
