/**
 * The handlers on SQLite, as the server runs them, next to the handlers on the in-memory store.  The stores stay
 * alike call by call.  The requests do not always: the in-memory store hands out its own objects, SQLite copies,
 * so an update is seen by whoever holds the object and by nobody who holds a copy.  That is the only difference.
 */
module SqliteHandlers {
  import opened Wrappers
  import opened StoreModel
  import opened StoreInvariants
  import opened StoreSimulation
  import opened Stores
  import opened Handlers

  // ------------------------------------------------------------------------------------------
  // What the two have in common
  // ------------------------------------------------------------------------------------------

  function Whole(t: int): int { Trunc(t) * SECOND }

  function WholeUser(u: User): User { u.(createdAt := Whole(u.createdAt), updatedAt := Whole(u.updatedAt)) }

  function WholeSession(s: Session): Session { s.(createdAt := Whole(s.createdAt), expiresAt := Whole(s.expiresAt)) }

  /** A user without the timestamps, which no handler looks at. */
  function Timeless(u: User): User { u.(createdAt := 0, updatedAt := 0) }

  /** ... and without the hash, once it has been checked. */
  function Checked(u: User): User { Timeless(u).(passwordHash := "") }

  /** ... or without what an edit sets itself. */
  function Unset(u: User, edit: Edit): User {
    User(u.id, if edit.username.Some? then "" else u.username, if edit.hash.Some? then "" else u.passwordHash,
         if edit.role.Some? then "" else u.role, 0, 0)
  }

  /** What the rest of a request depends on: of the user it holds or has read only what is still to be read or passed
      on, and the timestamps of a session to the second. */
  function Outline(q: Request): Request {
    match q
    case LoginCheck(u, password) => LoginCheck(Timeless(u), password)
    case LoginRead(u) => LoginRead(Checked(u))
    case LoginCreate(u) => LoginCreate(Checked(u))
    case ChangePasswordCheck(u, current, newHash) => ChangePasswordCheck(Timeless(u), current, newHash)
    case ChangePasswordRead(u, newHash) => ChangePasswordRead(Checked(u), newHash)
    case ChangePasswordWrite(u, newHash) => ChangePasswordWrite(Checked(u), newHash)
    case EditUserRead(u, edit) => EditUserRead(Unset(u, edit), edit)
    case EditUserWrite(u, edit) => EditUserWrite(Unset(u, edit), edit)
    case DeleteOneRemove(userId, s) => DeleteOneRemove(userId, WholeSession(s))
    case _ => q
  }

  /** No row is missing and, since no handler purges, none is left over. */
  ghost predicate StoresAlike(m: MemState, q: SqlState, issued: set<string>, now: int) {
    Related(m, q, issued, now) && m.sessions.Keys == q.sessions.Keys
  }

  ghost predicate RequestsAlike(a: seq<Request>, b: seq<Request>) {
    |a| == |b| && forall r :: 0 <= r < |a| ==> Outline(a[r]) == Outline(b[r])
  }

  ghost predicate Alike(w: World, s: World, issued: set<string>, now: int) {
    && w.store.Memory? && s.store.Sqlite? && StoresAlike(w.store.mem, s.store.sql, issued, now)
    && RequestsAlike(w.requests, s.requests)
  }

  /** `v` is `m` to the second. */
  ghost predicate IsWhole(m: MemState, v: MemState) {
    && MemInv(m) && MemInv(v) && v.nextId == m.nextId && v.nextSessionId == m.nextSessionId
    && v.users.Keys == m.users.Keys && v.sessions.Keys == m.sessions.Keys
    && (forall k :: k in m.users ==> v.users[k] == WholeUser(m.users[k]))
    && (forall k :: k in m.sessions ==> v.sessions[k] == WholeSession(m.sessions[k]))
  }

  /** What can be read from SQLite is what is in memory, to the second. */
  lemma SeenIsWhole(m: MemState, q: SqlState, issued: set<string>, now: int)
    requires StoresAlike(m, q, issued, now)
    ensures IsWhole(m, Seen(q))
  {
  }

  lemma FoundIsWhole(m: MemState, v: MemState, username: string)
    requires IsWhole(m, v)
    ensures ByName(m, username).None? ==> ByName(v, username).None?
    ensures ByName(m, username).Some? ==> ByName(v, username) == Some(WholeUser(ByName(m, username).value))
  {
    if NameUsed(m.users, username) {
      var u := ByName(m, username).value;
      assert u.username == username;
      var k :| k in m.users && m.users[k] == u;
      assert v.users[k] == WholeUser(m.users[k]);
      FoundByName(v, username, k);
    } else {
      forall k | k in v.users ensures v.users[k].username != username {
        assert v.users[k] == WholeUser(m.users[k]);
      }
    }
  }

  // ------------------------------------------------------------------------------------------
  // One step
  // ------------------------------------------------------------------------------------------

  /** The outline determines the store call. */
  lemma SameOp(p: Request, q: Request, env: Env)
    requires Outline(p) == Outline(q)
    ensures Change(p, env) == Change(q, env) && Ok(p) == Ok(q)
    ensures HoldsUser(p) == HoldsUser(q) && p.Answered? == q.Answered?
  {
    if q.EditUserWrite? {
      var u, v := Unset(p.read, p.edit), Unset(q.read, q.edit);
      assert u == v && p.edit == q.edit;
      assert u.id == p.read.id && v.id == q.read.id;
    } else if q.LoginCreate? || q.ChangePasswordWrite? {
      var u, v := Checked(p.read), Checked(q.read);
      assert u == v;
      assert u.id == p.read.id && u.username == p.read.username && u.role == p.read.role;
    }
  }

  lemma LookupAlike(check: Check, m: MemState, v: MemState, q: Request)
    requires IsWhole(m, v)
    requires q.Login? || q.Sessions? || q.DeleteOne? || q.DeleteAll? || q.ChangePassword?
    ensures Outline(Look(check, v, q)) == Outline(Look(check, m, q))
  {
    FoundIsWhole(m, v, q.username);
  }

  lemma FetchAlike(check: Check, m: MemState, v: MemState, q: Request)
    requires IsWhole(m, v) && (q.DeleteOneFetch? || q.EditUser?)
    ensures Outline(Look(check, v, q)) == Outline(Look(check, m, q))
  {
    if q.id in m.sessions { assert v.sessions[q.id] == WholeSession(m.sessions[q.id]); }
    if q.id in m.users { assert v.users[q.id] == WholeUser(m.users[q.id]); }
  }

  /** What is dropped from an outline is not needed for the next one. */
  lemma CheckedIsEnough(u: User, v: User)
    ensures Timeless(u) == Timeless(v) ==> Checked(u) == Checked(v) && u.passwordHash == v.passwordHash
  {
    assert Timeless(u).passwordHash == u.passwordHash && Timeless(v).passwordHash == v.passwordHash;
  }

  lemma HeldAlike(check: Check, m: MemState, v: MemState, p: Request, q: Request)
    requires Outline(p) == Outline(q) && (HoldsUser(q) || q.Answered? || q.SessionsList?)
    ensures Outline(Look(check, v, p)) == Outline(Look(check, m, q))
  {
    if q.LoginCheck? || q.ChangePasswordCheck? {
      assert Timeless(p.user) == Timeless(q.user);
      CheckedIsEnough(p.user, q.user);
    }
  }

  /** A step that only reads leaves the request in the same place. */
  lemma LookAlike(check: Check, m: MemState, v: MemState, p: Request, q: Request, env: Env)
    requires IsWhole(m, v) && Outline(p) == Outline(q) && Change(q, env).None?
    ensures Outline(Look(check, v, p)) == Outline(Look(check, m, q))
  {
    if q.Login? || q.Sessions? || q.DeleteOne? || q.DeleteAll? || q.ChangePassword? {
      LookupAlike(check, m, v, q);
    } else if q.DeleteOneFetch? || q.EditUser? {
      FetchAlike(check, m, v, q);
    } else if HoldsUser(q) || q.Answered? || q.SessionsList? {
      HeldAlike(check, m, v, p, q);
    }
  }

  lemma SameRows(m: MemState, q: SqlState, issued: set<string>, t: int, op: Op, now: int)
    requires StoresAlike(m, q, issued, t) && Admissible(op, now, issued) && !op.DeleteExpiredSessions?
    ensures MemStep(m, op, now).0.sessions.Keys == SqlStep(q, op, now).0.sessions.Keys
  {
    if op.CreateSession? { assert !TokenUsed(q.sessions, op.token); }
  }

  lemma SameStatus(m: MemState, q: SqlState, p: Request, request: Request, env: Env, r: Reply, r': Reply)
    requires Change(request, env).Some? && m.sessions.Keys == q.sessions.Keys && Outline(p) == Outline(request)
    requires RepliesAgree(Change(request, env).value, m, q, r, r')
    ensures Status(r', p) == Status(r, request)
  {
    SameOp(p, request, env);
  }

  /** A step that writes does the same and is answered the same. */
  lemma WriteAlike(m: MemState, q: SqlState, issued: set<string>, t: int, p: Request, request: Request, env: Env)
    requires StoresAlike(m, q, issued, t) && t <= env.now && Outline(p) == Outline(request)
    requires Change(request, env).Some? && Admissible(Change(request, env).value, env.now, issued)
    ensures
      var op := Change(request, env).value;
      var (m', reply), (q', reply') := MemStep(m, op, env.now), SqlStep(q, op, env.now);
      && StoresAlike(m', q', issued + IssuedBy(op), env.now)
      && Status(reply', p) == Status(reply, request)
  {
    var op := Change(request, env).value;
    StepRelated(m, q, issued, t, op, env.now);
    SameRows(m, q, issued, t, op, env.now);
    SameStatus(m, q, p, request, env, MemStep(m, op, env.now).1, SqlStep(q, op, env.now).1);
  }

  /** The clock does not run backwards, and a session is created with a positive time to live, a fresh token
      and an expiry time that can be written. */
  predicate Orderly(w: World, e: Event, issued: set<string>, t: int)
    requires Enabled(w, e)
  {
    e.Advance? ==>
      var op := OpOf(w, e);
      t <= e.env.now && (op.Some? ==> Admissible(op.value, e.env.now, issued))
  }

  function IssuedAfter(w: World, e: Event, issued: set<string>): set<string>
    requires Enabled(w, e)
  {
    var op := OpOf(w, e);
    if op.Some? then issued + IssuedBy(op.value) else issued
  }

  function TimeAfter(e: Event, t: int): int { if e.Advance? then e.env.now else t }

  lemma LaterAlike(m: MemState, q: SqlState, issued: set<string>, t: int, now: int)
    requires StoresAlike(m, q, issued, t) && t <= now
    ensures StoresAlike(m, q, issued, now)
  {
  }

  /** The step of a request itself does the same on both sides. */
  lemma MoverAlike(check: Check, w: World, s: World, issued: set<string>, t: int, e: Event)
    requires Alike(w, s, issued, t) && Enabled(w, e) && e.Advance? && Orderly(w, e, issued, t)
    ensures Enabled(s, e) && StoreAfter(w, e).Memory? && StoreAfter(s, e).Sqlite?
    ensures StoresAlike(StoreAfter(w, e).mem, StoreAfter(s, e).sql, IssuedAfter(w, e, issued), e.env.now)
    ensures Outline(Proceed(check, w.store, w.requests[e.r], e.env))
         == Outline(Proceed(check, s.store, s.requests[e.r], e.env))
  {
    var q, p := w.requests[e.r], s.requests[e.r];
    assert Outline(q) == Outline(p);
    SameOp(p, q, e.env);
    if Change(q, e.env).None? {
      SeenIsWhole(w.store.mem, s.store.sql, issued, t);
      LookAlike(check, w.store.mem, Seen(s.store.sql), p, q, e.env);
      LaterAlike(w.store.mem, s.store.sql, issued, t, e.env.now);
    } else {
      WriteAlike(w.store.mem, s.store.sql, issued, t, p, q, e.env);
    }
  }

  /** The step changes something that some request has still to read of a user it holds. */
  ghost predicate Disturbs(w: World, e: Event)
    requires Enabled(w, e)
  {
    Updated(w, e).Some? &&
    exists r :: 0 <= r < |w.requests| && HoldsUser(w.requests[r]) && Disturbed(w.requests[r], Updated(w, e).value)
  }

  predicate Disturbed(q: Request, u: User)
    requires HoldsUser(q)
  {
    q.user.id == u.id && Outline(q) != Outline(q.(user := u))
  }

  predicate ReadsName(q: Request) { HoldsUser(q) && (q.EditUserRead? ==> q.edit.username.None?) }

  predicate ReadsHash(q: Request) {
    q.LoginCheck? || q.ChangePasswordCheck? || (q.EditUserRead? && q.edit.hash.None?)
  }

  predicate ReadsRole(q: Request) { HoldsUser(q) && (q.EditUserRead? ==> q.edit.role.None?) }

  /** In particular the password hash counts only until it is checked, and what an edit sets itself not at all. */
  lemma DisturbedMeans(q: Request, u: User)
    requires HoldsUser(q)
    ensures Disturbed(q, u)
       <==> q.user.id == u.id
            && ((ReadsName(q) && q.user.username != u.username)
                || (ReadsHash(q) && q.user.passwordHash != u.passwordHash)
                || (ReadsRole(q) && q.user.role != u.role))
  {
    var a, b := q.user, u;
    assert Timeless(a) == Timeless(b)
      <==> a.id == b.id && a.username == b.username && a.passwordHash == b.passwordHash && a.role == b.role;
    assert Checked(a) == Checked(b) <==> a.id == b.id && a.username == b.username && a.role == b.role;
    if q.EditUserRead? { UnsetMeans(a, b, q.edit); }
  }

  lemma UnsetMeans(a: User, b: User, edit: Edit)
    ensures Unset(a, edit) == Unset(b, edit)
       <==> a.id == b.id
            && (edit.username.None? ==> a.username == b.username)
            && (edit.hash.None? ==> a.passwordHash == b.passwordHash)
            && (edit.role.None? ==> a.role == b.role)
  {
    var x, y := Unset(a, edit), Unset(b, edit);
    assert x == y <==> x.id == y.id && x.username == y.username && x.passwordHash == y.passwordHash && x.role == y.role;
  }

  lemma NoticedAlike(q: Request, u: User)
    ensures Outline(Noticed(q, u)) == Outline(q) <==> !(HoldsUser(q) && Disturbed(q, u))
  {
  }

  /** One step keeps the two worlds alike if and only if it does not change what some request has still to read. */
  lemma StepAlikeIff(check: Check, w: World, s: World, issued: set<string>, t: int, e: Event)
    requires Alike(w, s, issued, t) && Enabled(w, e) && Orderly(w, e, issued, t)
    ensures Enabled(s, e)
    ensures Alike(Apply(check, w, e), Apply(check, s, e), IssuedAfter(w, e, issued), TimeAfter(e, t))
       <==> !Disturbs(w, e)
  {
    var w', s' := Apply(check, w, e), Apply(check, s, e);
    if e.Arrive? {
      assert RequestsAlike(w'.requests, s'.requests);
    } else {
      MoverAlike(check, w, s, issued, t, e);
      forall r | 0 <= r < |w.requests|
        ensures r < |w'.requests| && r < |s'.requests|
        ensures Outline(w'.requests[r]) == Outline(s'.requests[r])
          <==> !(Updated(w, e).Some? && HoldsUser(w.requests[r]) && Disturbed(w.requests[r], Updated(w, e).value))
      {
        RequestAlikeIff(check, w, s, e, r);
      }
    }
  }

  /** Once the request that moves has done the same on both sides, a request is in the same place on both sides if and
      only if nothing it holds has been changed. */
  lemma RequestAlikeIff(check: Check, w: World, s: World, e: Event, r: nat)
    requires w.store.Memory? && s.store.Sqlite? && Enabled(w, e) && Enabled(s, e) && e.Advance?
    requires RequestsAlike(w.requests, s.requests) && r < |w.requests|
    requires Outline(Proceed(check, w.store, w.requests[e.r], e.env))
          == Outline(Proceed(check, s.store, s.requests[e.r], e.env))
    ensures r < |Apply(check, w, e).requests| && r < |Apply(check, s, e).requests|
    ensures Outline(Apply(check, w, e).requests[r]) == Outline(Apply(check, s, e).requests[r])
      <==> !(Updated(w, e).Some? && HoldsUser(w.requests[r]) && Disturbed(w.requests[r], Updated(w, e).value))
  {
    Others(check, w, e, r);
    Others(check, s, e, r);
    assert Outline(w.requests[r]) == Outline(s.requests[r]);
    if Updated(w, e).Some? {
      var u := Updated(w, e).value;
      if r == e.r { WriterHoldsNothing(check, w, e); } else { NoticedAlike(w.requests[r], u); }
    }
  }

  lemma WriterHoldsNothing(check: Check, w: World, e: Event)
    requires Enabled(w, e) && Updated(w, e).Some?
    ensures !HoldsUser(w.requests[e.r]) && Proceed(check, w.store, w.requests[e.r], e.env).Answered?
  {
  }

  // ------------------------------------------------------------------------------------------
  // Runs
  // ------------------------------------------------------------------------------------------

  ghost predicate OrderlyRun(check: Check, w: World, events: seq<Event>, issued: set<string>, t: int)
    decreases |events|
  {
    events != [] ==>
      && Enabled(w, events[0]) && Orderly(w, events[0], issued, t)
      && OrderlyRun(check, Apply(check, w, events[0]), events[1..],
                    IssuedAfter(w, events[0], issued), TimeAfter(events[0], t))
  }

  /** No step of the run changes what some request has still to read. */
  ghost predicate Undisturbed(check: Check, w: World, events: seq<Event>)
    decreases |events|
  {
    events != [] ==>
      Enabled(w, events[0]) && !Disturbs(w, events[0]) && Undisturbed(check, Apply(check, w, events[0]), events[1..])
  }

  /** Both worlds can go through the run, and are alike all along. */
  ghost predicate AlikeAllAlong(check: Check, w: World, s: World, events: seq<Event>, issued: set<string>, t: int)
    decreases |events|
  {
    && Alike(w, s, issued, t)
    && (events != [] ==>
          && Enabled(w, events[0]) && Enabled(s, events[0])
          && AlikeAllAlong(check, Apply(check, w, events[0]), Apply(check, s, events[0]), events[1..],
                           IssuedAfter(w, events[0], issued), TimeAfter(events[0], t)))
  }

  /** The server on SQLite does, all along an orderly run, what it would do on the in-memory store, if and only if no
      step changes what some request has still to read. */
  lemma {:induction false} AlikeIffUndisturbed(
    check: Check, w: World, s: World, events: seq<Event>, issued: set<string>, t: int)
    requires Alike(w, s, issued, t) && OrderlyRun(check, w, events, issued, t)
    ensures AlikeAllAlong(check, w, s, events, issued, t) <==> Undisturbed(check, w, events)
    decreases |events|
  {
    if events != [] {
      StepAlikeIff(check, w, s, issued, t, events[0]);
      if !Disturbs(w, events[0]) {
        AlikeIffUndisturbed(check, Apply(check, w, events[0]), Apply(check, s, events[0]), events[1..],
                            IssuedAfter(w, events[0], issued), TimeAfter(events[0], t));
      }
    }
  }

  lemma {:induction false} EndsAlike(
    check: Check, w: World, s: World, events: seq<Event>, issued: set<string>, t: int, w': World, s': World)
    returns (issued': set<string>, t': int)
    requires AlikeAllAlong(check, w, s, events, issued, t)
    requires Leads(check, w, events, w') && Leads(check, s, events, s')
    ensures Alike(w', s', issued', t')
    decreases |events|
  {
    issued', t' := issued, t;
    if events != [] {
      issued', t' := EndsAlike(check, Apply(check, w, events[0]), Apply(check, s, events[0]), events[1..],
                               IssuedAfter(w, events[0], issued), TimeAfter(events[0], t), w', s');
    }
  }

  /** From the empty stores, in an undisturbed run, every request is answered on SQLite as on the in-memory store, and
      the stores hold the same users and sessions, to the second. */
  lemma SameAnswers(check: Check, events: seq<Event>, w: World, s: World)
    requires OrderlyRun(check, FreshMemory, events, {}, 0) && Undisturbed(check, FreshMemory, events)
    requires Leads(check, FreshMemory, events, w) && Leads(check, FreshSqlite, events, s)
    ensures |w.requests| == |s.requests|
    ensures forall r :: 0 <= r < |w.requests| ==> (w.requests[r].Answered? <==> s.requests[r].Answered?)
    ensures forall r :: 0 <= r < |w.requests| && w.requests[r].Answered? ==> w.requests[r] == s.requests[r]
    ensures IsWhole(View(w.store), View(s.store))
  {
    AlikeIffUndisturbed(check, FreshMemory, FreshSqlite, events, {}, 0);
    var issued, t := EndsAlike(check, FreshMemory, FreshSqlite, events, {}, 0, w, s);
    SeenIsWhole(w.store.mem, s.store.sql, issued, t);
    assert RequestsAlike(w.requests, s.requests);
    AnswersAlike(w.requests, s.requests);
  }

  lemma AnswersAlike(a: seq<Request>, b: seq<Request>)
    requires RequestsAlike(a, b)
    ensures forall r :: 0 <= r < |a| ==> (a[r].Answered? <==> b[r].Answered?) && (a[r].Answered? ==> a[r] == b[r])
  {
    forall r | 0 <= r < |a| ensures (a[r].Answered? <==> b[r].Answered?) && (a[r].Answered? ==> a[r] == b[r]) {
      assert Outline(a[r]) == Outline(b[r]);
    }
  }
}
