/**
 * What an update of a user may overwrite.  `UpdateUser` writes all fields, those a request was not asked to change
 * as it has read them.  They are read before the store is locked, with either store, so an update that falls in
 * between is undone.
 */
module LostUpdates {
  import opened Wrappers
  import opened StoreModel
  import opened StoreInvariants
  import opened Stores
  import opened Handlers

  // ------------------------------------------------------------------------------------------
  // What is in the store
  // ------------------------------------------------------------------------------------------

  /** The last update of a user in a run, as it left the user. */
  ghost function LastUpdate(check: Check, w: World, events: seq<Event>, id: Id): Option<User>
    decreases |events|
  {
    if events == [] || !Enabled(w, events[0]) then None
    else
      var later, u := LastUpdate(check, Apply(check, w, events[0]), events[1..], id), Updated(w, events[0]);
      if later.Some? then later else if u.Some? && u.value.id == id then u else None
  }

  lemma StepStored(w: World, e: Event, id: Id)
    requires Inv(w) && Enabled(w, e) && id < View(w.store).nextId && id in View(StoreAfter(w, e)).users
    ensures id in View(w.store).users
    ensures var u := Updated(w, e);
            View(StoreAfter(w, e)).users[id] == if u.Some? && u.value.id == id then u.value else View(w.store).users[id]
  {
    if OpOf(w, e).Some? { DoEffect(w.store, OpOf(w, e).value, e.env.now); }
  }

  /** A user is what its last update left, or what it was. */
  lemma {:induction false} StoredIsLast(check: Check, w: World, events: seq<Event>, w': World, id: Id)
    requires Inv(w) && Leads(check, w, events, w') && id < View(w.store).nextId && id in View(w'.store).users
    ensures id in View(w.store).users
    ensures var last := LastUpdate(check, w, events, id);
            View(w'.store).users[id] == if last.Some? then last.value else View(w.store).users[id]
    decreases |events|
  {
    if events != [] {
      StepInv(check, w, events[0]);
      StoredIsLast(check, Apply(check, w, events[0]), events[1..], w', id);
      StepStored(w, events[0], id);
    }
  }

  // ------------------------------------------------------------------------------------------
  // What a request holds
  // ------------------------------------------------------------------------------------------

  ghost predicate Current(m: MemState, u: User) { u.id in m.users ==> m.users[u.id] == u }

  /** With shared objects, what a request holds of a stored user is the user as it is now. */
  ghost predicate UpToDate(w: World) {
    w.store.Memory? ==>
      forall r :: 0 <= r < |w.requests| && HoldsUser(w.requests[r]) ==> Current(View(w.store), w.requests[r].user)
  }

  lemma LookedIsCurrent(check: Check, m: MemState, q: Request)
    requires MemInv(m) && (HoldsUser(q) ==> Current(m, q.user))
    ensures var q' := Look(check, m, q);
            && (HoldsUser(q') ==> Current(m, q'.user))
            && (HasRead(q') ==> HoldsUser(q) && q'.read == q.user)
  {
  }

  /** Once it is noticed, an update leaves what a request holds up to date. */
  lemma NoticedIsCurrent(w: World, e: Event, q: Request)
    requires Inv(w) && Enabled(w, e) && HoldsUser(q)
    requires Known(View(w.store), q.user) && Current(View(w.store), q.user)
    ensures var u := Updated(w, e);
            Current(View(StoreAfter(w, e)), (if u.Some? then Noticed(q, u.value) else q).user)
  {
    if q.user.id in View(StoreAfter(w, e)).users { StepStored(w, e, q.user.id); }
  }

  lemma StepUpToDate(check: Check, w: World, e: Event)
    requires Inv(w) && UpToDate(w) && Enabled(w, e)
    ensures UpToDate(Apply(check, w, e))
  {
    var m, w' := View(w.store), Apply(check, w, e);
    if w.store.Memory? {
      forall r | 0 <= r < |w'.requests| && HoldsUser(w'.requests[r])
        ensures Current(View(w'.store), w'.requests[r].user)
      {
        assert r < |w.requests| && RequestInv(m, w.requests[r]);
        Others(check, w, e, r);
        LookedIsCurrent(check, m, w.requests[r]);
        LookInv(check, m, w.requests[r]);
        var p := if e.Advance? && r == e.r then Proceed(check, w.store, w.requests[r], e.env) else w.requests[r];
        NoticedIsCurrent(w, e, p);
      }
    }
  }

  lemma {:induction false} RunUpToDate(check: Check, w: World, events: seq<Event>, w': World)
    requires Inv(w) && UpToDate(w) && Leads(check, w, events, w')
    ensures UpToDate(w')
    decreases |events|
  {
    if events != [] {
      StepInv(check, w, events[0]);
      StepUpToDate(check, w, events[0]);
      RunUpToDate(check, Apply(check, w, events[0]), events[1..], w');
    }
  }

  /** The next step of the request is the one that takes the values it will write: the read of the shared object,
      or the fetch of the copy. */
  predicate Captures(s: Store, q: Request) {
    if s.Memory? then q.LoginRead? || q.ChangePasswordRead? || q.EditUserRead?
    else q.Login? || q.ChangePassword? || q.EditUser?
  }

  /** Nothing can change any more what the request has taken. */
  predicate Settled(s: Store, q: Request, u: User) {
    || q.Answered?
    || (HasRead(q) && q.read == u)
    || (s.Sqlite? && HoldsUser(q) && q.user == u)
  }

  lemma StaysSettled(check: Check, w: World, e: Event, r: nat, u: User)
    requires Enabled(w, e) && r < |w.requests| && Settled(w.store, w.requests[r], u)
    ensures r < |Apply(check, w, e).requests| && Settled(Apply(check, w, e).store, Apply(check, w, e).requests[r], u)
  {
    Others(check, w, e, r);
  }

  lemma {:induction false} RunSettled(check: Check, w: World, events: seq<Event>, w': World, r: nat, u: User)
    requires Leads(check, w, events, w') && r < |w.requests| && Settled(w.store, w.requests[r], u)
    ensures r < |w'.requests| && Settled(w'.store, w'.requests[r], u)
    decreases |events|
  {
    if events != [] {
      StaysSettled(check, w, events[0], r, u);
      RunSettled(check, Apply(check, w, events[0]), events[1..], w', r, u);
    }
  }

  /** What is taken is what is in the store, and stays what is taken. */
  lemma CaptureSettles(check: Check, w: World, r: nat, env: Env) returns (u: User)
    requires Inv(w) && UpToDate(w) && r < |w.requests| && Captures(w.store, w.requests[r])
    ensures var w' := Apply(check, w, Advance(r, env));
            && w'.store == w.store && r < |w'.requests| && Settled(w'.store, w'.requests[r], u)
            && (!w'.requests[r].Answered? ==> Given(View(w.store), u.id) && Current(View(w.store), u))
  {
    var m, q := View(w.store), w.requests[r];
    var q' := Look(check, m, q);
    Others(check, w, Advance(r, env), r);
    LookedIsCurrent(check, m, q);
    LookInv(check, m, q);
    u := if HasRead(q') then q'.read else if HoldsUser(q') then q'.user else User(0, "", "", "", 0, 0);
    assert RequestInv(m, q);
  }

  // ------------------------------------------------------------------------------------------
  // The exact condition
  // ------------------------------------------------------------------------------------------

  /** The user with what was asked for changed, and nothing else. */
  function Edited(u: User, edit: Edit, updatedAt: int): User {
    u.(username := Or(edit.username, u.username), passwordHash := Or(edit.hash, u.passwordHash),
       role := Or(edit.role, u.role), updatedAt := updatedAt)
  }

  /** In the fields a request was not asked to change the update left what the request has read. */
  predicate Agrees(u: User, edit: Edit, read: User) {
    && (edit.username.None? ==> u.username == read.username)
    && (edit.hash.None? ==> u.passwordHash == read.passwordHash)
    && (edit.role.None? ==> u.role == read.role)
  }

  lemma WriteKeepsIff(check: Check, w: World, r: nat, env: Env)
    requires Inv(w) && r < |w.requests| && (w.requests[r].ChangePasswordWrite? || w.requests[r].EditUserWrite?)
    requires r < |Apply(check, w, Advance(r, env)).requests|
    requires Apply(check, w, Advance(r, env)).requests[r] == Answered(200)
    ensures var q, m, m' := w.requests[r], View(w.store), View(Apply(check, w, Advance(r, env)).store);
            && q.read.id in m.users && q.read.id in m'.users
            && (m'.users[q.read.id] == Edited(m.users[q.read.id], EditOf(q), m'.users[q.read.id].updatedAt)
                <==> Agrees(m.users[q.read.id], EditOf(q), q.read))
  {
    DoEffect(w.store, Change(w.requests[r], env).value, env.now);
    Others(check, w, Advance(r, env), r);
  }

  /** The request's next step takes values, `between` follows, and it has still to write them. */
  ghost predicate InFlight(
    check: Check, start: World, before: seq<Event>, w0: World, r: nat, env0: Env, between: seq<Event>, w: World)
  {
    && Inv(start) && start.requests == [] && Leads(check, start, before, w0)
    && r < |w0.requests| && Captures(w0.store, w0.requests[r])
    && Leads(check, Apply(check, w0, Advance(r, env0)), between, w)
    && r < |w.requests| && HasRead(w.requests[r])
  }

  lemma {:induction false} NotYetAnswered(check: Check, w: World, events: seq<Event>, w': World, r: nat)
    requires Leads(check, w, events, w') && r < |w.requests|
    ensures r < |w'.requests| && (!w'.requests[r].Answered? ==> !w.requests[r].Answered?)
    decreases |events|
  {
    if events != [] {
      Others(check, w, events[0], r);
      NotYetAnswered(check, Apply(check, w, events[0]), events[1..], w', r);
    }
  }

  /** The user, if still there, is what its last update since then left, or what the request has read. */
  lemma StoredInFlight(
    check: Check, start: World, before: seq<Event>, w0: World, r: nat, env0: Env, between: seq<Event>, w: World)
    requires InFlight(check, start, before, w0, r, env0, between, w)
    ensures Inv(w)
    ensures var u, m := w.requests[r].read, View(w.store);
            var last := LastUpdate(check, Apply(check, w0, Advance(r, env0)), between, u.id);
            u.id in m.users ==> m.users[u.id] == if last.Some? then last.value else u
  {
    RunInv(check, start, before, w0);
    RunUpToDate(check, start, before, w0);
    var w1 := Apply(check, w0, Advance(r, env0));
    StepInv(check, w0, Advance(r, env0));
    var u := CaptureSettles(check, w0, r, env0);
    RunSettled(check, w1, between, w, r, u);
    NotYetAnswered(check, w1, between, w, r);
    RunInv(check, w1, between, w);
    if u.id in View(w.store).users { StoredIsLast(check, w1, between, w, u.id); }
  }

  /** A password change or an edit that succeeds leaves everything it was not asked to change as it finds it, if and
      only if the last update of the user since the request took its values, if there was one, agrees with them.
      With the in-memory store a request takes its values when it reads the object's fields, with SQLite when it
      fetches the row. */
  lemma OverwritesNothingIff(
    check: Check, start: World, before: seq<Event>, w0: World, r: nat, env0: Env,
    between: seq<Event>, w: World, env: Env)
    requires InFlight(check, start, before, w0, r, env0, between, w)
    requires w.requests[r].ChangePasswordWrite? || w.requests[r].EditUserWrite?
    requires r < |Apply(check, w, Advance(r, env)).requests|
    requires Apply(check, w, Advance(r, env)).requests[r] == Answered(200)
    ensures var q, m, m' := w.requests[r], View(w.store), View(Apply(check, w, Advance(r, env)).store);
            var last := LastUpdate(check, Apply(check, w0, Advance(r, env0)), between, q.read.id);
            && q.read.id in m.users && q.read.id in m'.users
            && (m'.users[q.read.id] == Edited(m.users[q.read.id], EditOf(q), m'.users[q.read.id].updatedAt)
                <==> last.None? || Agrees(last.value, EditOf(q), q.read))
  {
    StoredInFlight(check, start, before, w0, r, env0, between, w);
    WriteKeepsIff(check, w, r, env);
  }

  lemma LoginWrites(check: Check, w: World, r: nat, env: Env)
    requires Inv(w) && r < |w.requests| && w.requests[r].LoginCreate?
    requires r < |Apply(check, w, Advance(r, env)).requests|
    requires Apply(check, w, Advance(r, env)).requests[r] == Answered(200)
    ensures AddsSession(View(w.store), Change(w.requests[r], env).value, View(Apply(check, w, Advance(r, env)).store))
  {
    DoEffect(w.store, Change(w.requests[r], env).value, env.now);
    Others(check, w, Advance(r, env), r);
  }

  /** Likewise a login: its session has the name and role the user has at that moment, if the user is still there,
      if and only if the last update since the login took them left them alone. */
  lemma SessionCurrentIff(
    check: Check, start: World, before: seq<Event>, w0: World, r: nat, env0: Env,
    between: seq<Event>, w: World, env: Env)
    requires InFlight(check, start, before, w0, r, env0, between, w)
    requires w.requests[r].LoginCreate? && w.requests[r].read.id in View(w.store).users
    requires r < |Apply(check, w, Advance(r, env)).requests|
    requires Apply(check, w, Advance(r, env)).requests[r] == Answered(200)
    ensures var u, m, m' := w.requests[r].read, View(w.store), View(Apply(check, w, Advance(r, env)).store);
            var last := LastUpdate(check, Apply(check, w0, Advance(r, env0)), between, u.id);
            && m.nextSessionId in m'.sessions && m'.sessions[m.nextSessionId].userId == u.id
            && (m'.sessions[m.nextSessionId].username == m.users[u.id].username
                && m'.sessions[m.nextSessionId].role == m.users[u.id].role
                <==> last.None? || (last.value.username == u.username && last.value.role == u.role))
  {
    StoredInFlight(check, start, before, w0, r, env0, between, w);
    LoginWrites(check, w, r, env);
  }

  // ------------------------------------------------------------------------------------------
  // Logins
  // ------------------------------------------------------------------------------------------

  /** The request is a login past its check, for the user with this ID, or it is over. */
  predicate LoginOf(q: Request, id: Id) {
    q.Answered? || (q.LoginRead? && q.user.id == id) || (q.LoginCreate? && q.read.id == id)
  }

  lemma {:induction false} RunLogin(check: Check, w: World, events: seq<Event>, w': World, r: nat, id: Id)
    requires Leads(check, w, events, w') && r < |w.requests| && LoginOf(w.requests[r], id)
    ensures r < |w'.requests| && LoginOf(w'.requests[r], id)
    decreases |events|
  {
    if events != [] {
      Others(check, w, events[0], r);
      RunLogin(check, Apply(check, w, events[0]), events[1..], w', r, id);
    }
  }

  /** Whatever runs in between, a login that is answered 200 has compared the password with the hash of the user it
      fetched, and opens exactly one session, of that very user; nothing else changes. */
  lemma LoginOpensOne(check: Check, w0: World, r: nat, env0: Env, between: seq<Event>, w: World, env: Env)
    requires Inv(w0) && r < |w0.requests| && w0.requests[r].LoginCheck?
    requires Leads(check, Apply(check, w0, Advance(r, env0)), between, w) && r < |w.requests|
    requires w.requests[r].LoginCreate? && r < |Apply(check, w, Advance(r, env)).requests|
    requires Apply(check, w, Advance(r, env)).requests[r] == Answered(200)
    ensures check(w0.requests[r].user.passwordHash, w0.requests[r].password)
    ensures w.requests[r].read.id == w0.requests[r].user.id
    ensures AddsSession(View(w.store), Change(w.requests[r], env).value, View(Apply(check, w, Advance(r, env)).store))
  {
    var w1, u := Apply(check, w0, Advance(r, env0)), w0.requests[r].user;
    StepInv(check, w0, Advance(r, env0));
    RunInv(check, w1, between, w);
    Others(check, w0, Advance(r, env0), r);
    NotYetAnswered(check, w1, between, w, r);
    RunLogin(check, w1, between, w, r, u.id);
    LoginWrites(check, w, r, env);
  }
}
