/** Runs in which requests get in each other's way, from the empty stores. */
module Races {
  import opened Wrappers
  import opened StoreModel
  import opened StoreInvariants
  import opened Stores
  import opened Handlers
  import opened SqliteHandlers

  import Blank

  const NOW := Env(0, "t", None)

  lemma FirstAndRest(a: seq<Event>, b: seq<Event>)
    requires a != []
    ensures [a[0]] + (a[1..] + b) == a + b
  {
  }

  lemma LeadsFirst(check: Check, w: World, e: Event, rest: seq<Event>, w': World)
    requires Enabled(w, e) && Leads(check, Apply(check, w, e), rest, w')
    ensures Leads(check, w, [e] + rest, w')
  {
    assert ([e] + rest)[1..] == rest;
  }

  lemma {:induction false} LeadsOn(check: Check, w: World, a: seq<Event>, w': World, b: seq<Event>, w'': World)
    requires Leads(check, w, a, w') && Leads(check, w', b, w'')
    ensures Leads(check, w, a + b, w'')
    decreases |a|
  {
    if a == [] {
      assert a + b == b;
    } else {
      LeadsOn(check, Apply(check, w, a[0]), a[1..], w', b, w'');
      LeadsFirst(check, w, a[0], a[1..] + b, w'');
      FirstAndRest(a, b);
    }
  }

  lemma OneStep(check: Check, w: World, e: Event)
    requires Enabled(w, e)
    ensures Leads(check, w, [e], Apply(check, w, e))
  {
    assert ([e])[1..] == [];
  }

  /** One user, "a", a viewer, with ID 1 and no session. */
  ghost predicate Seeded(s: Store, name: string, hash: string, role: string) {
    var m := View(s);
    && MemInv(m) && m.users.Keys == {1} && m.nextId == 2 && m.sessions == map[]
    && m.users[1].username == name && m.users[1].passwordHash == hash && m.users[1].role == role
  }

  function SeedRun(hash: string): seq<Event> { [Arrive(NewUser("a", "p", hash, "viewer")), Advance(0, NOW)] }

  lemma NotBlank()
    ensures !Blank.IsBlank("a") && !Blank.IsBlank("p") && !Blank.IsBlank("viewer")
  {
    var a, p, v := "a", "p", "viewer";
    assert !Blank.IsWhiteSpace(a[0]) && !Blank.IsWhiteSpace(p[0]) && !Blank.IsWhiteSpace(v[0]);
  }

  /** Creating the first user of a store. */
  lemma CreatesFirst(s: Store, hash: string)
    requires MemInv(View(s)) && View(s).users == map[] && View(s).nextId == 1 && View(s).sessions == map[]
    ensures var (s', reply) := Do(s, CreateUser("a", hash, "viewer"), 0);
            Seeded(s', "a", hash, "viewer") && !reply.Failed? && (s'.Memory? <==> s.Memory?)
  {
    var op := CreateUser("a", hash, "viewer");
    var (s', reply) := Do(s, op, 0);
    DoEffect(s, op, 0);
    EffectInv(View(s), op, View(s'), reply);
  }

  lemma Seed(check: Check, start: World, hash: string) returns (w: World)
    requires start == FreshMemory || start == FreshSqlite
    ensures Leads(check, start, SeedRun(hash), w) && w.requests == [Answered(201)]
    ensures w.store.Memory? <==> start.store.Memory?
    ensures Seeded(w.store, "a", hash, "viewer")
  {
    var q := NewUser("a", "p", hash, "viewer");
    var w1 := World(start.store, [q]);
    NotBlank();
    FreshInv();
    CreatesFirst(start.store, hash);
    w := Apply(check, w1, Advance(0, NOW));
    OneStep(check, start, Arrive(q));
    OneStep(check, w1, Advance(0, NOW));
    LeadsOn(check, start, [Arrive(q)], w1, [Advance(0, NOW)], w);
    assert [Arrive(q)] + [Advance(0, NOW)] == SeedRun(hash);
  }

  // ------------------------------------------------------------------------------------------
  // Pieces of runs
  // ------------------------------------------------------------------------------------------

  /** A request that reads leaves the store and the other requests as they are. */
  lemma LookStep(check: Check, w: World, r: nat)
    requires r < |w.requests| && !w.requests[r].Answered? && Change(w.requests[r], NOW).None?
    ensures var requests := w.requests[r := Look(check, View(w.store), w.requests[r])];
            Leads(check, w, [Advance(r, NOW)], World(w.store, requests))
  {
    OneStep(check, w, Advance(r, NOW));
  }

  lemma ArriveStep(check: Check, w: World, q: Request)
    requires Arriving(q)
    ensures Leads(check, w, [Arrive(q)], World(w.store, w.requests + [q]))
  {
    OneStep(check, w, Arrive(q));
  }

  function PasswordFetches(r: nat, newHash: string): seq<Event> {
    [Arrive(ChangePassword("a", "p", "p", newHash)), Advance(r, NOW)]
  }

  /** A password change of "a" arrives as request `r` and fetches the user. */
  lemma FetchPassword(check: Check, w: World, r: nat, hash: string, role: string, newHash: string)
    requires r == |w.requests| && Seeded(w.store, "a", hash, role)
    ensures Leads(check, w, PasswordFetches(r, newHash),
                  World(w.store, w.requests + [ChangePasswordCheck(View(w.store).users[1], "p", newHash)]))
  {
    var m, q := View(w.store), ChangePassword("a", "p", "p", newHash);
    var w1 := World(w.store, w.requests + [q]);
    ArriveStep(check, w, q);
    NotBlank();
    FoundByName(m, "a", 1);
    LookStep(check, w1, r);
    assert w1.requests[r := ChangePasswordCheck(m.users[1], "p", newHash)]
        == w.requests + [ChangePasswordCheck(m.users[1], "p", newHash)];
    LeadsOn(check, w, [Arrive(q)], w1, [Advance(r, NOW)],
            World(w.store, w.requests + [ChangePasswordCheck(m.users[1], "p", newHash)]));
    assert [Arrive(q)] + [Advance(r, NOW)] == PasswordFetches(r, newHash);
  }

  lemma ThenLook(check: Check, start: World, events: seq<Event>, w: World, r: nat, requests: seq<Request>)
    requires Leads(check, start, events, w)
    requires r < |w.requests| && !w.requests[r].Answered? && Change(w.requests[r], NOW).None?
    requires requests == w.requests[r := Look(check, View(w.store), w.requests[r])]
    ensures Leads(check, start, events + [Advance(r, NOW)], World(w.store, requests))
  {
    LookStep(check, w, r);
    LeadsOn(check, start, events, w, [Advance(r, NOW)], World(w.store, requests));
  }

  /** It checks the password and reads the fields. */
  lemma ReadPassword(check: Check, w: World, r: nat, u: User, newHash: string)
    requires r < |w.requests| && w.requests[r] == ChangePasswordCheck(u, "p", newHash) && check(u.passwordHash, "p")
    ensures Leads(check, w, [Advance(r, NOW), Advance(r, NOW)],
                  World(w.store, w.requests[r := ChangePasswordWrite(u, newHash)]))
  {
    var w1 := World(w.store, w.requests[r := ChangePasswordRead(u, newHash)]);
    assert Look(check, View(w.store), w.requests[r]) == ChangePasswordRead(u, newHash);
    LookStep(check, w, r);
    assert w1.requests[r := ChangePasswordWrite(u, newHash)] == w.requests[r := ChangePasswordWrite(u, newHash)];
    assert Look(check, View(w.store), w1.requests[r]) == ChangePasswordWrite(u, newHash);
    ThenLook(check, w, [Advance(r, NOW)], w1, r, w.requests[r := ChangePasswordWrite(u, newHash)]);
    assert [Advance(r, NOW)] + [Advance(r, NOW)] == [Advance(r, NOW), Advance(r, NOW)];
  }

  function EditReads(r: nat, edit: Edit): seq<Event> {
    [Arrive(EditUser(1, edit)), Advance(r, NOW), Advance(r, NOW)]
  }

  /** An edit of the user arrives as request `r`, fetches the user and reads the fields. */
  lemma ReadEdit(check: Check, w: World, r: nat, edit: Edit)
    requires r == |w.requests| && 1 in View(w.store).users && (edit.role.Some? ==> ValidRole(edit.role.value))
    ensures Leads(check, w, EditReads(r, edit),
                  World(w.store, w.requests + [EditUserWrite(View(w.store).users[1], edit)]))
  {
    var u, q := View(w.store).users[1], EditUser(1, edit);
    var w1, w2 := World(w.store, w.requests + [q]), World(w.store, w.requests + [EditUserRead(u, edit)]);
    var w3 := World(w.store, w.requests + [EditUserWrite(u, edit)]);
    ArriveStep(check, w, q);
    LookStep(check, w1, r);
    assert w1.requests[r := EditUserRead(u, edit)] == w2.requests;
    LookStep(check, w2, r);
    assert w2.requests[r := EditUserWrite(u, edit)] == w3.requests;
    LeadsOn(check, w, [Arrive(q)], w1, [Advance(r, NOW)], w2);
    LeadsOn(check, w, [Arrive(q)] + [Advance(r, NOW)], w2, [Advance(r, NOW)], w3);
    assert [Arrive(q)] + [Advance(r, NOW)] + [Advance(r, NOW)] == EditReads(r, edit);
  }

  /** With nobody else in the store an update goes through, and writes all fields as the request has them. */
  lemma Rewrites(s: Store, op: Op, name: string, hash: string, role: string)
    requires Seeded(s, name, hash, role) && op.UpdateUser? && op.id == 1
    ensures var (s', reply) := Do(s, op, 0);
            && Seeded(s', op.username, op.passwordHash, op.role) && (s'.Memory? <==> s.Memory?)
            && reply == UserReply(View(s').users[1])
  {
    var (s', reply) := Do(s, op, 0);
    DoEffect(s, op, 0);
    EffectInv(View(s), op, View(s'), reply);
  }

  lemma WriteStep(check: Check, w: World, r: nat, name: string, hash: string, role: string) returns (w': World)
    requires r < |w.requests| && (w.requests[r].ChangePasswordWrite? || w.requests[r].EditUserWrite?)
    requires Seeded(w.store, name, hash, role) && w.requests[r].read.id == 1
    ensures Leads(check, w, [Advance(r, NOW)], w') && (w'.store.Memory? <==> w.store.Memory?)
    ensures var op := Change(w.requests[r], NOW).value; Seeded(w'.store, op.username, op.passwordHash, op.role)
    ensures w'.requests == if w.store.Memory? then AllNoticed(w.requests[r := Answered(200)], View(w'.store).users[1])
                           else w.requests[r := Answered(200)]
  {
    w' := Apply(check, w, Advance(r, NOW));
    OneStep(check, w, Advance(r, NOW));
    Rewrites(w.store, Change(w.requests[r], NOW).value, name, hash, role);
  }

  function PasswordReads(r: nat, newHash: string): seq<Event> {
    PasswordFetches(r, newHash) + [Advance(r, NOW), Advance(r, NOW)]
  }

  lemma FetchAndReadPassword(check: Check, w: World, r: nat, hash: string, role: string, newHash: string)
    requires r == |w.requests| && Seeded(w.store, "a", hash, role) && check(hash, "p")
    ensures Leads(check, w, PasswordReads(r, newHash),
                  World(w.store, w.requests + [ChangePasswordWrite(View(w.store).users[1], newHash)]))
  {
    var u := View(w.store).users[1];
    var w1 := World(w.store, w.requests + [ChangePasswordCheck(u, "p", newHash)]);
    FetchPassword(check, w, r, hash, role, newHash);
    ReadPassword(check, w1, r, u, newHash);
    assert w1.requests[r := ChangePasswordWrite(u, newHash)] == w.requests + [ChangePasswordWrite(u, newHash)];
    LeadsOn(check, w, PasswordFetches(r, newHash), w1, [Advance(r, NOW), Advance(r, NOW)],
            World(w.store, w.requests + [ChangePasswordWrite(u, newHash)]));
  }

  lemma ThenPassword(
    check: Check, start: World, events: seq<Event>, w: World, r: nat, hash: string, role: string, newHash: string)
    requires Leads(check, start, events, w) && r == |w.requests| && Seeded(w.store, "a", hash, role) && check(hash, "p")
    ensures Leads(check, start, events + PasswordReads(r, newHash),
                  World(w.store, w.requests + [ChangePasswordWrite(View(w.store).users[1], newHash)]))
  {
    var w' := World(w.store, w.requests + [ChangePasswordWrite(View(w.store).users[1], newHash)]);
    FetchAndReadPassword(check, w, r, hash, role, newHash);
    LeadsOn(check, start, events, w, PasswordReads(r, newHash), w');
  }

  lemma ThenEdit(check: Check, start: World, events: seq<Event>, w: World, r: nat, edit: Edit)
    requires Leads(check, start, events, w) && r == |w.requests| && 1 in View(w.store).users
    requires edit.role.Some? ==> ValidRole(edit.role.value)
    ensures Leads(check, start, events + EditReads(r, edit),
                  World(w.store, w.requests + [EditUserWrite(View(w.store).users[1], edit)]))
  {
    var w' := World(w.store, w.requests + [EditUserWrite(View(w.store).users[1], edit)]);
    ReadEdit(check, w, r, edit);
    LeadsOn(check, start, events, w, EditReads(r, edit), w');
  }

  // ------------------------------------------------------------------------------------------
  // Lost updates
  // ------------------------------------------------------------------------------------------

  function RoleRun(hash: string, newHash: string): seq<Event> {
    SeedRun(hash) + PasswordReads(1, newHash) + EditReads(2, Edit(None, None, Some("admin")))
    + [Advance(2, NOW)] + [Advance(1, NOW)]
  }

  /** A write while nobody holds the user. */
  lemma ThenWrite(
    check: Check, start: World, events: seq<Event>, w: World, r: nat, name: string, hash: string, role: string)
    returns (w': World)
    requires Leads(check, start, events, w) && Seeded(w.store, name, hash, role)
    requires r < |w.requests| && (w.requests[r].ChangePasswordWrite? || w.requests[r].EditUserWrite?)
    requires w.requests[r].read.id == 1 && forall i :: 0 <= i < |w.requests| ==> !HoldsUser(w.requests[i])
    ensures Leads(check, start, events + [Advance(r, NOW)], w') && w'.requests == w.requests[r := Answered(200)]
    ensures var op := Change(w.requests[r], NOW).value; Seeded(w'.store, op.username, op.passwordHash, op.role)
  {
    w' := WriteStep(check, w, r, name, hash, role);
    LeadsOn(check, start, events, w, [Advance(r, NOW)], w');
    assert w'.requests == w.requests[r := Answered(200)];
  }

  /** The two writes that end a run, the second one's values having been read before the first. */
  lemma TwoWrites(check: Check, start: World, events: seq<Event>, w: World, a: nat, b: nat, hash: string)
    returns (w': World)
    requires Leads(check, start, events, w) && Seeded(w.store, "a", hash, "viewer")
    requires a < |w.requests| && b < |w.requests| && a != b
    requires forall r :: 0 <= r < |w.requests| ==> !HoldsUser(w.requests[r])
    requires w.requests[a].ChangePasswordWrite? || w.requests[a].EditUserWrite?
    requires w.requests[b].ChangePasswordWrite? || w.requests[b].EditUserWrite?
    requires w.requests[a].read.id == 1 && w.requests[b].read.id == 1
    ensures Leads(check, start, events + [Advance(a, NOW)] + [Advance(b, NOW)], w')
    ensures w'.requests == w.requests[a := Answered(200)][b := Answered(200)]
    ensures var op := Change(w.requests[b], NOW).value; Seeded(w'.store, op.username, op.passwordHash, op.role)
  {
    var op := Change(w.requests[a], NOW).value;
    var w1 := ThenWrite(check, start, events, w, a, "a", hash, "viewer");
    w' := ThenWrite(check, start, events + [Advance(a, NOW)], w1, b, op.username, op.passwordHash, op.role);
  }

  /** With either store: an edit that makes "a" an administrator falls between the reading and the writing of a
      password change.  Both are answered 200, and "a" is a viewer. */
  lemma RoleChangeUndone(check: Check, start: World, hash: string, newHash: string) returns (w: World)
    requires (start == FreshMemory || start == FreshSqlite) && check(hash, "p")
    ensures Leads(check, start, RoleRun(hash, newHash), w)
    ensures w.requests == [Answered(201), Answered(200), Answered(200)]
    ensures Seeded(w.store, "a", newHash, "viewer")
  {
    var edit := Edit(None, None, Some("admin"));
    var w1 := Seed(check, start, hash);
    var u := View(w1.store).users[1];
    var w2 := World(w1.store, w1.requests + [ChangePasswordWrite(u, newHash)]);
    var w3 := World(w1.store, w2.requests + [EditUserWrite(u, edit)]);
    ThenPassword(check, start, SeedRun(hash), w1, 1, hash, "viewer", newHash);
    ThenEdit(check, start, SeedRun(hash) + PasswordReads(1, newHash), w2, 2, edit);
    w := TwoWrites(check, start, SeedRun(hash) + PasswordReads(1, newHash) + EditReads(2, edit), w3, 2, 1, hash);
  }

  function RestoreRun(hash: string, newHash: string): seq<Event> {
    SeedRun(hash) + EditReads(1, Edit(Some("b"), None, None)) + PasswordReads(2, newHash)
    + [Advance(2, NOW)] + [Advance(1, NOW)]
  }

  /** With either store: a password change falls between the reading and the writing of an edit of the name.  Both
      are answered 200, and the old password is back. */
  lemma PasswordRestored(check: Check, start: World, hash: string, newHash: string) returns (w: World)
    requires (start == FreshMemory || start == FreshSqlite) && check(hash, "p")
    ensures Leads(check, start, RestoreRun(hash, newHash), w)
    ensures w.requests == [Answered(201), Answered(200), Answered(200)]
    ensures Seeded(w.store, "b", hash, "viewer")
  {
    var edit := Edit(Some("b"), None, None);
    var w1 := Seed(check, start, hash);
    var u := View(w1.store).users[1];
    var w2 := World(w1.store, w1.requests + [EditUserWrite(u, edit)]);
    var w3 := World(w1.store, w2.requests + [ChangePasswordWrite(u, newHash)]);
    ThenEdit(check, start, SeedRun(hash), w1, 1, edit);
    ThenPassword(check, start, SeedRun(hash) + EditReads(1, edit), w2, 2, hash, "viewer", newHash);
    assert Change(w3.requests[1], NOW) == Some(UpdateUser(1, "b", hash, "viewer"));
    w := TwoWrites(check, start, SeedRun(hash) + EditReads(1, edit) + PasswordReads(2, newHash), w3, 2, 1, hash);
  }

  // ------------------------------------------------------------------------------------------
  // Different answers
  // ------------------------------------------------------------------------------------------

  function RenameRun(hash: string, newHash: string): seq<Event> {
    SeedRun(hash) + PasswordFetches(1, newHash) + EditReads(2, Edit(Some("b"), None, None))
  }

  function TakeNameRun(hash: string): seq<Event> {
    [Advance(1, NOW), Advance(1, NOW)] + [Arrive(NewUser("a", "p", hash, "viewer"))] + [Advance(3, NOW)]
  }

  /** The user "a" is renamed to "b" after a password change has fetched it, and the name is given to somebody else
      before the password change writes. */
  function DivergingRun(hash: string, newHash: string): seq<Event> {
    RenameRun(hash, newHash) + [Advance(2, NOW)] + TakeNameRun(hash) + [Advance(1, NOW)]
  }

  lemma FetchedTwice(check: Check, start: World, hash: string, newHash: string) returns (w: World)
    requires (start == FreshMemory || start == FreshSqlite) && check(hash, "p")
    ensures Leads(check, start, RenameRun(hash, newHash), w)
    ensures Seeded(w.store, "a", hash, "viewer") && (w.store.Memory? <==> start.store.Memory?)
    ensures var u := View(w.store).users[1];
            w.requests
            == [Answered(201), ChangePasswordCheck(u, "p", newHash), EditUserWrite(u, Edit(Some("b"), None, None))]
  {
    var edit := Edit(Some("b"), None, None);
    var w1 := Seed(check, start, hash);
    var u := View(w1.store).users[1];
    var w2 := World(w1.store, w1.requests + [ChangePasswordCheck(u, "p", newHash)]);
    w := World(w1.store, w2.requests + [EditUserWrite(u, edit)]);
    FetchPassword(check, w1, 1, hash, "viewer", newHash);
    LeadsOn(check, start, SeedRun(hash), w1, PasswordFetches(1, newHash), w2);
    ThenEdit(check, start, SeedRun(hash) + PasswordFetches(1, newHash), w2, 2, edit);
  }

  /** What the password change holds after the renaming: the object renamed, or the old copy. */
  lemma Renamed(check: Check, w: World, u: User, hash: string, newHash: string) returns (w': World, held: User)
    requires Seeded(w.store, "a", hash, "viewer") && u == View(w.store).users[1]
    requires w.requests
          == [Answered(201), ChangePasswordCheck(u, "p", newHash), EditUserWrite(u, Edit(Some("b"), None, None))]
    ensures Leads(check, w, [Advance(2, NOW)], w') && (w'.store.Memory? <==> w.store.Memory?)
    ensures w'.requests == [Answered(201), ChangePasswordCheck(held, "p", newHash), Answered(200)]
    ensures Seeded(w'.store, "b", hash, "viewer")
    ensures held.id == 1 && held.passwordHash == hash && held.role == "viewer"
    ensures held.username == if w.store.Memory? then "b" else "a"
  {
    w' := WriteStep(check, w, 2, "a", hash, "viewer");
    held := if w.store.Memory? then View(w'.store).users[1] else u;
    assert w.requests[2 := Answered(200)] == [Answered(201), ChangePasswordCheck(u, "p", newHash), Answered(200)];
    if w.store.Memory? {
      assert w'.requests == [Answered(201), ChangePasswordCheck(held, "p", newHash), Answered(200)];
    }
  }

  /** Two users: the one renamed, and a new one with its old name. */
  ghost predicate NameTaken(s: Store) {
    var m := View(s);
    && MemInv(m) && m.users.Keys == {1, 2} && m.users[1].username == "b" && m.users[2].username == "a"
  }

  lemma NameIsTaken(check: Check, w: World, held: User, hash: string, newHash: string) returns (w': World)
    requires Seeded(w.store, "b", hash, "viewer") && check(held.passwordHash, "p")
    requires w.requests == [Answered(201), ChangePasswordCheck(held, "p", newHash), Answered(200)]
    ensures Leads(check, w, TakeNameRun(hash), w') && (w'.store.Memory? <==> w.store.Memory?)
    ensures |w'.requests| == 4 && w'.requests[1] == ChangePasswordWrite(held, newHash)
    ensures NameTaken(w'.store)
  {
    var q := NewUser("a", "p", hash, "viewer");
    var w1 := World(w.store, w.requests[1 := ChangePasswordWrite(held, newHash)]);
    var w2 := World(w.store, w1.requests + [q]);
    ReadPassword(check, w, 1, held, newHash);
    ArriveStep(check, w1, q);
    LeadsOn(check, w, [Advance(1, NOW), Advance(1, NOW)], w1, [Arrive(q)], w2);
    w' := CreateStep(check, w2, 3, hash);
    LeadsOn(check, w, [Advance(1, NOW), Advance(1, NOW)] + [Arrive(q)], w2, [Advance(3, NOW)], w');
  }

  lemma CreateStep(check: Check, w: World, r: nat, hash: string) returns (w': World)
    requires r < |w.requests| && w.requests[r] == NewUser("a", "p", hash, "viewer")
    requires Seeded(w.store, "b", hash, "viewer")
    ensures Leads(check, w, [Advance(r, NOW)], w') && (w'.store.Memory? <==> w.store.Memory?)
    ensures w'.requests == w.requests[r := Answered(201)] && NameTaken(w'.store)
  {
    NotBlank();
    var op := CreateUser("a", hash, "viewer");
    assert Change(w.requests[r], NOW) == Some(op);
    w' := Apply(check, w, Advance(r, NOW));
    OneStep(check, w, Advance(r, NOW));
    DoEffect(w.store, op, 0);
    EffectInv(View(w.store), op, View(w'.store), Do(w.store, op, 0).1);
  }

  /** The renamed user may keep its new name, but not go back to the old one. */
  lemma OldNameRefused(s: Store, op: Op)
    requires NameTaken(s) && op.UpdateUser? && op.id == 1 && (op.username == "a" || op.username == "b")
    ensures var reply := Do(s, op, 0).1; if op.username == "b" then !reply.Failed? else reply == Failed(UsernameTaken)
  {
    var m := View(s);
    DoEffect(s, op, 0);
    assert m.users[2].username == "a" && m.users[2].id == 2 && m.users[1].id == 1;
    assert Refuses(m, op) <==> op.username == "a";
  }

  lemma LastStep(check: Check, w: World, held: User, newHash: string) returns (w': World)
    requires NameTaken(w.store) && 1 < |w.requests| && w.requests[1] == ChangePasswordWrite(held, newHash)
    requires held.id == 1 && held.username == if w.store.Memory? then "b" else "a"
    ensures Leads(check, w, [Advance(1, NOW)], w')
    ensures |w'.requests| == |w.requests| && w'.requests[1] == Answered(if w.store.Memory? then 200 else 500)
  {
    w' := Apply(check, w, Advance(1, NOW));
    OneStep(check, w, Advance(1, NOW));
    OldNameRefused(w.store, Change(w.requests[1], NOW).value);
    Others(check, w, Advance(1, NOW), 1);
  }

  /** The two stores answer differently: the password change that holds the renamed object succeeds, the one that holds
      the old copy asks for a name that somebody else has by now. */
  lemma DifferentAnswers(check: Check, start: World, hash: string, newHash: string) returns (w: World)
    requires (start == FreshMemory || start == FreshSqlite) && check(hash, "p")
    ensures Leads(check, start, DivergingRun(hash, newHash), w)
    ensures |w.requests| == 4 && w.requests[1] == Answered(if start.store.Memory? then 200 else 500)
  {
    var w1 := FetchedTwice(check, start, hash, newHash);
    var w2, held := Renamed(check, w1, View(w1.store).users[1], hash, newHash);
    LeadsOn(check, start, RenameRun(hash, newHash), w1, [Advance(2, NOW)], w2);
    var w3 := NameIsTaken(check, w2, held, hash, newHash);
    LeadsOn(check, start, RenameRun(hash, newHash) + [Advance(2, NOW)], w2, TakeNameRun(hash), w3);
    w := LastStep(check, w3, held, newHash);
    LeadsOn(check, start, RenameRun(hash, newHash) + [Advance(2, NOW)] + TakeNameRun(hash), w3, [Advance(1, NOW)], w);
  }

  // ------------------------------------------------------------------------------------------
  // Nothing is wrong with the run
  // ------------------------------------------------------------------------------------------

  predicate LogsIn(q: Request) { q.Login? || q.LoginCheck? || q.LoginRead? || q.LoginCreate? }

  predicate Plain(e: Event) { match e case Arrive(q) => !LogsIn(q) case Advance(_, env) => env == NOW }

  /** A run in which the clock stands still and nobody logs in is orderly. */
  lemma {:induction false} PlainRunIsOrderly(check: Check, w: World, events: seq<Event>, w': World)
    requires Leads(check, w, events, w')
    requires forall i :: 0 <= i < |events| ==> Plain(events[i])
    requires forall r :: 0 <= r < |w.requests| ==> !LogsIn(w.requests[r])
    ensures OrderlyRun(check, w, events, {}, 0)
    decreases |events|
  {
    if events != [] {
      var e := events[0];
      var w1 := Apply(check, w, e);
      assert Plain(e);
      assert Storable(0);
      forall r | 0 <= r < |w1.requests| ensures !LogsIn(w1.requests[r]) {
        if r < |w.requests| { Others(check, w, e, r); }
      }
      assert IssuedAfter(w, e, {}) == {};
      PlainRunIsOrderly(check, w1, events[1..], w');
    }
  }

  /** It is an orderly run that makes the difference, and in it a step changes a user that a request holds. */
  lemma DivergenceIsOrderly(check: Check, hash: string, newHash: string)
    requires check(hash, "p")
    ensures OrderlyRun(check, FreshMemory, DivergingRun(hash, newHash), {}, 0)
    ensures !Undisturbed(check, FreshMemory, DivergingRun(hash, newHash))
  {
    var run := DivergingRun(hash, newHash);
    var w := DifferentAnswers(check, FreshMemory, hash, newHash);
    var s := DifferentAnswers(check, FreshSqlite, hash, newHash);
    assert forall i :: 0 <= i < |run| ==> Plain(run[i]);
    PlainRunIsOrderly(check, FreshMemory, run, w);
    if Undisturbed(check, FreshMemory, run) { SameAnswers(check, run, w, s); }
  }
}
