/**
 * `InMemoryStore` as the object it is.  The users are objects of their own, handed out to callers and updated
 * in place; each method is proved against the function on the contents that `StoreModel` gives for it.
 */
module MemoryStore {
  import opened Wrappers
  import opened StoreModel
  import opened StoreInvariants
  import opened Stores

  class UserObject {
    var id: Id
    var username: string
    var passwordHash: string
    var role: string
    var createdAt: int
    var updatedAt: int

    constructor (u: User)
      ensures Value() == u
    {
      id, username, passwordHash, role, createdAt, updatedAt :=
        u.id, u.username, u.passwordHash, u.role, u.createdAt, u.updatedAt;
    }

    function Value(): User
      reads this
    {
      User(id, username, passwordHash, role, createdAt, updatedAt)
    }

    method Assign(username: string, hash: string, role: string, now: int)
      modifies this
      ensures Value()
           == old(Value()).(username := username, passwordHash := hash, role := role, updatedAt := now)
    {
      this.username := username;
      passwordHash := hash;
      this.role := role;
      updatedAt := now;
    }
  }

  class InMemoryStore {
    var users: map<Id, UserObject>
    var nextId: Id
    var sessions: map<Id, Session>
    var nextSessionId: Id

    /** Distinct keys hold distinct objects, and every key is its object's ID. */
    ghost predicate Valid()
      reads this, users.Values
    {
      && (forall j, k :: j in users && k in users && j != k ==> users[j] != users[k])
      && MemInv(State())
    }

    ghost function State(): (m: MemState)
      reads this, users.Values
      ensures m.users.Keys == users.Keys
      ensures forall k :: k in users ==> m.users[k] == users[k].Value()
    {
      MemState(map k | k in users :: users[k].Value(), nextId, sessions, nextSessionId)
    }

    constructor ()
      ensures Valid() && State() == EmptyMem
    {
      users, nextId, sessions, nextSessionId := map[], 1, map[], 1;
    }

    /** The loop over the map, in any order, for an object with the given name; `except` is the ID of an
        object to pass over. */
    method FindByName(username: string, except: Option<Id>) returns (found: Option<UserObject>)
      requires Valid()
      ensures found.Some? ==>
        && found.value.id in users && users[found.value.id] == found.value
        && found.value.username == username && Some(found.value.id) != except
      ensures found.None? ==> forall k :: k in users && users[k].username == username ==> Some(users[k].id) == except
    {
      var keys := users.Keys;
      while keys != {}
        invariant keys <= users.Keys
        invariant forall k :: k in users && k !in keys && users[k].username == username ==> Some(users[k].id) == except
        decreases |keys|
      {
        var k :| k in keys;
        if users[k].username == username && Some(users[k].id) != except {
          assert State().users[k].id == k;
          return Some(users[k]);
        }
        keys := keys - {k};
      }
      found := None;
    }

    method AddUser(u: User) returns (user: UserObject)
      requires Valid() && u.id == nextId && !NameUsed(State().users, u.username)
      modifies this
      ensures Valid() && fresh(user) && user.Value() == u
      ensures users == old(users)[u.id := user]
      ensures State() == old(State()).(users := old(State()).users[u.id := u], nextId := u.id + 1)
    {
      ghost var before := State();
      AddKeepsInv(before, u);
      user := new UserObject(u);
      users := users[nextId := user];
      nextId := nextId + 1;
      assert State().users == before.users[u.id := u];
      assert State() == before.(users := before.users[u.id := u], nextId := u.id + 1);
    }

    method CreateUser(username: string, hash: string, role: string, now: int)
      returns (r: Result<UserObject, StoreError>)
      requires Valid()
      modifies this
      ensures Valid()
      ensures State() == MemCreateUser(old(State()), username, hash, role, now).0
      ensures r.Success? ==>
        && fresh(r.value) && users == old(users)[old(nextId) := r.value]
        && r.value.Value() == User(old(nextId), username, hash, role, now, now)
      ensures Answers(r, MemCreateUser(old(State()), username, hash, role, now).1)
    {
      var taken := FindByName(username, None);
      if taken.Some? {
        assert State().users[taken.value.id].username == username;
        return Failure(UserExists);
      }
      assert !NameUsed(State().users, username);
      var user := AddUser(User(nextId, username, hash, role, now, now));
      r := Success(user);
    }

    method GetUser(id: Id) returns (r: Result<UserObject, StoreError>)
      requires Valid()
      ensures r == if id in users then Success(users[id]) else Failure(UserNotFound)
      ensures r.Success? ==> r.value.Value() == State().users[id] && r.value.id == id
    {
      if id !in users { return Failure(UserNotFound); }
      assert State().users[id].id == id;
      r := Success(users[id]);
    }

    method GetUserByUsername(username: string) returns (r: Result<UserObject, StoreError>)
      requires Valid()
      ensures r.Success? ==>
        var u := r.value; u.id in users && users[u.id] == u && u.username == username
      ensures r.Failure? ==> r.error == UserNotFound && !NameUsed(State().users, username)
    {
      var found := FindByName(username, None);
      r := match found case Some(u) => Success(u) case None => Failure(UserNotFound);
    }

    /** The loop that collects the keys of the users of one role, or of all users. */
    method CollectKeys(role: string) returns (listed: seq<Id>)
      ensures forall i, j :: 0 <= i < j < |listed| ==> listed[i] != listed[j]
      ensures forall k :: k in listed <==> k in users && (role == "" || users[k].role == role)
    {
      listed := [];
      var keys := users.Keys;
      while keys != {}
        invariant keys <= users.Keys
        invariant forall i, j :: 0 <= i < j < |listed| ==> listed[i] != listed[j]
        invariant forall k :: k in listed <==> k in users && k !in keys && (role == "" || users[k].role == role)
        decreases |keys|
      {
        var k :| k in keys;
        if role == "" || users[k].role == role {
          listed := listed + [k];
        }
        keys := keys - {k};
      }
    }

    /** All users, or those of one role: every matching object exactly once, in the order of the iteration. */
    method ListUsers(role: string) returns (list: seq<UserObject>)
      requires Valid()
      ensures forall i, j :: 0 <= i < j < |list| ==> list[i] != list[j]
      ensures forall u :: u in list ==> u in users.Values && (role == "" || u.role == role)
      ensures forall k :: k in users && (role == "" || users[k].role == role) ==> users[k] in list
    {
      var listed := CollectKeys(role);
      list := seq(|listed|, i requires 0 <= i < |listed| && listed[i] in users reads this => users[listed[i]]);
      assert forall i :: 0 <= i < |listed| ==> listed[i] in users && list[i] == users[listed[i]];
      forall k | k in users && (role == "" || users[k].role == role) ensures users[k] in list {
        var i :| 0 <= i < |listed| && listed[i] == k;
        assert list[i] == users[k];
      }
    }

    method Overwrite(id: Id, username: string, hash: string, role: string, now: int)
      requires Valid() && id in users && !NameUsedByOther(State().users, username, id)
      modifies users[id]
      ensures Valid()
      ensures State() == MemUpdateUser(old(State()), id, username, hash, role, now).0
      ensures users[id].Value()
           == old(users[id].Value()).(username := username, passwordHash := hash, role := role, updatedAt := now)
    {
      ghost var before := State();
      users[id].Assign(username, hash, role, now);
      assert forall k :: k in users && k != id ==> users[k].Value() == before.users[k];
      assert State().users == MemUpdateUser(before, id, username, hash, role, now).0.users;
      StepMemInv(before, Op.UpdateUser(id, username, hash, role), now);
    }

    /** Updates the stored object itself, so that every holder of it sees the change, and touches no other;
        the ID and the creation time of an object never change. */
    method UpdateUser(id: Id, username: string, hash: string, role: string, now: int)
      returns (r: Result<UserObject, StoreError>)
      requires Valid()
      modifies if id in users then {users[id]} else {}
      ensures Valid()
      ensures State() == MemUpdateUser(old(State()), id, username, hash, role, now).0
      ensures Answers(r, MemUpdateUser(old(State()), id, username, hash, role, now).1)
      ensures r.Success? ==>
        && id in users && r.value == users[id]
        && r.value.Value() == User(id, username, hash, role, old(users[id].createdAt), now)
      ensures id in users ==> users[id].id == old(users[id].id) && users[id].createdAt == old(users[id].createdAt)
    {
      if id !in users { return Failure(UserNotFound); }
      var taken := FindByName(username, Some(id));
      if taken.Some? {
        ghost var t := taken.value.id;
        assert State().users[t].username == username && State().users[t].id != id;
        return Failure(UsernameTaken);
      }
      assert !NameUsedByOther(State().users, username, id);
      Overwrite(id, username, hash, role, now);
      r := Success(users[id]);
    }

    method RemoveUser(id: Id)
      requires Valid() && id in users
      modifies this
      ensures Valid() && users == old(users) - {id}
      ensures State() == old(State()).(users := old(State()).users - {id})
    {
      ghost var before := State();
      users := users - {id};
      assert State().users == before.users - {id};
    }

    method DeleteUser(id: Id) returns (r: Result<(), StoreError>)
      requires Valid()
      modifies this
      ensures Valid() && users == old(users) - {id}
      ensures State() == MemDeleteUser(old(State()), id).0
      ensures r == if id in old(users) then Success(()) else Failure(UserNotFound)
    {
      if id !in users { return Failure(UserNotFound); }
      RemoveUser(id);
      r := Success(());
    }

    method CreateSession(userId: Id, username: string, role: string, ttl: int, token: string, now: int)
      returns (r: Result<Session, StoreError>)
      requires Valid()
      modifies this
      ensures Valid() && users == old(users)
      ensures r.Success? <==> ttl > 0
      ensures r.Success? ==>
        && r.value == Session(old(nextSessionId), userId, username, role, token, now, now + ttl)
        && sessions == old(sessions)[old(nextSessionId) := r.value]
      ensures State() == MemCreateSession(old(State()), userId, username, role, ttl, token, now).0
      ensures MemCreateSession(old(State()), userId, username, role, ttl, token, now).1
           == match r case Success(s) => SessionReply(s) case Failure(e) => Failed(e)
    {
      if ttl <= 0 { return Failure(BadTtl); }
      ghost var before := State();
      var session := Session(nextSessionId, userId, username, role, token, now, now + ttl);
      sessions := sessions[nextSessionId := session];
      nextSessionId := nextSessionId + 1;
      StepMemInv(before, Op.CreateSession(userId, username, role, ttl, token), now);
      assert State().users == before.users;
      r := Success(session);
    }

    method GetSessionByToken(token: string) returns (r: Result<Session, StoreError>)
      requires Valid()
      ensures r.Success? ==> r.value.token == token && r.value.id in sessions && sessions[r.value.id] == r.value
      ensures r.Failure? ==> r.error == SessionNotFound && forall k :: k in sessions ==> sessions[k].token != token
    {
      var keys := sessions.Keys;
      while keys != {}
        invariant keys <= sessions.Keys
        invariant forall k :: k in sessions && k !in keys ==> sessions[k].token != token
        decreases |keys|
      {
        var k :| k in keys;
        if sessions[k].token == token { return Success(sessions[k]); }
        keys := keys - {k};
      }
      r := Failure(SessionNotFound);
    }

    method GetSessionByID(id: Id) returns (r: Result<Session, StoreError>)
      requires Valid()
      ensures r == if id in sessions then Success(sessions[id]) else Failure(SessionNotFound)
      ensures r.Success? ==> r.value.id == id
    {
      if id !in sessions { return Failure(SessionNotFound); }
      r := Success(sessions[id]);
    }

    method DeleteSession(id: Id) returns (r: Result<(), StoreError>)
      requires Valid()
      modifies this
      ensures Valid() && users == old(users)
      ensures State() == MemDeleteSession(old(State()), id).0
      ensures r == if id in old(sessions) then Success(()) else Failure(SessionNotFound)
    {
      if id !in sessions { return Failure(SessionNotFound); }
      ghost var before := State();
      sessions := sessions - {id};
      assert State().users == before.users;
      r := Success(());
    }

    /** The loop that deletes a user's sessions from the map. */
    method DeleteLoop(userId: Id, excludeToken: string)
      modifies this`sessions
      ensures sessions == WithoutUser(old(sessions), userId, excludeToken)
    {
      ghost var was := sessions;
      var keys := sessions.Keys;
      while keys != {}
        invariant keys <= sessions.Keys <= was.Keys
        invariant forall k :: k in was ==>
          (k in sessions <==> k in keys || !(was[k].userId == userId && was[k].token != excludeToken))
        invariant forall k :: k in sessions ==> sessions[k] == was[k]
        decreases |keys|
      {
        var k :| k in keys;
        if sessions[k].userId == userId && sessions[k].token != excludeToken {
          sessions := sessions - {k};
        }
        keys := keys - {k};
      }
    }

    method DeleteSessionsByUserID(userId: Id, excludeToken: string)
      requires Valid()
      modifies this
      ensures Valid() && users == old(users)
      ensures State() == old(State()).(sessions := WithoutUser(old(sessions), userId, excludeToken))
      ensures forall k :: k in sessions <==>
        k in old(sessions) && (old(sessions)[k].userId != userId || old(sessions)[k].token == excludeToken)
    {
      ghost var before := State();
      DeleteLoop(userId, excludeToken);
      assert State().users == before.users;
    }

    /** The loop that deletes expired sessions from the map and counts them. */
    method PurgeLoop(now: int) returns (count: nat)
      modifies this`sessions
      ensures sessions == Unexpired(old(sessions), now)
      ensures count == |old(sessions).Keys - sessions.Keys|
    {
      ghost var was := sessions;
      var keys := sessions.Keys;
      count := 0;
      while keys != {}
        invariant keys <= sessions.Keys <= was.Keys
        invariant forall k :: k in was ==> (k in sessions <==> k in keys || now <= was[k].expiresAt)
        invariant forall k :: k in sessions ==> sessions[k] == was[k]
        invariant count == |was.Keys - sessions.Keys|
        decreases |keys|
      {
        var k :| k in keys;
        if now > sessions[k].expiresAt {
          assert was.Keys - (sessions.Keys - {k}) == (was.Keys - sessions.Keys) + {k};
          sessions := sessions - {k};
          count := count + 1;
        }
        keys := keys - {k};
      }
    }

    method DeleteExpiredSessions(now: int) returns (count: nat)
      requires Valid()
      modifies this
      ensures Valid() && users == old(users)
      ensures (State(), Count(count)) == MemDeleteExpired(old(State()), now)
      ensures forall k :: k in sessions <==> k in old(sessions) && now <= old(sessions)[k].expiresAt
    {
      ghost var before := State();
      count := PurgeLoop(now);
      assert State() == before.(sessions := sessions);
    }

    /** The listing: complete, without duplicates, newest first. */
    method ListSessionsByUserID(userId: Id, now: int) returns (list: seq<Session>)
      requires Valid()
      ensures NewestFirst(list)
      ensures forall i, j :: 0 <= i < j < |list| ==> list[i].id != list[j].id
      ensures forall s :: s in list <==>
        s.id in sessions && sessions[s.id] == s && s.userId == userId && now < s.expiresAt
      ensures forall s :: s in list <==> s.id in MemListing(State(), userId, now) && sessions[s.id] == s
    {
      list := [];
      var keys := sessions.Keys;
      while keys != {}
        invariant keys <= sessions.Keys
        invariant NewestFirst(list)
        invariant forall i, j :: 0 <= i < j < |list| ==> list[i].id != list[j].id
        invariant forall s :: s in list <==>
          s.id in sessions && s.id !in keys && sessions[s.id] == s && s.userId == userId && s.expiresAt > now
        decreases |keys|
      {
        var k :| k in keys;
        assert sessions[k].id == k;
        if sessions[k].userId == userId && sessions[k].expiresAt > now {
          list := Insert(list, sessions[k]);
        }
        keys := keys - {k};
      }
    }
  }

  /** The object or error returned is the model's reply. */
  ghost predicate Answers(r: Result<UserObject, StoreError>, reply: Reply)
    reads if r.Success? then {r.value} else {}
  {
    match r
    case Success(u) => reply == UserReply(u.Value())
    case Failure(e) => reply == Failed(e)
  }

  predicate NewestFirst(list: seq<Session>) {
    forall i, j :: 0 <= i < j < |list| ==> list[i].createdAt >= list[j].createdAt
  }

  /** One step of sorting by creation time, newest first. */
  method Insert(list: seq<Session>, s: Session) returns (r: seq<Session>)
    requires NewestFirst(list)
    requires forall i, j :: 0 <= i < j < |list| ==> list[i].id != list[j].id
    requires forall i :: 0 <= i < |list| ==> list[i].id != s.id
    ensures NewestFirst(r)
    ensures forall i, j :: 0 <= i < j < |r| ==> r[i].id != r[j].id
    ensures forall t :: t in r <==> t in list || t == s
  {
    var i := 0;
    while i < |list| && list[i].createdAt >= s.createdAt
      invariant i <= |list|
      invariant forall k :: 0 <= k < i ==> list[k].createdAt >= s.createdAt
    {
      i := i + 1;
    }
    r := list[..i] + [s] + list[i..];
    InsertedSorted(list, i, s);
    InsertedDistinct(list, i, s);
  }

  lemma InsertedSorted(list: seq<Session>, i: nat, s: Session)
    requires NewestFirst(list) && i <= |list|
    requires forall k :: 0 <= k < i ==> list[k].createdAt >= s.createdAt
    requires i < |list| ==> list[i].createdAt < s.createdAt
    ensures NewestFirst(list[..i] + [s] + list[i..])
  {
  }

  lemma InsertedDistinct(list: seq<Session>, i: nat, s: Session)
    requires i <= |list| && forall j, k :: 0 <= j < k < |list| ==> list[j].id != list[k].id
    requires forall k :: 0 <= k < |list| ==> list[k].id != s.id
    ensures var r := list[..i] + [s] + list[i..];
            && (forall j, k :: 0 <= j < k < |r| ==> r[j].id != r[k].id)
            && forall t :: t in r <==> t in list || t == s
  {
    assert list == list[..i] + list[i..];
  }
}
