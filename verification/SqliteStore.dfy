/**
 * `SQLiteStore` as the object it is: two tables whose timestamps are texts, compared as texts, and read back
 * with `time.Parse`.  Each statement is given its meaning on the tables; `table` says what the texts stand for.
 */
module SqliteStore {
  import opened Wrappers
  import opened Rfc3339
  import opened StoreModel

  datatype UserText = UserText(
    username: string, passwordHash: string, role: string, createdAt: string, updatedAt: string)

  datatype SessionText = SessionText(
    userId: Id, username: string, role: string, token: string, createdAt: string, expiresAt: string)

  /** The second can be written. */
  predicate Covers(c: Codec, second: int) { c.covers(second) }

  /** The text is what is written for the second. */
  predicate Writes(c: Codec, text: string, second: int) { Covers(c, second) && text == c.format(second) }

  predicate UserWrites(c: Codec, text: UserText, row: UserRow) {
    && text.username == row.username && text.passwordHash == row.passwordHash && text.role == row.role
    && Writes(c, text.createdAt, row.createdAt) && Writes(c, text.updatedAt, row.updatedAt)
  }

  predicate SessionWrites(c: Codec, text: SessionText, row: SessionRow) {
    && text.userId == row.userId && text.username == row.username && text.role == row.role && text.token == row.token
    && Writes(c, text.createdAt, row.createdAt) && Writes(c, text.expiresAt, row.expiresAt)
  }

  /** Row by row the texts write the seconds. */
  ghost predicate UsersWrite(c: Codec, texts: map<Id, UserText>, rows: map<Id, UserRow>) {
    texts.Keys == rows.Keys && forall k :: k in texts ==> UserWrites(c, texts[k], rows[k])
  }

  ghost predicate SessionsWrite(c: Codec, texts: map<Id, SessionText>, rows: map<Id, SessionRow>) {
    texts.Keys == rows.Keys && forall k :: k in texts ==> SessionWrites(c, texts[k], rows[k])
  }

  /** Deleting the same rows on both sides keeps the tables in step. */
  lemma DeletedAlike(
    c: Codec, texts: map<Id, SessionText>, rows: map<Id, SessionRow>,
    texts': map<Id, SessionText>, rows': map<Id, SessionRow>)
    requires SessionsWrite(c, texts, rows)
    requires forall k :: k in texts' <==> k in rows'
    requires forall k :: k in texts' ==> k in texts && texts'[k] == texts[k]
    requires forall k :: k in rows' ==> k in rows && rows'[k] == rows[k]
    ensures SessionsWrite(c, texts', rows')
  {
  }

  /** The rows' scan: both timestamps are parsed, and a text that cannot be parsed is an error. */
  function ScanUser(c: Codec, id: Id, text: UserText): Result<User, StoreError> {
    var created, updated := c.parse(text.createdAt), c.parse(text.updatedAt);
    if created.None? || updated.None? then Failure(BadTimestamp)
    else Success(User(id, text.username, text.passwordHash, text.role, created.value * SECOND, updated.value * SECOND))
  }

  function ScanSession(c: Codec, id: Id, text: SessionText): Result<Session, StoreError> {
    var created, expires := c.parse(text.createdAt), c.parse(text.expiresAt);
    if created.None? || expires.None? then Failure(BadTimestamp)
    else
      Success(Session(
        id, text.userId, text.username, text.role, text.token, created.value * SECOND, expires.value * SECOND))
  }

  /** What the store has written it can always read: no scan fails. */
  lemma ScanUserReads(c: Codec, id: Id, text: UserText, row: UserRow)
    requires Faithful(c) && UserWrites(c, text, row)
    ensures ScanUser(c, id, text) == Success(ReadUser(id, row))
  {
  }

  lemma ScanSessionReads(c: Codec, id: Id, text: SessionText, row: SessionRow)
    requires Faithful(c) && SessionWrites(c, text, row)
    ensures ScanSession(c, id, text) == Success(ReadSession(id, row))
  {
  }

  /** The session is what is read from its row. */
  ghost predicate FromRow(q: SqlState, s: Session) {
    s.id in q.sessions && s == ReadSession(s.id, q.sessions[s.id])
  }

  ghost predicate IsReadOf(q: SqlState, keys: seq<Id>, list: seq<Session>) {
    && |list| == |keys|
    && forall i :: 0 <= i < |keys| ==> keys[i] in q.sessions && list[i] == ReadSession(keys[i], q.sessions[keys[i]])
  }

  ghost predicate RowsNewestFirst(q: SqlState, keys: seq<Id>) {
    && (forall i :: 0 <= i < |keys| ==> keys[i] in q.sessions)
    && forall i, j :: 0 <= i < j < |keys| ==> q.sessions[keys[i]].createdAt >= q.sessions[keys[j]].createdAt
  }

  lemma InsertDistinct(keys: seq<Id>, i: nat, k: Id)
    requires i <= |keys| && k !in keys && forall a, b :: 0 <= a < b < |keys| ==> keys[a] != keys[b]
    ensures var r := keys[..i] + [k] + keys[i..];
            && (forall j :: j in r <==> j in keys || j == k)
            && forall a, b :: 0 <= a < b < |r| ==> r[a] != r[b]
  {
    assert keys == keys[..i] + keys[i..];
  }

  lemma InsertKeepsOrder(q: SqlState, keys: seq<Id>, i: nat, k: Id)
    requires RowsNewestFirst(q, keys) && i <= |keys| && k in q.sessions
    requires forall j :: 0 <= j < i ==> q.sessions[keys[j]].createdAt >= q.sessions[k].createdAt
    requires forall j :: i <= j < |keys| ==> q.sessions[k].createdAt >= q.sessions[keys[j]].createdAt
    ensures RowsNewestFirst(q, keys[..i] + [k] + keys[i..])
  {
  }

  class SQLiteStore {
    /** The text form of timestamps: RFC 3339's.  Everything below relies only on its being faithful. */
    const codec: Codec
    var users: map<Id, UserText>
    var userSeq: Id
    var sessions: map<Id, SessionText>
    var sessionSeq: Id
    ghost var table: SqlState

    ghost predicate Valid()
      reads this
    {
      && Faithful(codec)
      && table.userSeq == userSeq && table.sessionSeq == sessionSeq
      && UsersWrite(codec, users, table.users)
      && SessionsWrite(codec, sessions, table.sessions)
    }

    /** Opens a new database file: the tables are created. */
    constructor ()
      ensures Valid() && table == EmptySql && codec == RFC3339
    {
      codec := RFC3339;
      users, userSeq, sessions, sessionSeq, table := map[], 0, map[], 0, EmptySql;
      new;
      Rfc3339Faithful();
    }

    /** Opens a database file that a store has written before: the tables exist and keep their rows and counters. */
    constructor Open(
      users: map<Id, UserText>, userSeq: Id, sessions: map<Id, SessionText>, sessionSeq: Id, ghost table: SqlState)
      requires table.userSeq == userSeq && table.sessionSeq == sessionSeq
      requires UsersWrite(RFC3339, users, table.users) && SessionsWrite(RFC3339, sessions, table.sessions)
      ensures Valid() && this.table == table && codec == RFC3339
    {
      codec := RFC3339;
      this.users, this.userSeq, this.sessions, this.sessionSeq := users, userSeq, sessions, sessionSeq;
      this.table := table;
      new;
      Rfc3339Faithful();
    }

    /** INSERT INTO users */
    method CreateUser(username: string, hash: string, role: string, now: int) returns (r: Result<User, StoreError>)
      requires Valid() && Covers(codec, Trunc(now))
      modifies this
      ensures Valid()
      ensures table == SqlCreateUser(old(table), username, hash, role, now).0
      ensures SqlCreateUser(old(table), username, hash, role, now).1
           == match r case Success(u) => UserReply(u) case Failure(e) => Failed(e)
    {
      if exists k :: k in users && users[k].username == username {
        ghost var k :| k in users && users[k].username == username;
        assert table.users[k].username == username;
        return Failure(UserExists);
      }
      assert !RowNameUsed(table.users, username);
      var id, text := userSeq + 1, codec.format(Trunc(now));
      users := users[id := UserText(username, hash, role, text, text)];
      userSeq := id;
      table := SqlCreateUser(table, username, hash, role, now).0;
      r := Success(User(id, username, hash, role, now, now));
    }

    /** SELECT ... WHERE id = ? */
    method GetUser(id: Id) returns (r: Result<User, StoreError>)
      requires Valid()
      ensures r == if id in table.users then Success(ReadUser(id, table.users[id])) else Failure(UserNotFound)
    {
      if id !in users { return Failure(UserNotFound); }
      ScanUserReads(codec, id, users[id], table.users[id]);
      r := ScanUser(codec, id, users[id]);
    }

    /** SELECT ... WHERE username = ? */
    method GetUserByUsername(username: string) returns (r: Result<User, StoreError>)
      requires Valid()
      ensures r.Success? ==>
        && r.value.id in table.users && r.value.username == username
        && r.value == ReadUser(r.value.id, table.users[r.value.id])
      ensures r.Failure? ==> r.error == UserNotFound && !RowNameUsed(table.users, username)
    {
      if k :| k in users && users[k].username == username {
        ScanUserReads(codec, k, users[k], table.users[k]);
        r := ScanUser(codec, k, users[k]);
      } else {
        assert forall k :: k in table.users ==> table.users[k].username == users[k].username;
        r := Failure(UserNotFound);
      }
    }

    method ReplaceUser(id: Id, username: string, hash: string, role: string, updated: int)
      requires Valid() && id in users && Covers(codec, updated)
      modifies this
      ensures Valid() && id in users
      ensures id in old(table).users && table == old(table).(
        users := old(table).users[id := UserRow(username, hash, role, old(table).users[id].createdAt, updated)])
    {
      var text := UserText(username, hash, role, users[id].createdAt, codec.format(updated));
      ghost var row := UserRow(username, hash, role, table.users[id].createdAt, updated);
      users := users[id := text];
      table := table.(users := table.users[id := row]);
    }

    /** UPDATE users, then SELECT the row again */
    method UpdateUser(id: Id, username: string, hash: string, role: string, now: int)
      returns (r: Result<User, StoreError>)
      requires Valid() && Covers(codec, Trunc(now))
      modifies this
      ensures Valid()
      ensures table == SqlUpdateUser(old(table), id, username, hash, role, now).0
      ensures SqlUpdateUser(old(table), id, username, hash, role, now).1
           == match r case Success(u) => UserReply(u) case Failure(e) => Failed(e)
    {
      if id !in users { return Failure(UserNotFound); }
      if exists k :: k in users && users[k].username == username && k != id {
        ghost var k :| k in users && users[k].username == username && k != id;
        assert table.users[k].username == username;
        return Failure(UsernameTaken);
      }
      assert !RowNameUsedByOther(table.users, username, id);
      ReplaceUser(id, username, hash, role, Trunc(now));
      ScanUserReads(codec, id, users[id], table.users[id]);
      r := ScanUser(codec, id, users[id]);
    }

    /** DELETE FROM users WHERE id = ? */
    method DeleteUser(id: Id) returns (r: Result<(), StoreError>)
      requires Valid()
      modifies this
      ensures Valid()
      ensures table == if r.Success? then old(table).(users := old(table).users - {id}) else old(table)
      ensures r == if id in old(table).users then Success(()) else Failure(UserNotFound)
    {
      if id !in users { return Failure(UserNotFound); }
      users := users - {id};
      table := table.(users := table.users - {id});
      r := Success(());
    }

    method AddSession(userId: Id, username: string, role: string, token: string, created: int, expires: int)
      returns (id: Id)
      requires Valid() && Covers(codec, created) && Covers(codec, expires)
      modifies this
      ensures Valid() && id == old(table).sessionSeq + 1
      ensures table == old(table).(
        sessions := old(table).sessions[id := SessionRow(userId, username, role, token, created, expires)],
        sessionSeq := id)
    {
      id := sessionSeq + 1;
      var text := SessionText(userId, username, role, token, codec.format(created), codec.format(expires));
      sessions := sessions[id := text];
      sessionSeq := id;
      table := table.(
        sessions := table.sessions[id := SessionRow(userId, username, role, token, created, expires)],
        sessionSeq := id);
    }

    /** INSERT INTO sessions */
    method CreateSession(userId: Id, username: string, role: string, ttl: int, token: string, now: int)
      returns (r: Result<Session, StoreError>)
      requires Valid() && Covers(codec, Trunc(now)) && Covers(codec, Trunc(now + ttl))
      modifies this
      ensures Valid()
      ensures table == SqlCreateSession(old(table), userId, username, role, ttl, token, now).0
      ensures SqlCreateSession(old(table), userId, username, role, ttl, token, now).1
           == match r case Success(s) => SessionReply(s) case Failure(e) => Failed(e)
    {
      if exists k :: k in sessions && sessions[k].token == token {
        ghost var k :| k in sessions && sessions[k].token == token;
        assert table.sessions[k].token == token;
        return Failure(TokenExists);
      }
      assert !TokenUsed(table.sessions, token);
      var id := AddSession(userId, username, role, token, Trunc(now), Trunc(now + ttl));
      r := Success(Session(id, userId, username, role, token, now, now + ttl));
    }

    /** SELECT ... WHERE token = ? */
    method GetSessionByToken(token: string) returns (r: Result<Session, StoreError>)
      requires Valid()
      ensures r.Success? ==> FromRow(table, r.value) && r.value.token == token
      ensures r.Failure? ==> r.error == SessionNotFound && !TokenUsed(table.sessions, token)
    {
      if k :| k in sessions && sessions[k].token == token {
        ScanSessionReads(codec, k, sessions[k], table.sessions[k]);
        r := ScanSession(codec, k, sessions[k]);
      } else {
        assert forall k :: k in table.sessions ==> table.sessions[k].token == sessions[k].token;
        r := Failure(SessionNotFound);
      }
    }

    /** SELECT ... WHERE id = ? */
    method GetSessionByID(id: Id) returns (r: Result<Session, StoreError>)
      requires Valid()
      ensures r == if id in table.sessions then Success(ReadSession(id, table.sessions[id]))
                   else Failure(SessionNotFound)
    {
      if id !in sessions { return Failure(SessionNotFound); }
      ScanSessionReads(codec, id, sessions[id], table.sessions[id]);
      r := ScanSession(codec, id, sessions[id]);
    }

    /** DELETE FROM sessions WHERE id = ? */
    method DeleteSession(id: Id) returns (r: Result<(), StoreError>)
      requires Valid()
      modifies this
      ensures Valid()
      ensures table == if r.Success? then old(table).(sessions := old(table).sessions - {id}) else old(table)
      ensures r == if id in old(table).sessions then Success(()) else Failure(SessionNotFound)
    {
      if id !in sessions { return Failure(SessionNotFound); }
      DeletedAlike(codec, sessions, table.sessions, sessions - {id}, table.sessions - {id});
      sessions := sessions - {id};
      table := table.(sessions := table.sessions - {id});
      r := Success(());
    }

    /** How many rows are deleted when only the given ones are left. */
    method RowsAffected(left: map<Id, SessionText>, ghost rows: map<Id, SessionRow>) returns (count: nat)
      requires Valid() && SessionsWrite(codec, left, rows)
      ensures count == |table.sessions.Keys - rows.Keys|
    {
      count := |sessions.Keys - left.Keys|;
    }

    /** Leaves only the given rows. */
    method ReplaceSessions(left: map<Id, SessionText>, ghost rows: map<Id, SessionRow>)
      requires Valid() && SessionsWrite(codec, left, rows)
      modifies this
      ensures Valid() && table == old(table).(sessions := rows)
    {
      sessions := left;
      table := table.(sessions := rows);
    }

    /** DELETE FROM sessions WHERE user_id = ? AND token != ? */
    method DeleteSessionsByUserID(userId: Id, excludeToken: string)
      requires Valid()
      modifies this
      ensures Valid() && table == old(table).(sessions := RowsWithoutUser(old(table).sessions, userId, excludeToken))
    {
      var left :=
        map k | k in sessions && !(sessions[k].userId == userId && sessions[k].token != excludeToken) :: sessions[k];
      ghost var rows := RowsWithoutUser(table.sessions, userId, excludeToken);
      DeletedAlike(codec, sessions, table.sessions, left, rows);
      ReplaceSessions(left, rows);
    }

    /** The rows that DELETE ... WHERE expires_at < ? leaves, the comparison being one of texts. */
    method RowsLeft(now: int) returns (left: map<Id, SessionText>)
      requires Valid() && Covers(codec, Trunc(now))
      ensures SessionsWrite(codec, left, RowsUnexpired(table.sessions, now))
    {
      var text := codec.format(Trunc(now));
      left := map k | k in sessions && !TextLess(sessions[k].expiresAt, text) :: sessions[k];
      DeletedAlike(codec, sessions, table.sessions, left, RowsUnexpired(table.sessions, now));
    }

    /** DELETE FROM sessions WHERE expires_at < ? */
    method DeleteExpiredSessions(now: int) returns (count: nat)
      requires Valid() && Covers(codec, Trunc(now))
      modifies this
      ensures Valid() && table == old(table).(sessions := RowsUnexpired(old(table).sessions, now))
      ensures count == |old(table).sessions.Keys - table.sessions.Keys|
    {
      var left := RowsLeft(now);
      ghost var rows := RowsUnexpired(table.sessions, now);
      count := RowsAffected(left, rows);
      ReplaceSessions(left, rows);
    }

    /** SELECT ... WHERE user_id = ? AND expires_at > ? ORDER BY created_at DESC: the keys of the rows selected
        and ordered by their texts. */
    method SelectListed(userId: Id, now: int) returns (keys: seq<Id>)
      requires Valid() && Covers(codec, Trunc(now))
      ensures forall i, j :: 0 <= i < j < |keys| ==> keys[i] != keys[j]
      ensures forall k :: k in keys <==> k in SqlListing(table, userId, now)
      ensures RowsNewestFirst(table, keys)
    {
      var text := codec.format(Trunc(now));
      keys := [];
      var rest := set k | k in sessions && sessions[k].userId == userId && TextLess(text, sessions[k].expiresAt);
      assert rest == SqlListing(table, userId, now);
      while rest != {}
        invariant rest <= SqlListing(table, userId, now)
        invariant forall i, j :: 0 <= i < j < |keys| ==> keys[i] != keys[j]
        invariant forall k :: k in keys <==> k in SqlListing(table, userId, now) && k !in rest
        invariant RowsNewestFirst(table, keys)
        decreases |rest|
      {
        var k :| k in rest;
        keys := InsertByText(keys, k);
        rest := rest - {k};
      }
    }

    /** Where a row belongs in a list ordered by `created_at DESC`. */
    method PlaceByText(keys: seq<Id>, k: Id) returns (i: nat)
      requires Valid() && k in sessions && RowsNewestFirst(table, keys)
      ensures i <= |keys|
      ensures forall j :: 0 <= j < i ==> table.sessions[keys[j]].createdAt >= table.sessions[k].createdAt
      ensures forall j :: i <= j < |keys| ==> table.sessions[k].createdAt >= table.sessions[keys[j]].createdAt
    {
      i := 0;
      while i < |keys| && !TextLess(sessions[keys[i]].createdAt, sessions[k].createdAt)
        invariant i <= |keys|
        invariant forall j :: 0 <= j < i ==> table.sessions[keys[j]].createdAt >= table.sessions[k].createdAt
      {
        i := i + 1;
      }
    }

    method InsertByText(keys: seq<Id>, k: Id) returns (r: seq<Id>)
      requires Valid() && k in sessions && k !in keys
      requires forall i, j :: 0 <= i < j < |keys| ==> keys[i] != keys[j]
      requires RowsNewestFirst(table, keys)
      ensures forall j :: j in r <==> j in keys || j == k
      ensures forall i, j :: 0 <= i < j < |r| ==> r[i] != r[j]
      ensures RowsNewestFirst(table, r)
    {
      var i := PlaceByText(keys, k);
      r := keys[..i] + [k] + keys[i..];
      InsertDistinct(keys, i, k);
      InsertKeepsOrder(table, keys, i, k);
    }

    /** The row loop over the selection; no scan fails. */
    method ScanAll(keys: seq<Id>) returns (list: seq<Session>)
      requires Valid() && forall i :: 0 <= i < |keys| ==> keys[i] in sessions
      ensures IsReadOf(table, keys, list)
    {
      list := [];
      for i := 0 to |keys|
        invariant |list| == i
        invariant forall j :: 0 <= j < i ==>
          keys[j] in table.sessions && list[j] == ReadSession(keys[j], table.sessions[keys[j]])
      {
        ScanSessionReads(codec, keys[i], sessions[keys[i]], table.sessions[keys[i]]);
        match ScanSession(codec, keys[i], sessions[keys[i]]) {
          case Success(session) => list := list + [session];
          case Failure(_) => assert false;
        }
      }
    }

    /** The listing: all rows that qualify, once each, newest first. */
    method ListSessionsByUserID(userId: Id, now: int) returns (list: seq<Session>)
      requires Valid() && Covers(codec, Trunc(now))
      ensures forall i, j :: 0 <= i < j < |list| ==> list[i].id != list[j].id
      ensures forall i, j :: 0 <= i < j < |list| ==> list[i].createdAt >= list[j].createdAt
      ensures forall i :: 0 <= i < |list| ==> list[i].id in SqlListing(table, userId, now) && FromRow(table, list[i])
      ensures |list| == |SqlListing(table, userId, now)|
    {
      var keys := SelectListed(userId, now);
      assert forall i :: 0 <= i < |keys| ==> keys[i] in keys;
      list := ScanAll(keys);
      DistinctSize(keys, SqlListing(table, userId, now));
    }
  }

  lemma {:induction false} DistinctSize(keys: seq<Id>, s: set<Id>)
    requires forall i, j :: 0 <= i < j < |keys| ==> keys[i] != keys[j]
    requires forall k :: k in keys <==> k in s
    ensures |keys| == |s|
  {
    if keys == [] {
      assert s == {};
    } else {
      var k := keys[0];
      assert k in s;
      forall j ensures j in keys[1..] <==> j in s - {k} {
        if j in s - {k} {
          var i :| 0 <= i < |keys| && keys[i] == j;
          assert keys[1..][i - 1] == j;
        }
      }
      DistinctSize(keys[1..], s - {k});
    }
  }
}
