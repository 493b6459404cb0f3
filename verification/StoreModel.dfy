/**
 * What the two stores do, as functions on their contents.  Clock readings and random tokens are arguments.
 * Instants are nanoseconds since 0000-01-01T00:00:00Z.  The SQLite store keeps whole seconds; that it keeps
 * them as text and compares texts is the subject of `SqliteStore`.
 */
module StoreModel {
  import opened Rfc3339

  /** The int64 of an identity, without its upper bound: the counters start at one and never wrap here. */
  type Id = i: int | -0x8000_0000_0000_0000 <= i

  datatype User = User(id: Id, username: string, passwordHash: string, role: string, createdAt: int, updatedAt: int)

  datatype Session = Session(
    id: Id, userId: Id, username: string, role: string, token: string, createdAt: int, expiresAt: int)

  datatype StoreError =
    | UserExists | UserNotFound | UsernameTaken | BadTtl | SessionNotFound | TokenExists | BadTimestamp

  /** The calls that change a store. */
  datatype Op =
    | CreateUser(username: string, passwordHash: string, role: string)
    | UpdateUser(id: Id, username: string, passwordHash: string, role: string)
    | DeleteUser(id: Id)
    | CreateSession(userId: Id, username: string, role: string, ttl: int, token: string)
    | DeleteSession(id: Id)
    | DeleteSessionsByUserID(userId: Id, excludeToken: string)
    | DeleteExpiredSessions

  datatype Reply =
    UserReply(user: User) | SessionReply(session: Session) | Count(n: nat) | Done | Failed(error: StoreError)

  // ------------------------------------------------------------------------------------------
  // The in-memory store
  // ------------------------------------------------------------------------------------------

  datatype MemState = MemState(users: map<Id, User>, nextId: Id, sessions: map<Id, Session>, nextSessionId: Id)

  const EmptyMem := MemState(map[], 1, map[], 1)

  predicate NameUsed(users: map<Id, User>, username: string) {
    exists k :: k in users && users[k].username == username
  }

  predicate NameUsedByOther(users: map<Id, User>, username: string, id: Id) {
    exists k :: k in users && users[k].username == username && users[k].id != id
  }

  function MemCreateUser(m: MemState, username: string, hash: string, role: string, now: int): (MemState, Reply) {
    if NameUsed(m.users, username) then (m, Failed(UserExists))
    else
      var u := User(m.nextId, username, hash, role, now, now);
      (m.(users := m.users[m.nextId := u], nextId := m.nextId + 1), UserReply(u))
  }

  function MemUpdateUser(m: MemState, id: Id, username: string, hash: string, role: string, now: int)
    : (MemState, Reply)
  {
    if id !in m.users then (m, Failed(UserNotFound))
    else if NameUsedByOther(m.users, username, id) then (m, Failed(UsernameTaken))
    else
      var u := m.users[id].(username := username, passwordHash := hash, role := role, updatedAt := now);
      (m.(users := m.users[id := u]), UserReply(u))
  }

  function MemDeleteUser(m: MemState, id: Id): (MemState, Reply) {
    if id !in m.users then (m, Failed(UserNotFound)) else (m.(users := m.users - {id}), Done)
  }

  function MemCreateSession(m: MemState, userId: Id, username: string, role: string, ttl: int, token: string, now: int)
    : (MemState, Reply)
  {
    if ttl <= 0 then (m, Failed(BadTtl))
    else
      var s := Session(m.nextSessionId, userId, username, role, token, now, now + ttl);
      (m.(sessions := m.sessions[m.nextSessionId := s], nextSessionId := m.nextSessionId + 1), SessionReply(s))
  }

  function MemDeleteSession(m: MemState, id: Id): (MemState, Reply) {
    if id !in m.sessions then (m, Failed(SessionNotFound)) else (m.(sessions := m.sessions - {id}), Done)
  }

  function WithoutUser(sessions: map<Id, Session>, userId: Id, excludeToken: string): map<Id, Session> {
    map k | k in sessions && !(sessions[k].userId == userId && sessions[k].token != excludeToken) :: sessions[k]
  }

  /** `now.After(session.ExpiresAt)` */
  function Unexpired(sessions: map<Id, Session>, now: int): map<Id, Session> {
    map k | k in sessions && now <= sessions[k].expiresAt :: sessions[k]
  }

  function MemDeleteExpired(m: MemState, now: int): (MemState, Reply) {
    var left := Unexpired(m.sessions, now);
    (m.(sessions := left), Count(|m.sessions.Keys - left.Keys|))
  }

  function MemStep(m: MemState, op: Op, now: int): (MemState, Reply) {
    match op
    case CreateUser(username, hash, role) => MemCreateUser(m, username, hash, role, now)
    case UpdateUser(id, username, hash, role) => MemUpdateUser(m, id, username, hash, role, now)
    case DeleteUser(id) => MemDeleteUser(m, id)
    case CreateSession(userId, username, role, ttl, token) =>
      MemCreateSession(m, userId, username, role, ttl, token, now)
    case DeleteSession(id) => MemDeleteSession(m, id)
    case DeleteSessionsByUserID(userId, token) =>
      (m.(sessions := WithoutUser(m.sessions, userId, token)), Done)
    case DeleteExpiredSessions => MemDeleteExpired(m, now)
  }

  /** The sessions `ListSessionsByUserID` returns, by ID: those with `ExpiresAt.After(now)`. */
  function MemListing(m: MemState, userId: Id, now: int): set<Id> {
    set k | k in m.sessions && m.sessions[k].userId == userId && m.sessions[k].expiresAt > now
  }

  // ------------------------------------------------------------------------------------------
  // The SQLite store
  // ------------------------------------------------------------------------------------------

  /** A row of `users`; its timestamps are seconds. */
  datatype UserRow = UserRow(username: string, passwordHash: string, role: string, createdAt: int, updatedAt: int)

  datatype SessionRow = SessionRow(
    userId: Id, username: string, role: string, token: string, createdAt: int, expiresAt: int)

  /** Two tables keyed by their primary key, and the largest key each has ever had (AUTOINCREMENT). */
  datatype SqlState = SqlState(
    users: map<Id, UserRow>, userSeq: Id, sessions: map<Id, SessionRow>, sessionSeq: Id)

  const EmptySql := SqlState(map[], 0, map[], 0)

  const SECOND := 1_000_000_000

  /** What the text of an instant keeps of it. */
  function Trunc(t: int): int { t / SECOND }

  /** The instants whose text has a four-digit year. */
  predicate Storable(t: int) { FourDigitYear(Trunc(t)) }

  /** The clock readings and expiry times an operation writes can be written. */
  predicate Fits(op: Op, now: int) {
    Storable(now) && (op.CreateSession? ==> Storable(now + op.ttl))
  }

  function ReadUser(id: Id, row: UserRow): User {
    User(id, row.username, row.passwordHash, row.role, row.createdAt * SECOND, row.updatedAt * SECOND)
  }

  function ReadSession(id: Id, row: SessionRow): Session {
    Session(id, row.userId, row.username, row.role, row.token, row.createdAt * SECOND, row.expiresAt * SECOND)
  }

  predicate RowNameUsed(users: map<Id, UserRow>, username: string) {
    exists k :: k in users && users[k].username == username
  }

  predicate RowNameUsedByOther(users: map<Id, UserRow>, username: string, id: Id) {
    exists k :: k in users && users[k].username == username && k != id
  }

  predicate TokenUsed(sessions: map<Id, SessionRow>, token: string) {
    exists k :: k in sessions && sessions[k].token == token
  }

  /** INSERT: the UNIQUE constraint on the username, then the next key.  The object returned keeps the clock
      reading as it was, although the row has only its seconds. */
  function SqlCreateUser(q: SqlState, username: string, hash: string, role: string, now: int): (SqlState, Reply)
  {
    if RowNameUsed(q.users, username) then (q, Failed(UserExists))
    else
      var id := q.userSeq + 1;
      (q.(users := q.users[id := UserRow(username, hash, role, Trunc(now), Trunc(now))], userSeq := id),
       UserReply(User(id, username, hash, role, now, now)))
  }

  /** UPDATE ... WHERE id: no row, a violated UNIQUE constraint, or one row, which is then read back. */
  function SqlUpdateUser(q: SqlState, id: Id, username: string, hash: string, role: string, now: int): (SqlState, Reply)
  {
    if id !in q.users then (q, Failed(UserNotFound))
    else if RowNameUsedByOther(q.users, username, id) then (q, Failed(UsernameTaken))
    else
      var row := UserRow(username, hash, role, q.users[id].createdAt, Trunc(now));
      (q.(users := q.users[id := row]), UserReply(ReadUser(id, row)))
  }

  /** INSERT: the UNIQUE constraint on the token; nothing checks the time to live. */
  function SqlCreateSession(q: SqlState, userId: Id, username: string, role: string, ttl: int, token: string, now: int)
    : (SqlState, Reply)
  {
    if TokenUsed(q.sessions, token) then (q, Failed(TokenExists))
    else
      var id := q.sessionSeq + 1;
      var row := SessionRow(userId, username, role, token, Trunc(now), Trunc(now + ttl));
      (q.(sessions := q.sessions[id := row], sessionSeq := id),
       SessionReply(Session(id, userId, username, role, token, now, now + ttl)))
  }

  function RowsWithoutUser(sessions: map<Id, SessionRow>, userId: Id, excludeToken: string): map<Id, SessionRow> {
    map k | k in sessions && !(sessions[k].userId == userId && sessions[k].token != excludeToken) :: sessions[k]
  }

  /** What DELETE ... WHERE expires_at < now leaves. */
  function RowsUnexpired(sessions: map<Id, SessionRow>, now: int): map<Id, SessionRow>
  {
    map k | k in sessions && sessions[k].expiresAt >= Trunc(now) :: sessions[k]
  }

  function SqlStep(q: SqlState, op: Op, now: int): (SqlState, Reply)
  {
    match op
    case CreateUser(username, hash, role) => SqlCreateUser(q, username, hash, role, now)
    case UpdateUser(id, username, hash, role) => SqlUpdateUser(q, id, username, hash, role, now)
    case DeleteUser(id) =>
      if id !in q.users then (q, Failed(UserNotFound)) else (q.(users := q.users - {id}), Done)
    case CreateSession(userId, username, role, ttl, token) =>
      SqlCreateSession(q, userId, username, role, ttl, token, now)
    case DeleteSession(id) =>
      if id !in q.sessions then (q, Failed(SessionNotFound)) else (q.(sessions := q.sessions - {id}), Done)
    case DeleteSessionsByUserID(userId, token) =>
      (q.(sessions := RowsWithoutUser(q.sessions, userId, token)), Done)
    case DeleteExpiredSessions =>
      var left := RowsUnexpired(q.sessions, now);
      (q.(sessions := left), Count(|q.sessions.Keys - left.Keys|))
  }

  /** The keys of SELECT ... WHERE user_id = ? AND expires_at > ?. */
  function SqlListing(q: SqlState, userId: Id, now: int): set<Id>
  {
    set k | k in q.sessions && q.sessions[k].userId == userId && q.sessions[k].expiresAt > Trunc(now)
  }
}
