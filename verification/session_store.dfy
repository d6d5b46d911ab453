/**
 * The session store: an in-memory map in front of a durable table of rows
 * keyed by user id. Memory entries never expire; durable rows carry an
 * expiry instant and are served only strictly before it.
 *
 * Instants are integers in microseconds; `now` is a parameter. Each
 * operation's `fail` flag says whether the durable table raised an error
 * during that call, in which case the table is left as it was.
 */
module SessionStore {
  import opened Wrappers

  const Hour: int := 3_600_000_000
  const DefaultExpiryHours: int := 24

  /** What the handlers store for a user: a summary, the transcript chunks and possibly the video URL. */
  datatype SessionData = SessionData(summary: string, chunks: seq<string>, url: Option<string>)

  /** A durable row. The table has no column for the URL. */
  datatype Row = Row(summary: string, chunks: seq<string>, createdAt: int, updatedAt: int, expiresAt: int)

  datatype Store = Store(memory: map<int, SessionData>, rows: map<int, Row>, expiryHours: int)

  function Empty(expiryHours: int): Store {
    Store(map[], map[], expiryHours)
  }

  /** The process restarts: memory is lost and the durable table stays. */
  function Restart(st: Store): Store {
    st.(memory := map[])
  }

  /** What a durable row reads back as. */
  function FromRow(row: Row): (d: SessionData)
    ensures d.summary == row.summary && d.chunks == row.chunks
    ensures d.url.None?
  {
    SessionData(row.summary, row.chunks, None)
  }

  // ---------------------------------------------------------------------------
  // Save
  // ---------------------------------------------------------------------------

  /**
   * `save_user_data`: put the data in memory, then replace the user's row
   * with one that expires `expiryHours` after `now`. A failing table keeps
   * its old row, and the memory copy stays.
   */
  function Save(st: Store, user: int, data: SessionData, now: int, fail: bool): (r: Store)
    ensures r.expiryHours == st.expiryHours
    ensures r.memory == st.memory[user := data]
    ensures fail ==> r.rows == st.rows
    ensures !fail ==> r.rows.Keys == st.rows.Keys + {user}
    ensures !fail ==> FromRow(r.rows[user]) == data.(url := None)
    ensures !fail ==> r.rows[user].expiresAt - now == st.expiryHours * Hour
    ensures forall u | u != user && u in st.rows :: r.rows[u] == st.rows[u]
  {
    var memory := st.memory[user := data];
    if fail then st.(memory := memory)
    else
      var row := Row(data.summary, data.chunks, now, now, now + st.expiryHours * Hour);
      st.(memory := memory, rows := st.rows[user := row])
  }

  // ---------------------------------------------------------------------------
  // Get
  // ---------------------------------------------------------------------------

  datatype Lookup = Lookup(store: Store, data: Option<SessionData>)

  /** A row is served only strictly before its expiry instant. */
  predicate Live(row: Row, now: int) {
    row.expiresAt > now
  }

  /**
   * `get_user_data`: a memory entry is returned whatever its age; otherwise a
   * live row is read back, cached in memory and returned; a failing table
   * falls back to memory, which has nothing for the user.
   */
  function Get(st: Store, user: int, now: int, fail: bool): (r: Lookup)
    ensures r.store.rows == st.rows && r.store.expiryHours == st.expiryHours
    ensures user in st.memory ==> r == Lookup(st, Some(st.memory[user]))
    ensures r.data.Some? <==> user in st.memory || (!fail && user in st.rows && Live(st.rows[user], now))
    ensures r.data.Some? ==> user in r.store.memory && r.store.memory[user] == r.data.value
    ensures r.data.None? ==> r.store == st
    ensures r.store.memory == if r.data.Some? then st.memory[user := r.data.value] else st.memory
    ensures user !in st.memory && r.data.Some? ==> r.data.value == FromRow(st.rows[user])
  {
    if user in st.memory then Lookup(st, Some(st.memory[user]))
    else if fail then Lookup(st, None)
    else if user in st.rows && Live(st.rows[user], now) then
      var data := FromRow(st.rows[user]);
      Lookup(st.(memory := st.memory[user := data]), Some(data))
    else Lookup(st, None)
  }

  /** Reading twice gives the same answer: a read only caches what it returned. */
  lemma GetIdempotent(st: Store, user: int, now: int, fail: bool, now2: int, fail2: bool)
    requires Get(st, user, now, fail).data.Some?
    ensures Get(Get(st, user, now, fail).store, user, now2, fail2).data == Get(st, user, now, fail).data
  {
  }

  // ---------------------------------------------------------------------------
  // Delete and cleanup
  // ---------------------------------------------------------------------------

  /** `delete_user_data`: drop the memory entry and, unless the table fails, the row. */
  function Delete(st: Store, user: int, fail: bool): (r: Store)
    ensures r.expiryHours == st.expiryHours
    ensures r.memory.Keys == st.memory.Keys - {user}
    ensures fail ==> r.rows == st.rows
    ensures !fail ==> r.rows.Keys == st.rows.Keys - {user}
    ensures forall u | u != user && u in st.memory :: r.memory[u] == st.memory[u]
    ensures forall u | u != user && u in st.rows :: r.rows[u] == st.rows[u]
  {
    var memory := st.memory - {user};
    if fail then st.(memory := memory)
    else st.(memory := memory, rows := st.rows - {user})
  }

  /** `cleanup_expired_sessions`: remove the rows that expired strictly before `now`. */
  function CleanupExpired(st: Store, now: int, fail: bool): (r: Store)
    ensures r.memory == st.memory && r.expiryHours == st.expiryHours
    ensures r.rows.Keys <= st.rows.Keys
    ensures forall u | u in r.rows :: r.rows[u] == st.rows[u]
    ensures !fail ==> forall u :: u in r.rows <==> u in st.rows && st.rows[u].expiresAt >= now
    ensures fail ==> r == st
  {
    if fail then st
    else st.(rows := map u | u in st.rows && st.rows[u].expiresAt >= now :: st.rows[u])
  }

  // ---------------------------------------------------------------------------
  // Properties
  // ---------------------------------------------------------------------------

  /** A saved session reads back at any later instant, whichever table calls fail. */
  lemma SaveThenGet(st: Store, user: int, data: SessionData, now: int, fail: bool, later: int, fail2: bool)
    ensures Get(Save(st, user, data, now, fail), user, later, fail2).data == Some(data)
  {
  }

  /** A second save replaces the first entirely: nothing of the first data survives. */
  lemma SaveOverwrites(st: Store, user: int, d1: SessionData, d2: SessionData, t1: int, t2: int, f1: bool)
    ensures Save(Save(st, user, d1, t1, f1), user, d2, t2, false) == Save(st, user, d2, t2, false)
  {
  }

  /** When the second save's table write fails, memory holds the new data while the row keeps the old. */
  lemma FailedSaveLeavesStaleRow(st: Store, user: int, d1: SessionData, d2: SessionData, t1: int, t2: int)
    ensures var s := Save(Save(st, user, d1, t1, false), user, d2, t2, true);
      s.memory[user] == d2 && FromRow(s.rows[user]) == d1.(url := None)
  {
  }

  /** Memory entries ignore expiry: a session saved at `now` is still served any number of hours later. */
  lemma MemoryIgnoresExpiry(st: Store, user: int, data: SessionData, now: int, fail: bool, hours: nat)
    ensures Get(Save(st, user, data, now, fail), user, now + hours * Hour, false).data == Some(data)
  {
  }

  /** After a restart a saved session is served from its row before expiry, without its URL. */
  lemma RestartServesLiveRow(st: Store, user: int, data: SessionData, now: int, later: int)
    requires now <= later < now + st.expiryHours * Hour
    ensures Get(Restart(Save(st, user, data, now, false)), user, later, false).data == Some(data.(url := None))
  {
  }

  /** After a restart a saved session is gone once its expiry instant has been reached. */
  lemma RestartForgetsExpired(st: Store, user: int, data: SessionData, now: int, later: int)
    requires later >= now + st.expiryHours * Hour
    ensures Get(Restart(Save(st, user, data, now, false)), user, later, false).data == None
  {
  }

  /** With the default 24 hours, a session saved and then read 24 hours later after a restart is absent. */
  lemma DefaultExpiry(user: int, data: SessionData, now: int)
    ensures Get(Restart(Save(Empty(DefaultExpiryHours), user, data, now, false)), user, now + 24 * Hour, false).data == None
  {
    RestartForgetsExpired(Empty(DefaultExpiryHours), user, data, now, now + 24 * Hour);
  }

  /** At exactly its expiry instant a row is neither served nor cleaned up. */
  lemma ExpiryBoundary(st: Store, user: int, now: int)
    requires user !in st.memory && user in st.rows && st.rows[user].expiresAt == now
    ensures Get(st, user, now, false).data == None
    ensures user in CleanupExpired(st, now, false).rows
  {
  }

  /** Cleanup never changes what a later read returns. */
  lemma CleanupPreservesReads(st: Store, now: int, fail: bool, user: int, later: int, fail2: bool)
    requires later >= now
    ensures Get(CleanupExpired(st, now, fail), user, later, fail2).data == Get(st, user, later, fail2).data
  {
  }

  /** Deleting twice is deleting once, whatever happened to the first table call. */
  lemma DeleteIdempotent(st: Store, user: int, fail: bool)
    ensures Delete(Delete(st, user, fail), user, false) == Delete(st, user, false)
  {
  }

  /** Deleting a user with no session changes nothing. */
  lemma DeleteAbsentNoChange(st: Store, user: int, fail: bool)
    requires user !in st.memory && user !in st.rows
    ensures Delete(st, user, fail) == st
  {
  }

  /** After a successful delete the user has no session. */
  lemma DeleteThenGet(st: Store, user: int, now: int, fail: bool)
    ensures Get(Delete(st, user, false), user, now, fail).data == None
  {
  }

  /** A delete whose table call fails only clears memory, so a live row is served again. */
  lemma FailedDeleteResurrects(st: Store, user: int, now: int)
    requires user in st.rows && Live(st.rows[user], now)
    ensures Get(Delete(st, user, true), user, now, false).data == Some(FromRow(st.rows[user]))
  {
  }
}
