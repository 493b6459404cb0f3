/** The TTL cache of decisions, and the log of `set`s it cannot be told apart from. */
module PolicyCache {
  import opened Wrappers

  type Key = (string, string)

  datatype Entry = Entry(decision: bool, expiresAt: int)

  type Contents = map<Key, Entry>

  function Evict(cache: Contents, now: int): Contents {
    map k | k in cache && cache[k].expiresAt > now :: cache[k]
  }

  function Lookup(cache: Contents, key: Key): Option<bool> {
    if key in cache then Some(cache[key].decision) else None
  }

  // ------------------------------------------------------------------------------------------
  // The reference: a plain log
  // ------------------------------------------------------------------------------------------

  /** A call and the clock reading it made. */
  datatype Op = Set(key: Key, decision: bool, now: int) | Get(key: Key, now: int)

  function CacheAfter(ttl: nat, ops: seq<Op>): Contents {
    if ops == [] then map[]
    else
      var before := CacheAfter(ttl, ops[..|ops| - 1]);
      match ops[|ops| - 1]
      case Set(key, decision, now) => before[key := Entry(decision, now + ttl)]
      case Get(key, now) => Evict(before, now)
  }

  /** `ops[i]` is the latest `set` of the key. */
  predicate LatestSet(ops: seq<Op>, key: Key, i: nat) {
    && i < |ops| && ops[i].Set? && ops[i].key == key
    && forall j :: i < j < |ops| ==> !(ops[j].Set? && ops[j].key == key)
  }

  /** The log's answer at `t`: the latest `set` of the key stored `decision` and its time to live is not over. */
  ghost predicate LogSays(ttl: nat, ops: seq<Op>, key: Key, t: int, decision: bool) {
    exists i: nat :: LatestSet(ops, key, i) && ops[i].decision == decision && ops[i].now + ttl > t
  }

  /** The clock never runs backwards. */
  predicate ClockMonotone(ops: seq<Op>) {
    forall i, j :: 0 <= i < j < |ops| ==> ops[i].now <= ops[j].now
  }

  /** An entry that is still valid at `t` is in the cache exactly when the log says so. */
  lemma {:induction false} CacheMatchesLog(ttl: nat, ops: seq<Op>, key: Key, t: int, decision: bool)
    requires ClockMonotone(ops)
    requires forall i :: 0 <= i < |ops| ==> ops[i].now <= t
    ensures Lookup(Evict(CacheAfter(ttl, ops), t), key) == Some(decision) <==> LogSays(ttl, ops, key, t, decision)
  {
    if ops != [] {
      var front, last := ops[..|ops| - 1], ops[|ops| - 1];
      CacheMatchesLog(ttl, front, key, t, decision);
      if last.Set? && last.key == key {
        assert LatestSet(ops, key, |ops| - 1);
      } else {
        OtherCall(ttl, ops, key, t, decision);
      }
    }
  }

  /** A call that does not set the key does not change what the log says of it. */
  lemma OtherCall(ttl: nat, ops: seq<Op>, key: Key, t: int, decision: bool)
    requires ops != [] && !(ops[|ops| - 1].Set? && ops[|ops| - 1].key == key)
    ensures LogSays(ttl, ops, key, t, decision) <==> LogSays(ttl, ops[..|ops| - 1], key, t, decision)
  {
    var front := ops[..|ops| - 1];
    if i: nat :| LatestSet(front, key, i) && front[i].decision == decision && front[i].now + ttl > t {
      assert LatestSet(ops, key, i);
    }
    if i: nat :| LatestSet(ops, key, i) && ops[i].decision == decision && ops[i].now + ttl > t {
      assert LatestSet(front, key, i);
    }
  }

  /** `get` at t returns d exactly when the latest `set` of that key stored d at some s with s + ttl > t:
      evicting entries on gets of other keys is never observable. */
  lemma GetIsLogLookup(ttl: nat, ops: seq<Op>, key: Key, t: int, decision: bool)
    requires ClockMonotone(ops + [Get(key, t)])
    ensures Lookup(CacheAfter(ttl, ops + [Get(key, t)]), key) == Some(decision) <==> LogSays(ttl, ops, key, t, decision)
  {
    var all := ops + [Get(key, t)];
    assert all[..|all| - 1] == ops;
    forall i, j | 0 <= i < j < |ops| ensures ops[i].now <= ops[j].now { assert all[i].now <= all[j].now; }
    forall i | 0 <= i < |ops| ensures ops[i].now <= t { assert all[i].now <= all[|ops|].now; }
    CacheMatchesLog(ttl, ops, key, t, decision);
  }

  /** The clock's monotonicity, which `Instant` guarantees, is what the equivalence rests on: were it to run backwards,
      what a late get evicted would be missed. */
  lemma BackwardClockShows(key: Key)
    ensures var ops := [Set(key, true, 0), Get(key, 5)];
            Lookup(CacheAfter(3, ops + [Get(key, 1)]), key) == None && LatestSet(ops, key, 0) && ops[0].now + 3 > 1
  {
    var ops := [Set(key, true, 0), Get(key, 5)];
    var all := ops + [Get(key, 1)];
    assert all[..2] == ops && ops[..1] == [ops[0]] && ops[..1][..0] == [];
    assert CacheAfter(3, ops[..1]) == map[key := Entry(true, 3)];
    assert CacheAfter(3, ops) == map[];
  }

  // ------------------------------------------------------------------------------------------
  // The object
  // ------------------------------------------------------------------------------------------

  class PolicyCache {
    const ttl: nat
    var cache: Contents
    ghost var history: seq<Op>

    /** The cache is what its calls so far have made of it. */
    ghost predicate Valid()
      reads this
    {
      cache == CacheAfter(ttl, history)
    }

    constructor (ttl: nat)
      ensures Valid() && this.ttl == ttl && history == []
    {
      this.ttl, cache, history := ttl, map[], [];
    }

    method EvictExpired(now: int)
      modifies this`cache
      ensures cache == Evict(old(cache), now)
    {
      cache := map k | k in cache && cache[k].expiresAt > now :: cache[k];
    }

    /** The answer is the log's, as long as the clock has not run backwards. */
    method Get(role: string, action: string, now: int) returns (r: Option<bool>)
      requires Valid()
      modifies this
      ensures Valid() && history == old(history) + [Op.Get((role, action), now)]
      ensures r == Lookup(Evict(old(cache), now), (role, action))
      ensures ClockMonotone(history) ==> forall d ::
        r == Some(d) <==> LogSays(ttl, old(history), (role, action), now, d)
    {
      EvictExpired(now);
      var key := (role, action);
      r := if key in cache then Some(cache[key].decision) else None;
      ghost var before := history;
      history := history + [Op.Get(key, now)];
      assert history[..|history| - 1] == before;
      if ClockMonotone(history) {
        forall d ensures r == Some(d) <==> LogSays(ttl, before, key, now, d) {
          GetIsLogLookup(ttl, before, key, now, d);
        }
      }
    }

    method Set(role: string, action: string, decision: bool, now: int)
      requires Valid()
      modifies this
      ensures Valid() && history == old(history) + [Op.Set((role, action), decision, now)]
      ensures cache == old(cache)[(role, action) := Entry(decision, now + ttl)]
    {
      var key := (role, action);
      var expiresAt := now + ttl;
      cache := cache[key := Entry(decision, expiresAt)];
      ghost var before := history;
      history := history + [Op.Set(key, decision, now)];
      assert history[..|history| - 1] == before;
    }
  }
}
