/** The command channel: a consumer that adds, resets and stops. */
module Commands {

  datatype Command = Increment(n: nat) | Reset | Stop

  function Increments(cmds: seq<Command>): nat {
    if cmds == [] then 0
    else Increments(cmds[..|cmds| - 1]) + if cmds[|cmds| - 1].Increment? then cmds[|cmds| - 1].n else 0
  }

  /** `lo..hi` is the part that counts: after the last reset, before the first stop. */
  predicate Window(cmds: seq<Command>, lo: nat, hi: nat) {
    && lo <= hi <= |cmds|
    && (forall i :: 0 <= i < hi ==> !cmds[i].Stop?)
    && (hi < |cmds| ==> cmds[hi].Stop?)
    && (forall i :: lo <= i < hi ==> !cmds[i].Reset?)
    && (lo > 0 ==> cmds[lo - 1].Reset?)
  }

  lemma WindowUnique(cmds: seq<Command>, lo: nat, hi: nat, lo': nat, hi': nat)
    requires Window(cmds, lo, hi) && Window(cmds, lo', hi')
    ensures lo == lo' && hi == hi'
  {
    assert hi == hi';
  }

  /** The consumer's result is the sum of the increments after the last reset before the first stop. */
  method Consume(cmds: seq<Command>) returns (sum: nat)
    ensures exists lo: nat, hi: nat :: Window(cmds, lo, hi)
    ensures forall lo: nat, hi: nat :: Window(cmds, lo, hi) ==> sum == Increments(cmds[lo..hi])
  {
    sum := 0;
    var i := 0;
    ghost var lo := 0;
    while i < |cmds| && !cmds[i].Stop?
      invariant lo <= i <= |cmds| && sum == Increments(cmds[lo..i])
      invariant forall k :: 0 <= k < i ==> !cmds[k].Stop?
      invariant forall k :: lo <= k < i ==> !cmds[k].Reset?
      invariant lo > 0 ==> cmds[lo - 1].Reset?
    {
      match cmds[i] {
        case Increment(n) =>
          assert cmds[lo..i + 1][..i - lo] == cmds[lo..i];
          sum := sum + n;
        case Reset =>
          sum, lo := 0, i + 1;
      }
      i := i + 1;
    }
    assert Window(cmds, lo, i);
    forall lo': nat, hi': nat | Window(cmds, lo', hi') ensures sum == Increments(cmds[lo'..hi']) {
      WindowUnique(cmds, lo, i, lo', hi');
    }
  }

  /** What the sum is: every increment adds its number, the other commands nothing, and sequences add up. */
  lemma {:induction false} IncrementsAddUp(a: seq<Command>, b: seq<Command>)
    ensures Increments(a + b) == Increments(a) + Increments(b)
    decreases |b|
  {
    if b == [] {
      assert a + b == a;
    } else {
      assert (a + b)[..|a + b| - 1] == a + b[..|b| - 1];
      IncrementsAddUp(a, b[..|b| - 1]);
    }
  }

  lemma IncrementsOfOne(cmd: Command)
    ensures Increments([cmd]) == match cmd case Increment(n) => n case _ => 0
  {
    assert [cmd][..0] == [];
  }

  function UpTo(n: nat): seq<Command> { seq(n, i requires 0 <= i < n => Increment(i + 1)) }

  lemma {:induction false} UpToSum(n: nat)
    ensures Increments(UpTo(n)) == n * (n + 1) / 2
  {
    if n > 0 {
      assert UpTo(n) == UpTo(n - 1) + [Increment(n)];
      UpToSum(n - 1);
      IncrementsAddUp(UpTo(n - 1), [Increment(n)]);
      IncrementsOfOne(Increment(n));
      assert n * (n + 1) == (n - 1) * n + 2 * n;
    }
  }

  /** The examples: whatever precedes a reset and whatever follows the stop, 1..n gives n(n+1)/2. */
  method ConsumeUpTo(before: seq<Command>, n: nat, after: seq<Command>) returns (sum: nat)
    requires forall i :: 0 <= i < |before| ==> !before[i].Stop?
    ensures sum == n * (n + 1) / 2
  {
    var cmds := before + [Reset] + UpTo(n) + [Stop] + after;
    sum := Consume(cmds);
    var lo := |before| + 1;
    assert cmds[lo..lo + n] == UpTo(n);
    assert Window(cmds, lo, lo + n);
    UpToSum(n);
  }

  /** And without a reset. */
  method ConsumeFirst(n: nat, after: seq<Command>) returns (sum: nat)
    ensures sum == n * (n + 1) / 2
  {
    var cmds := UpTo(n) + [Stop] + after;
    sum := Consume(cmds);
    assert cmds[0..n] == UpTo(n);
    assert Window(cmds, 0, n);
    UpToSum(n);
  }
}
