/** The two evaluators: the index keeps the last policy of a key, the linear scan finds the first. */
module Engine {
  import opened Wrappers
  import opened Policy

  // ------------------------------------------------------------------------------------------
  // What the two forms decide about one key
  // ------------------------------------------------------------------------------------------

  function FirstMatch(ps: seq<Policy>, role: string, action: string): Option<Policy> {
    if ps == [] then None
    else if Matches(ps[0], role, action) then Some(ps[0])
    else FirstMatch(ps[1..], role, action)
  }

  function LastMatch(ps: seq<Policy>, role: string, action: string): Option<Policy> {
    if ps == [] then None
    else if Matches(ps[|ps| - 1], role, action) then Some(ps[|ps| - 1])
    else LastMatch(ps[..|ps| - 1], role, action)
  }

  /** The match has both the role and the action, and no earlier policy has. */
  lemma {:induction false} FirstMatchMeans(ps: seq<Policy>, role: string, action: string)
    ensures match FirstMatch(ps, role, action)
            case Some(p) =>
              exists i :: 0 <= i < |ps| && ps[i] == p && p.role == role && p.action == action
                          && forall j :: 0 <= j < i ==> !(ps[j].role == role && ps[j].action == action)
            case None => forall j :: 0 <= j < |ps| ==> !(ps[j].role == role && ps[j].action == action)
    decreases |ps|
  {
    if ps != [] && !(ps[0].role == role && ps[0].action == action) {
      var rest := ps[1..];
      FirstMatchMeans(rest, role, action);
      match FirstMatch(rest, role, action)
      case Some(p) =>
        var i :| 0 <= i < |rest| && rest[i] == p && p.role == role && p.action == action
                 && forall j :: 0 <= j < i ==> !(rest[j].role == role && rest[j].action == action);
        assert ps[i + 1] == p;
        forall j | 0 <= j < i + 1 ensures !(ps[j].role == role && ps[j].action == action) {
          if j > 0 { assert ps[j] == rest[j - 1]; }
        }
      case None =>
        forall j | 0 <= j < |ps| ensures !(ps[j].role == role && ps[j].action == action) {
          if j > 0 { assert ps[j] == rest[j - 1]; }
        }
    }
  }

  /** Likewise the last match, which no later policy undoes. */
  lemma {:induction false} LastMatchMeans(ps: seq<Policy>, role: string, action: string)
    ensures match LastMatch(ps, role, action)
            case Some(p) =>
              exists i :: 0 <= i < |ps| && ps[i] == p && p.role == role && p.action == action
                          && forall j :: i < j < |ps| ==> !(ps[j].role == role && ps[j].action == action)
            case None => forall j :: 0 <= j < |ps| ==> !(ps[j].role == role && ps[j].action == action)
    decreases |ps|
  {
    if ps != [] && !(ps[|ps| - 1].role == role && ps[|ps| - 1].action == action) {
      var front := ps[..|ps| - 1];
      LastMatchMeans(front, role, action);
      match LastMatch(front, role, action)
      case Some(p) =>
        var i :| 0 <= i < |front| && front[i] == p && p.role == role && p.action == action
                 && forall j :: i < j < |front| ==> !(front[j].role == role && front[j].action == action);
        assert ps[i] == p;
        forall j | i < j < |ps| ensures !(ps[j].role == role && ps[j].action == action) {
          if j < |front| { assert ps[j] == front[j]; }
        }
      case None =>
        forall j | 0 <= j < |ps| ensures !(ps[j].role == role && ps[j].action == action) {
          if j < |front| { assert ps[j] == front[j]; }
        }
    }
  }

  predicate FirstAllows(ps: seq<Policy>, role: string, action: string) {
    var m := FirstMatch(ps, role, action); m.Some? && Allows(m.value)
  }

  predicate LastAllows(ps: seq<Policy>, role: string, action: string) {
    var m := LastMatch(ps, role, action); m.Some? && Allows(m.value)
  }

  /** `evaluate` says allow: the role itself or a directly inherited role has the last word for it. */
  predicate IndexAllows(ps: seq<Policy>, role: string, action: string, h: RoleHierarchy) {
    LastAllows(ps, role, action) || (role in h && exists i :: 0 <= i < |h[role]| && LastAllows(ps, h[role][i], action))
  }

  predicate LinearAllows(ps: seq<Policy>, role: string, action: string, h: RoleHierarchy) {
    || FirstAllows(ps, role, action)
    || (role in h && exists i :: 0 <= i < |h[role]| && FirstAllows(ps, h[role][i], action))
  }

  /** Somewhere the key is allowed, and no earlier policy is for it. */
  lemma FirstAllowsIff(ps: seq<Policy>, role: string, action: string)
    ensures FirstAllows(ps, role, action)
       <==> exists i :: 0 <= i < |ps| && ps[i] == Policy(role, action, "allow")
                        && forall j :: 0 <= j < i ==> !(ps[j].role == role && ps[j].action == action)
  {
    FirstMatchMeans(ps, role, action);
  }

  /** Somewhere the key is allowed, and no later policy is for it. */
  lemma LastAllowsIff(ps: seq<Policy>, role: string, action: string)
    ensures LastAllows(ps, role, action)
       <==> exists i :: 0 <= i < |ps| && ps[i] == Policy(role, action, "allow")
                        && forall j :: i < j < |ps| ==> !(ps[j].role == role && ps[j].action == action)
  {
    LastMatchMeans(ps, role, action);
  }

  // ------------------------------------------------------------------------------------------
  // The engine
  // ------------------------------------------------------------------------------------------

  class Engine {
    var policies: map<(string, string), bool>
    var rawPolicies: seq<Policy>

    /** The index holds exactly what the last policy of each key says. */
    ghost predicate Valid()
      reads this
    {
      && (forall k :: k in policies <==> LastMatch(rawPolicies, k.0, k.1).Some?)
      && forall k :: k in policies ==> policies[k] == LastAllows(rawPolicies, k.0, k.1)
    }

    constructor (ps: seq<Policy>)
      ensures Valid() && rawPolicies == ps
    {
      var index: map<(string, string), bool> := map[];
      for i := 0 to |ps|
        invariant forall k :: k in index <==> LastMatch(ps[..i], k.0, k.1).Some?
        invariant forall k :: k in index ==> index[k] == LastAllows(ps[..i], k.0, k.1)
      {
        assert ps[..i + 1][..i] == ps[..i];
        index := index[(ps[i].role, ps[i].action) := Allows(ps[i])];
      }
      assert ps[..|ps|] == ps;
      policies, rawPolicies := index, ps;
    }

    method Evaluate(role: string, action: string, hierarchy: RoleHierarchy) returns (r: Option<bool>)
      requires Valid()
      ensures r == if IndexAllows(rawPolicies, role, action, hierarchy) then Some(true) else None
    {
      if (role, action) in policies && policies[(role, action)] { return Some(true); }
      if role in hierarchy {
        var inherited := hierarchy[role];
        for i := 0 to |inherited|
          invariant forall j :: 0 <= j < i ==> !LastAllows(rawPolicies, inherited[j], action)
        {
          if (inherited[i], action) in policies && policies[(inherited[i], action)] { return Some(true); }
        }
      }
      r := None;
    }

    method Find(role: string, action: string) returns (p: Option<Policy>)
      ensures p == FirstMatch(rawPolicies, role, action)
    {
      for i := 0 to |rawPolicies|
        invariant FirstMatch(rawPolicies, role, action) == FirstMatch(rawPolicies[i..], role, action)
      {
        if Matches(rawPolicies[i], role, action) { return Some(rawPolicies[i]); }
      }
      p := None;
    }

    method EvaluateLinear(role: string, action: string, hierarchy: RoleHierarchy) returns (r: Option<bool>)
      ensures r == if LinearAllows(rawPolicies, role, action, hierarchy) then Some(true) else None
    {
      var p := Find(role, action);
      if p.Some? && Allows(p.value) { return Some(true); }
      if role in hierarchy {
        var inherited := hierarchy[role];
        for i := 0 to |inherited|
          invariant forall j :: 0 <= j < i ==> !FirstAllows(rawPolicies, inherited[j], action)
        {
          p := Find(inherited[i], action);
          if p.Some? && Allows(p.value) { return Some(true); }
        }
      }
      r := None;
    }
  }

  // ------------------------------------------------------------------------------------------
  // Agreement
  // ------------------------------------------------------------------------------------------

  /** Two policies for the same key, one allow and one deny, are enough to tell the forms apart, although the
      design notes say that the forms always agree. */
  lemma FormsDisagree()
    ensures var ps := [Policy("viewer", "read", "allow"), Policy("viewer", "read", "deny")];
            LinearAllows(ps, "viewer", "read", map[]) && !IndexAllows(ps, "viewer", "read", map[])
  {
    var ps := [Policy("viewer", "read", "allow"), Policy("viewer", "read", "deny")];
    assert LastMatch(ps, "viewer", "read") == Some(ps[1]);
    assert ps[1].effect[0] != "allow"[0];
  }

  /** For every key in the list, its first and its last policy say the same. */
  predicate EndsAgree(ps: seq<Policy>) {
    forall i :: 0 <= i < |ps| ==>
      FirstAllows(ps, ps[i].role, ps[i].action) == LastAllows(ps, ps[i].role, ps[i].action)
  }

  lemma {:induction false} MatchesExist(ps: seq<Policy>, role: string, action: string)
    ensures FirstMatch(ps, role, action).Some? ==> exists i :: 0 <= i < |ps| && Matches(ps[i], role, action)
    decreases |ps|
  {
    if ps != [] && !Matches(ps[0], role, action) {
      var rest := ps[1..];
      MatchesExist(rest, role, action);
      if i :| 0 <= i < |rest| && Matches(rest[i], role, action) { assert Matches(ps[i + 1], role, action); }
    }
  }

  lemma {:induction false} LastMatchExists(ps: seq<Policy>, role: string, action: string)
    ensures LastMatch(ps, role, action).Some? ==> exists i :: 0 <= i < |ps| && Matches(ps[i], role, action)
    decreases |ps|
  {
    if ps != [] && !Matches(ps[|ps| - 1], role, action) {
      var front := ps[..|ps| - 1];
      LastMatchExists(front, role, action);
      if i :| 0 <= i < |front| && Matches(front[i], role, action) { assert Matches(ps[i], role, action); }
    }
  }

  lemma EndsAgreeEverywhere(ps: seq<Policy>, role: string, action: string)
    requires EndsAgree(ps)
    ensures FirstAllows(ps, role, action) == LastAllows(ps, role, action)
  {
    MatchesExist(ps, role, action);
    LastMatchExists(ps, role, action);
    if i :| 0 <= i < |ps| && Matches(ps[i], role, action) {
      assert FirstAllows(ps, ps[i].role, ps[i].action) == LastAllows(ps, ps[i].role, ps[i].action);
    }
  }

  ghost predicate FormsAgree(ps: seq<Policy>) {
    forall role, action, h :: IndexAllows(ps, role, action, h) == LinearAllows(ps, role, action, h)
  }

  /** The two evaluators agree on all roles, actions and hierarchies if and only if the first and the last
      policy of every key agree on being an allow. */
  lemma FormsAgreeIff(ps: seq<Policy>)
    ensures FormsAgree(ps) <==> EndsAgree(ps)
  {
    if EndsAgree(ps) {
      forall role, action, h ensures IndexAllows(ps, role, action, h) == LinearAllows(ps, role, action, h) {
        EndsAgreeEverywhere(ps, role, action);
        if role in h {
          forall i | 0 <= i < |h[role]|
            ensures FirstAllows(ps, h[role][i], action) == LastAllows(ps, h[role][i], action)
          {
            EndsAgreeEverywhere(ps, h[role][i], action);
          }
        }
      }
    } else {
      var i :| 0 <= i < |ps|
        && FirstAllows(ps, ps[i].role, ps[i].action) != LastAllows(ps, ps[i].role, ps[i].action);
      assert IndexAllows(ps, ps[i].role, ps[i].action, map[])
          != LinearAllows(ps, ps[i].role, ps[i].action, map[]);
    }
  }

  function Reversed(ps: seq<Policy>): seq<Policy> {
    if ps == [] then [] else Reversed(ps[1..]) + [ps[0]]
  }

  lemma {:induction false} LastIsFirstReversed(ps: seq<Policy>, role: string, action: string)
    ensures FirstMatch(ps, role, action) == LastMatch(Reversed(ps), role, action)
    decreases |ps|
  {
    if ps != [] {
      assert Reversed(ps)[..|Reversed(ps)| - 1] == Reversed(ps[1..]);
      LastIsFirstReversed(ps[1..], role, action);
    }
  }

  /** Always: the linear scan of a list is the index of the reversed list. */
  lemma LinearIsIndexReversed(ps: seq<Policy>, role: string, action: string, h: RoleHierarchy)
    ensures LinearAllows(ps, role, action, h) == IndexAllows(Reversed(ps), role, action, h)
  {
    LastIsFirstReversed(ps, role, action);
    if role in h {
      forall i | 0 <= i < |h[role]|
        ensures FirstAllows(ps, h[role][i], action) == LastAllows(Reversed(ps), h[role][i], action)
      {
        LastIsFirstReversed(ps, h[role][i], action);
      }
    }
  }

  // ------------------------------------------------------------------------------------------
  // Inheritance
  // ------------------------------------------------------------------------------------------

  /** Some role reachable by inheritance, over any number of steps, is allowed. */
  ghost predicate InheritsAllow(ps: seq<Policy>, role: string, action: string, h: RoleHierarchy) {
    exists target :: Reaches(h, role, target) && LastAllows(ps, target, action)
  }

  lemma OneLevelSpec(ps: seq<Policy>, role: string, action: string, h: RoleHierarchy)
    ensures IndexAllows(ps, role, action, h)
       <==> exists t :: (role == t || Edge(h, role, t)) && LastAllows(ps, t, action)
  {
    if t :| (role == t || Edge(h, role, t)) && LastAllows(ps, t, action) {
      if role != t {
        var i :| 0 <= i < |h[role]| && h[role][i] == t;
        assert LastAllows(ps, h[role][i], action);
      }
    }
    if IndexAllows(ps, role, action, h) && !LastAllows(ps, role, action) {
      var i :| 0 <= i < |h[role]| && LastAllows(ps, h[role][i], action);
      assert Edge(h, role, h[role][i]);
    }
  }

  /** Looking one level deep is enough, for every policy list, exactly when the hierarchy is closed. */
  lemma OneLevelEnoughIff(h: RoleHierarchy)
    ensures Closed(h)
       <==> forall ps, role, action :: IndexAllows(ps, role, action, h) == InheritsAllow(ps, role, action, h)
  {
    if Closed(h) {
      forall ps, role, action ensures IndexAllows(ps, role, action, h) == InheritsAllow(ps, role, action, h) {
        OneLevelSpec(ps, role, action, h);
        forall t ensures Reaches(h, role, t) <==> role == t || Edge(h, role, t) { ClosedReaches(h, role, t); }
      }
    } else {
      var a, b, c :| Edge(h, a, b) && Edge(h, b, c) && c != a && !Edge(h, a, c);
      var ps := [Policy(c, "x", "allow")];
      assert Path(h, [a, b, c]);
      assert Reaches(h, a, c);
      assert LastAllows(ps, c, "x");
      OneLevelSpec(ps, a, "x", h);
      forall t | t != c ensures !LastAllows(ps, t, "x") {
        assert ps[..|ps| - 1] == [];
        assert LastMatch([], t, "x") == None;
      }
      assert IndexAllows(ps, a, "x", h) != InheritsAllow(ps, a, "x", h);
    }
  }

  /** More inheritance never takes an allow away, in either form. */
  lemma MoreEdgesMoreAllows(ps: seq<Policy>, role: string, action: string, h: RoleHierarchy, h': RoleHierarchy)
    requires forall a, b :: Edge(h, a, b) ==> Edge(h', a, b)
    ensures IndexAllows(ps, role, action, h) ==> IndexAllows(ps, role, action, h')
    ensures LinearAllows(ps, role, action, h) ==> LinearAllows(ps, role, action, h')
  {
    OneLevelSpec(ps, role, action, h);
    OneLevelSpec(ps, role, action, h');
    if LinearAllows(ps, role, action, h) && !FirstAllows(ps, role, action) {
      var i :| 0 <= i < |h[role]| && FirstAllows(ps, h[role][i], action);
      assert Edge(h, role, h[role][i]);
      var j :| 0 <= j < |h'[role]| && h'[role][j] == h[role][i];
      assert FirstAllows(ps, h'[role][j], action);
    }
  }
}
