/** Policies, their validation, and the role hierarchy. */
module Policy {
  import opened Wrappers
  import opened Blank

  datatype Policy = Policy(role: string, action: string, effect: string)

  predicate Allows(p: Policy) { p.effect == "allow" }

  predicate Matches(p: Policy, role: string, action: string) { p.role == role && p.action == action }

  // ------------------------------------------------------------------------------------------
  // Validation
  // ------------------------------------------------------------------------------------------

  datatype Field = Role | Action | Effect

  datatype ValidationError = Empty(index: nat, field: Field) | BadEffect(index: nat, found: string)

  predicate WellFormed(p: Policy) {
    !IsBlank(p.role) && !IsBlank(p.action) && (p.effect == "allow" || p.effect == "deny")
  }

  /** There are two effects. */
  lemma EffectsAre(p: Policy)
    ensures WellFormed(p) ==> p.effect in {"allow", "deny"}
    ensures p.effect in {"allow", "deny"} && !IsBlank(p.role) && !IsBlank(p.action) ==> WellFormed(p)
  {
  }

  /** What is reported about the first policy that is not well formed. */
  predicate Explains(e: ValidationError, p: Policy, index: nat) {
    match e
    case Empty(i, Role) => i == index && IsBlank(p.role)
    case Empty(i, Action) => i == index && IsBlank(p.action) && !IsBlank(p.role)
    case Empty(i, Effect) => i == index && IsBlank(p.effect) && !IsBlank(p.role) && !IsBlank(p.action)
    case BadEffect(i, found) =>
      && i == index && found == p.effect && p.effect != "allow" && p.effect != "deny"
      && !IsBlank(p.role) && !IsBlank(p.action) && !IsBlank(p.effect)
  }

  method ValidatePolicies(policies: seq<Policy>) returns (r: Result<(), ValidationError>)
    ensures r.Success? <==> forall i :: 0 <= i < |policies| ==> WellFormed(policies[i])
    ensures r.Failure? ==>
      exists i: nat :: i < |policies| && Explains(r.error, policies[i], i)
                       && forall j :: 0 <= j < i ==> WellFormed(policies[j])
  {
    for index := 0 to |policies|
      invariant forall j :: 0 <= j < index ==> WellFormed(policies[j])
    {
      var p := policies[index];
      var blank := IsBlankString(p.role);
      if blank {
        assert Explains(Empty(index, Role), policies[index], index);
        return Failure(Empty(index, Role));
      }
      blank := IsBlankString(p.action);
      if blank {
        assert Explains(Empty(index, Action), policies[index], index);
        return Failure(Empty(index, Action));
      }
      blank := IsBlankString(p.effect);
      if blank {
        BlankIsNoEffect(p.effect);
        assert Explains(Empty(index, Effect), policies[index], index);
        return Failure(Empty(index, Effect));
      }
      if p.effect != "allow" && p.effect != "deny" {
        assert Explains(BadEffect(index, p.effect), policies[index], index);
        return Failure(BadEffect(index, p.effect));
      }
    }
    r := Success(());
  }

  lemma BlankIsNoEffect(s: string)
    requires IsBlank(s)
    ensures s != "allow" && s != "deny"
  {
    var a, d := "allow", "deny";
    assert !IsWhiteSpace(a[0]) && !IsWhiteSpace(d[0]);
  }

  /** A role of nothing but spaces, tabs and line ends is reported as an empty role, if it is the first fault. */
  method ValidateSpaces(policies: seq<Policy>, i: nat) returns (r: Result<(), ValidationError>)
    requires i < |policies| && forall j :: 0 <= j < i ==> WellFormed(policies[j])
    requires forall k :: 0 <= k < |policies[i].role| ==> policies[i].role[k] in {' ', '\t', '\n', '\r'}
    ensures r == Failure(Empty(i, Role))
  {
    SpacesAreBlank(policies[i].role);
    r := ValidatePolicies(policies);
    assert !WellFormed(policies[i]);
    ghost var k: nat :| k < |policies| && Explains(r.error, policies[k], k)
                        && forall j :: 0 <= j < k ==> WellFormed(policies[j]);
    OnlyFaultsExplained(r.error, policies[k], k);
    assert k == i;
  }

  lemma OnlyFaultsExplained(e: ValidationError, p: Policy, index: nat)
    requires Explains(e, p, index)
    ensures !WellFormed(p)
  {
    if IsBlank(p.effect) { BlankIsNoEffect(p.effect); }
  }

  // ------------------------------------------------------------------------------------------
  // The role hierarchy
  // ------------------------------------------------------------------------------------------

  type RoleHierarchy = map<string, seq<string>>

  /** `role` inherits from `inherited` directly. */
  predicate Edge(h: RoleHierarchy, role: string, inherited: string) {
    role in h && inherited in h[role]
  }

  /** A path of one or more roles, each inheriting from the next. */
  predicate Path(h: RoleHierarchy, path: seq<string>) {
    path != [] && forall i :: 0 <= i < |path| - 1 ==> Edge(h, path[i], path[i + 1])
  }

  ghost predicate Reaches(h: RoleHierarchy, role: string, target: string) {
    exists path :: Path(h, path) && path[0] == role && path[|path| - 1] == target
  }

  /** Transitively closed, up to a role inheriting from itself. */
  ghost predicate Closed(h: RoleHierarchy) {
    forall a, b, c :: Edge(h, a, b) && Edge(h, b, c) ==> c == a || Edge(h, a, c)
  }

  method DefaultHierarchy() returns (h: RoleHierarchy)
    ensures h.Keys == {"admin", "developer", "viewer"} && Closed(h)
    ensures forall a, b :: Edge(h, a, b) <==>
      (a == "admin" && (b == "developer" || b == "viewer")) || (a == "developer" && b == "viewer")
  {
    h := map[];
    h := h["admin" := ["developer", "viewer"]];
    h := h["developer" := ["viewer"]];
    h := h["viewer" := []];
  }

  lemma {:induction false} ClosedPath(h: RoleHierarchy, path: seq<string>)
    requires Closed(h) && Path(h, path)
    ensures var last := path[|path| - 1]; last == path[0] || Edge(h, path[0], last)
    decreases |path|
  {
    if |path| > 1 {
      ClosedPath(h, path[..|path| - 1]);
      assert Edge(h, path[|path| - 2], path[|path| - 1]);
    }
  }

  /** In a closed hierarchy every role reachable by any path is one edge away. */
  lemma ClosedReaches(h: RoleHierarchy, role: string, target: string)
    requires Closed(h)
    ensures Reaches(h, role, target) <==> role == target || Edge(h, role, target)
  {
    if path :| Path(h, path) && path[0] == role && path[|path| - 1] == target {
      ClosedPath(h, path);
    }
    if role == target {
      assert Path(h, [role]);
    } else if Edge(h, role, target) {
      assert Path(h, [role, target]);
    }
  }
}
