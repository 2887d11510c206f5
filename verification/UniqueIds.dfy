/**
 * The loop behind `UpdateEnvironmentUserRolesRequest.validate` and `UpdateRolePermissionsRequest.validate`: ids must
 * be positive and pairwise distinct, and a set of the ids seen so far decides which ones are repeats.
 */
module UniqueIds {
  import opened Foundation
  import opened Decimal
  import opened Violations

  const UNIQUE := "repeated value must contain unique items"

  datatype UserRolesRequest = UserRolesRequest(environmentId: int, userId: int, roleIds: seq<int>)
  datatype RolePermissionsRequest = RolePermissionsRequest(roleId: int, permissionIds: seq<int>)

  function Repeat(message: string, name: string, idx: nat): (e: Error) {
    Violation(message, Label(name, idx), UNIQUE, None)
  }

  function NotPositive(message: string, name: string, idx: nat): (e: Error) {
    Violation(message, Label(name, idx), POSITIVE, None)
  }

  /** The violations of the last element: it repeats an earlier one, or it is not positive, or both in this order. */
  function LastErrors(message: string, name: string, earlier: seq<int>, x: int): (errors: seq<Error>) {
    (if x in earlier then [Repeat(message, name, |earlier|)] else [])
    + (if x <= 0 then [NotPositive(message, name, |earlier|)] else [])
  }

  function IdErrors(message: string, name: string, ids: seq<int>): (errors: seq<Error>) {
    if ids == [] then []
    else
      var earlier := ids[..|ids| - 1];
      IdErrors(message, name, earlier) + LastErrors(message, name, earlier, ids[|ids| - 1])
  }

  function UserRolesErrors(m: UserRolesRequest): (errors: seq<Error>) {
    Check(m.environmentId > 0, "UpdateEnvironmentUserRolesRequest", "EnvironmentId", POSITIVE)
    + Check(m.userId > 0, "UpdateEnvironmentUserRolesRequest", "UserId", POSITIVE)
    + IdErrors("UpdateEnvironmentUserRolesRequest", "RoleIds", m.roleIds)
  }

  function RolePermissionsErrors(m: RolePermissionsRequest): (errors: seq<Error>) {
    Check(m.roleId > 0, "UpdateRolePermissionsRequest", "RoleId", POSITIVE)
    + IdErrors("UpdateRolePermissionsRequest", "PermissionIds", m.permissionIds)
  }

  /**
   * The seen-set loop of both requests, run after the scalar checks have left `before`. In fail-fast mode it stops at
   * the first violation; otherwise it appends every violation of the list.
   */
  method CheckIds(message: string, name: string, ids: seq<int>, all: bool, before: seq<Error>)
    returns (errors: seq<Error>, failed: Option<Error>)
    requires !all ==> before == []
    ensures failed.None? ==> errors == before + IdErrors(message, name, ids)
    ensures !all ==> failed == Outcome(false, message, IdErrors(message, name, ids))
    ensures all ==> failed.None?
  {
    errors := before;
    var seen: set<int> := {};
    for idx := 0 to |ids|
      invariant seen == Members(ids[..idx])
      invariant errors == before + IdErrors(message, name, ids[..idx])
      invariant !all ==> errors == []
    {
      var item := ids[idx];
      IdErrorsStep(message, name, ids, idx);
      if item in seen {
        var err := Repeat(message, name, idx);
        if !all {
          FirstIdError(message, name, ids, idx);
          return errors, Some(err);
        }
        errors := errors + [err];
      } else {
        seen := seen + {item};
      }
      if item <= 0 {
        var err := NotPositive(message, name, idx);
        if !all {
          FirstIdError(message, name, ids, idx);
          return errors, Some(err);
        }
        errors := errors + [err];
      }
    }
    assert ids[..|ids|] == ids;
    failed := None;
  }

  method ValidateUserRoles(m: Option<UserRolesRequest>, all: bool) returns (r: Option<Error>)
    ensures r == if m.None? then None else Outcome(all, "UpdateEnvironmentUserRolesRequest", UserRolesErrors(m.value))
  {
    if m.None? {
      return None;
    }
    var errors: seq<Error> := [];
    if m.value.environmentId <= 0 {
      var err := Violation("UpdateEnvironmentUserRolesRequest", "EnvironmentId", POSITIVE, None);
      if !all { return Some(err); }
      errors := errors + [err];
    }
    if m.value.userId <= 0 {
      var err := Violation("UpdateEnvironmentUserRolesRequest", "UserId", POSITIVE, None);
      if !all { return Some(err); }
      errors := errors + [err];
    }
    var failed;
    errors, failed := CheckIds("UpdateEnvironmentUserRolesRequest", "RoleIds", m.value.roleIds, all, errors);
    if failed.Some? {
      return failed;
    }
    assert errors == UserRolesErrors(m.value);
    if |errors| > 0 {
      return Some(MultiError("UpdateEnvironmentUserRolesRequest", errors));
    }
    return None;
  }

  method ValidateRolePermissions(m: Option<RolePermissionsRequest>, all: bool) returns (r: Option<Error>)
    ensures r == if m.None? then None else Outcome(all, "UpdateRolePermissionsRequest", RolePermissionsErrors(m.value))
  {
    if m.None? {
      return None;
    }
    var errors: seq<Error> := [];
    if m.value.roleId <= 0 {
      var err := Violation("UpdateRolePermissionsRequest", "RoleId", POSITIVE, None);
      if !all { return Some(err); }
      errors := errors + [err];
    }
    var failed;
    errors, failed := CheckIds("UpdateRolePermissionsRequest", "PermissionIds", m.value.permissionIds, all, errors);
    if failed.Some? {
      return failed;
    }
    assert errors == RolePermissionsErrors(m.value);
    if |errors| > 0 {
      return Some(MultiError("UpdateRolePermissionsRequest", errors));
    }
    return None;
  }

  // ---- The list of violations ----

  lemma {:induction false} IdErrorsPrefix(message: string, name: string, earlier: seq<int>, later: seq<int>)
    ensures IdErrors(message, name, earlier) <= IdErrors(message, name, earlier + later)
  {
    if later == [] {
      assert earlier + later == earlier;
    } else {
      assert (earlier + later)[..|earlier + later| - 1] == earlier + later[..|later| - 1];
      IdErrorsPrefix(message, name, earlier, later[..|later| - 1]);
    }
  }

  lemma {:induction false} DistinctStep(ids: seq<int>, x: int)
    ensures Members(ids + [x]) == Members(ids) + {x} && (x in ids <==> x in Members(ids))
    ensures |Members(ids + [x])| == |Members(ids)| + (if x in ids then 0 else 1)
  {
    assert Members(ids + [x]) == Members(ids) + {x};
  }

  /** What one turn of the loop adds. */
  lemma {:induction false} IdErrorsStep(message: string, name: string, ids: seq<int>, idx: nat)
    requires idx < |ids|
    ensures IdErrors(message, name, ids[..idx + 1])
         == IdErrors(message, name, ids[..idx]) + LastErrors(message, name, ids[..idx], ids[idx])
    ensures Members(ids[..idx + 1]) == Members(ids[..idx]) + {ids[idx]}
    ensures ids[idx] in ids[..idx] <==> ids[idx] in Members(ids[..idx])
  {
    assert ids[..idx + 1] == ids[..idx] + [ids[idx]];
    assert ids[..idx + 1][..idx] == ids[..idx];
    DistinctStep(ids[..idx], ids[idx]);
  }

  lemma {:induction false} FirstIdError(message: string, name: string, ids: seq<int>, idx: nat)
    requires idx < |ids| && IdErrors(message, name, ids[..idx]) == []
    requires LastErrors(message, name, ids[..idx], ids[idx]) != []
    ensures Outcome(false, message, IdErrors(message, name, ids))
         == Some(LastErrors(message, name, ids[..idx], ids[idx])[0])
  {
    LastErrorsComeFirst(message, name, ids, idx);
    LastErrorsAreFlat(message, name, ids[..idx], ids[idx]);
    FirstOfPrefix(message, LastErrors(message, name, ids[..idx], ids[idx]), IdErrors(message, name, ids));
  }

  lemma {:induction false} LastErrorsComeFirst(message: string, name: string, ids: seq<int>, idx: nat)
    requires idx < |ids| && IdErrors(message, name, ids[..idx]) == []
    ensures LastErrors(message, name, ids[..idx], ids[idx]) <= IdErrors(message, name, ids)
  {
    IdErrorsStep(message, name, ids, idx);
    IdErrorsPrefix(message, name, ids[..idx + 1], ids[idx + 1..]);
    assert ids[..idx + 1] + ids[idx + 1..] == ids;
  }

  lemma {:induction false} FirstOfPrefix(message: string, first: seq<Error>, errors: seq<Error>)
    requires first != [] && first <= errors
    ensures Outcome(false, message, errors) == Some(FirstProjection(first[0]))
  {
  }

  lemma {:induction false} LastErrorsAreFlat(message: string, name: string, earlier: seq<int>, x: int)
    ensures forall i :: 0 <= i < |LastErrors(message, name, earlier, x)| ==>
              var e := LastErrors(message, name, earlier, x)[i]; FirstProjection(e) == e
  {
  }

  function CountReason(errors: seq<Error>, reason: string): (n: nat) {
    if errors == [] then 0
    else CountReason(errors[..|errors| - 1], reason)
         + (if errors[|errors| - 1].Violation? && errors[|errors| - 1].reason == reason then 1 else 0)
  }

  lemma {:induction false} CountConcat(xs: seq<Error>, ys: seq<Error>, reason: string)
    ensures CountReason(xs + ys, reason) == CountReason(xs, reason) + CountReason(ys, reason)
  {
    if ys == [] {
      assert xs + ys == xs;
    } else {
      assert (xs + ys)[..|xs + ys| - 1] == xs + ys[..|ys| - 1];
      CountConcat(xs, ys[..|ys| - 1], reason);
    }
  }

  function CountNotPositive(ids: seq<int>): (n: nat) {
    if ids == [] then 0 else CountNotPositive(ids[..|ids| - 1]) + (if ids[|ids| - 1] <= 0 then 1 else 0)
  }

  lemma {:induction false} ReasonsDiffer()
    ensures POSITIVE != UNIQUE
  {
    assert POSITIVE[0] == 'v' && UNIQUE[0] == 'r';
  }

  lemma {:induction false} CountLast(message: string, name: string, earlier: seq<int>, x: int)
    ensures var step := LastErrors(message, name, earlier, x);
            && CountReason(step, UNIQUE) == (if x in earlier then 1 else 0)
            && CountReason(step, POSITIVE) == (if x <= 0 then 1 else 0)
            && |step| == CountReason(step, UNIQUE) + CountReason(step, POSITIVE)
  {
    ReasonsDiffer();
    var repeats := if x in earlier then [Repeat(message, name, |earlier|)] else [];
    var ranges := if x <= 0 then [NotPositive(message, name, |earlier|)] else [];
    CountConcat(repeats, ranges, UNIQUE);
    CountConcat(repeats, ranges, POSITIVE);
  }

  /** Exactly one repeat for each element beyond the distinct ones, and one range violation per non-positive id. */
  lemma {:induction false} ExactCounts(message: string, name: string, ids: seq<int>)
    ensures var errors := IdErrors(message, name, ids);
            && CountReason(errors, UNIQUE) == |ids| - |Members(ids)|
            && CountReason(errors, POSITIVE) == CountNotPositive(ids)
            && |errors| == |ids| - |Members(ids)| + CountNotPositive(ids)
  {
    if ids != [] {
      var earlier, x := ids[..|ids| - 1], ids[|ids| - 1];
      ExactCounts(message, name, earlier);
      CountLast(message, name, earlier, x);
      var before, step := IdErrors(message, name, earlier), LastErrors(message, name, earlier, x);
      CountConcat(before, step, UNIQUE);
      CountConcat(before, step, POSITIVE);
      assert ids == earlier + [x];
      DistinctStep(earlier, x);
    }
  }

  /** Reordering the ids changes neither how many repeats nor how many range violations are reported. */
  lemma {:induction false} PermutationInvariant(message: string, name: string, ids: seq<int>, others: seq<int>)
    requires multiset(ids) == multiset(others)
    ensures var errors := IdErrors(message, name, ids);
            var reordered := IdErrors(message, name, others);
            && CountReason(errors, UNIQUE) == CountReason(reordered, UNIQUE)
            && CountReason(errors, POSITIVE) == CountReason(reordered, POSITIVE)
            && |errors| == |reordered|
  {
    ExactCounts(message, name, ids);
    ExactCounts(message, name, others);
    PermutedMembers(ids, others);
    CountNotPositivePermuted(ids, others);
  }

  lemma {:induction false} PermutedMembers(ids: seq<int>, others: seq<int>)
    requires multiset(ids) == multiset(others)
    ensures |ids| == |others| && Members(ids) == Members(others)
  {
    assert |ids| == |multiset(ids)| && |others| == |multiset(others)|;
    assert forall x :: x in ids <==> x in multiset(ids);
    assert forall x :: x in others <==> x in multiset(others);
  }

  lemma {:induction false} CountNotPositivePermuted(ids: seq<int>, others: seq<int>)
    requires multiset(ids) == multiset(others)
    ensures CountNotPositive(ids) == CountNotPositive(others)
  {
    if ids == [] {
      assert |others| == |multiset(others)| == 0;
    } else {
      var earlier, x := ids[..|ids| - 1], ids[|ids| - 1];
      assert ids == earlier + [x];
      assert x in multiset(others);
      var k :| 0 <= k < |others| && others[k] == x;
      RemoveOne(earlier, x, others, k);
      CountNotPositivePermuted(earlier, others[..k] + others[k + 1..]);
      CountNotPositiveConcat(others[..k], [x] + others[k + 1..]);
      CountNotPositiveConcat([x], others[k + 1..]);
      CountNotPositiveConcat(others[..k], others[k + 1..]);
    }
  }

  lemma {:induction false} RemoveOne(earlier: seq<int>, x: int, others: seq<int>, k: nat)
    requires k < |others| && others[k] == x && multiset(earlier + [x]) == multiset(others)
    ensures others == others[..k] + ([x] + others[k + 1..])
    ensures multiset(earlier) == multiset(others[..k] + others[k + 1..])
  {
    var rest := others[..k] + others[k + 1..];
    assert others == others[..k] + ([x] + others[k + 1..]);
    assert multiset(others) == multiset(others[..k]) + (multiset{x} + multiset(others[k + 1..]));
    assert multiset(rest) == multiset(others[..k]) + multiset(others[k + 1..]);
    assert multiset(earlier + [x]) == multiset(earlier) + multiset{x};
    assert multiset(earlier) == multiset(others) - multiset{x};
  }

  lemma {:induction false} CountNotPositiveConcat(xs: seq<int>, ys: seq<int>)
    ensures CountNotPositive(xs + ys) == CountNotPositive(xs) + CountNotPositive(ys)
  {
    if ys == [] {
      assert xs + ys == xs;
    } else {
      assert (xs + ys)[..|xs + ys| - 1] == xs + ys[..|ys| - 1];
      CountNotPositiveConcat(xs, ys[..|ys| - 1]);
    }
  }

  predicate AllPositive(ids: seq<int>) {
    forall i :: 0 <= i < |ids| ==> ids[i] > 0
  }

  lemma {:induction false} AcceptableLast(earlier: seq<int>, x: int)
    ensures AllPositive(earlier + [x]) <==> AllPositive(earlier) && x > 0
    ensures AllDistinct(earlier + [x]) <==> AllDistinct(earlier) && x !in earlier
  {
    var ids := earlier + [x];
    assert ids[|earlier|] == x;
    assert forall i :: 0 <= i < |earlier| ==> earlier[i] == ids[i];
  }

  lemma {:induction false} NoLastErrors(message: string, name: string, earlier: seq<int>, x: int)
    ensures LastErrors(message, name, earlier, x) == [] <==> x !in earlier && x > 0
  {
  }

  lemma {:induction false} NoIdErrors(message: string, name: string, ids: seq<int>)
    ensures IdErrors(message, name, ids) == [] <==> AllPositive(ids) && AllDistinct(ids)
  {
    if ids != [] {
      var earlier, x := ids[..|ids| - 1], ids[|ids| - 1];
      NoIdErrors(message, name, earlier);
      NoLastErrors(message, name, earlier, x);
      AcceptableLast(earlier, x);
      assert ids == earlier + [x];
    }
  }

  /** Both validators accept, in both modes, exactly the positive scalars with positive and pairwise distinct ids. */
  lemma {:induction false} UserRolesAccepted(m: UserRolesRequest, all: bool)
    ensures Outcome(all, "UpdateEnvironmentUserRolesRequest", UserRolesErrors(m)).None?
       <==> m.environmentId > 0 && m.userId > 0 && AllPositive(m.roleIds) && AllDistinct(m.roleIds)
  {
    NoIdErrors("UpdateEnvironmentUserRolesRequest", "RoleIds", m.roleIds);
    assert m.roleIds[..|m.roleIds|] == m.roleIds;
  }

  lemma {:induction false} RolePermissionsAccepted(m: RolePermissionsRequest, all: bool)
    ensures Outcome(all, "UpdateRolePermissionsRequest", RolePermissionsErrors(m)).None?
       <==> m.roleId > 0 && AllPositive(m.permissionIds) && AllDistinct(m.permissionIds)
  {
    NoIdErrors("UpdateRolePermissionsRequest", "PermissionIds", m.permissionIds);
    assert m.permissionIds[..|m.permissionIds|] == m.permissionIds;
  }

  /** Which element a violation is about, and whether it is the second kind of violation for it. */
  /** In fail-fast mode the scalars report first, in order, and then the first element with anything wrong. */
  lemma {:induction false} UserRolesReported(m: UserRolesRequest)
    ensures Outcome(false, "UpdateEnvironmentUserRolesRequest", UserRolesErrors(m))
         == if m.environmentId <= 0
            then Some(Violation("UpdateEnvironmentUserRolesRequest", "EnvironmentId", POSITIVE, None))
            else if m.userId <= 0
            then Some(Violation("UpdateEnvironmentUserRolesRequest", "UserId", POSITIVE, None))
            else Outcome(false, "UpdateEnvironmentUserRolesRequest",
                         IdErrors("UpdateEnvironmentUserRolesRequest", "RoleIds", m.roleIds))
  {
  }

  lemma {:induction false} RolePermissionsReported(m: RolePermissionsRequest)
    ensures Outcome(false, "UpdateRolePermissionsRequest", RolePermissionsErrors(m))
         == if m.roleId <= 0 then Some(Violation("UpdateRolePermissionsRequest", "RoleId", POSITIVE, None))
            else Outcome(false, "UpdateRolePermissionsRequest",
                         IdErrors("UpdateRolePermissionsRequest", "PermissionIds", m.permissionIds))
  {
  }

  datatype Position = Position(index: nat, range: bool)

  predicate Before(p: Position, q: Position) {
    p.index < q.index || (p.index == q.index && !p.range && q.range)
  }

  function Locate(message: string, name: string, p: Position): (e: Error) {
    if p.range then NotPositive(message, name, p.index) else Repeat(message, name, p.index)
  }

  function Positions(ids: seq<int>): (ps: seq<Position>) {
    if ids == [] then []
    else
      var earlier, x := ids[..|ids| - 1], ids[|ids| - 1];
      Positions(earlier)
      + ((if x in earlier then [Position(|earlier|, false)] else [])
         + (if x <= 0 then [Position(|earlier|, true)] else []))
  }

  /** Whether the element at the position violates the rule of that position. */
  predicate Deserved(ids: seq<int>, p: Position) {
    p.index < |ids| && if p.range then ids[p.index] <= 0 else ids[p.index] in ids[..p.index]
  }

  lemma {:induction false} PositionsComplete(ids: seq<int>, p: Position)
    ensures p in Positions(ids) <==> Deserved(ids, p)
  {
    if ids != [] {
      var earlier := ids[..|ids| - 1];
      PositionsComplete(earlier, p);
      if p.index < |earlier| {
        assert earlier[..p.index] == ids[..p.index];
      }
    }
  }

  predicate AllLocated(message: string, name: string, errors: seq<Error>, ps: seq<Position>) {
    |errors| == |ps| && forall i :: 0 <= i < |ps| ==> errors[i] == Locate(message, name, ps[i])
  }

  predicate AllBefore(ps: seq<Position>, index: nat) {
    forall i :: 0 <= i < |ps| ==> ps[i].index < index
  }

  predicate InOrder(ps: seq<Position>) {
    forall i, j :: 0 <= i < j < |ps| ==> Before(ps[i], ps[j])
  }

  lemma {:induction false} ReportedAtPositions(message: string, name: string, ids: seq<int>)
    ensures AllLocated(message, name, IdErrors(message, name, ids), Positions(ids))
  {
    if ids != [] {
      var earlier, x := ids[..|ids| - 1], ids[|ids| - 1];
      ReportedAtPositions(message, name, earlier);
      var step := Positions(ids)[|Positions(earlier)|..];
      assert AllLocated(message, name, LastErrors(message, name, earlier, x), step);
    }
  }

  lemma {:induction false} PositionsInOrder(ids: seq<int>)
    ensures AllBefore(Positions(ids), |ids|) && InOrder(Positions(ids))
  {
    if ids != [] {
      var earlier, x := ids[..|ids| - 1], ids[|ids| - 1];
      PositionsInOrder(earlier);
      var step := (if x in earlier then [Position(|earlier|, false)] else [])
                  + (if x <= 0 then [Position(|earlier|, true)] else []);
      InOrderAppend(Positions(earlier), step, |earlier|);
    }
  }

  lemma {:induction false} InOrderAppend(ps: seq<Position>, step: seq<Position>, index: nat)
    requires InOrder(ps) && AllBefore(ps, index) && InOrder(step)
    requires forall i :: 0 <= i < |step| ==> step[i].index == index
    ensures InOrder(ps + step) && AllBefore(ps + step, index + 1)
  {
  }

  /**
   * Violations come in index order, a repeat before a range violation of the same element, and there is one for
   * exactly the elements that deserve it.
   */
  lemma {:induction false} ReportedInOrder(message: string, name: string, ids: seq<int>)
    ensures var errors, ps := IdErrors(message, name, ids), Positions(ids);
            && |errors| == |ps|
            && (forall i :: 0 <= i < |ps| ==> errors[i] == Locate(message, name, ps[i]))
            && (forall i, j :: 0 <= i < j < |ps| ==> Before(ps[i], ps[j]))
            && (forall p :: p in ps <==> Deserved(ids, p))
  {
    ReportedAtPositions(message, name, ids);
    PositionsInOrder(ids);
    forall p
      ensures p in Positions(ids) <==> Deserved(ids, p)
    {
      PositionsComplete(ids, p);
    }
  }
}
