/**
 * The scene-randomisation controller (class `Sence`): the safe-position
 * search used to scatter obstacles around a target, the text patch that
 * makes a spawned model dynamic, and the registry of spawned model names.
 * The simulator's services are replaced by their replies, given as inputs.
 */
module Sence {
  import opened Common
  import opened Text

  // ---------------------------------------------------------------------
  // Placement constraints

  /** A closed interval `[lo, hi]` of one axis. */
  datatype Interval = Interval(lo: real, hi: real)

  /** The sampling volume: one closed interval per axis. */
  datatype Workspace = Workspace(x: Interval, y: Interval, z: Interval)

  /** The parameters `workspace`, `min_dist` and `max_dist` of the search. */
  datatype Constraints = Constraints(workspace: Workspace, minDist: real, maxDist: real)

  /** The search's default arguments. */
  const DEFAULT_CONSTRAINTS := Constraints(
    Workspace(Interval(-0.65, -0.35), Interval(-0.15, 0.15), Interval(0.02, 0.04)),
    0.07, 0.1)
  const DEFAULT_NUM_POSITIONS := 1
  const DEFAULT_MAX_ATTEMPTS := 10000

  /** The number of obstacles placed around the target. */
  const NUM_OBSTACLES := 5

  predicate InInterval(v: real, i: Interval) {
    i.lo <= v <= i.hi
  }

  /** The chained comparisons on all three axes, both ends inclusive. */
  predicate InWorkspace(w: Workspace, c: Vec3) {
    InInterval(c.x, w.x) && InInterval(c.y, w.y) && InInterval(c.z, w.z)
  }

  /** `r <= sqrt(d2)`, that is `min_dist <= math.dist(...)`, without a square root. */
  predicate DistAtLeast(d2: real, r: real) {
    r <= 0.0 || r * r <= d2
  }

  /** `sqrt(d2) <= r`, that is `m_d <= max_dist`, without a square root. */
  predicate DistAtMost(d2: real, r: real) {
    0.0 <= r && d2 <= r * r
  }

  /**
   * The squared distance from `c` to its nearest object; its square root is
   * `m_d`, since the square root is monotone.
   */
  function MinDist2(c: Vec3, objects: seq<Vec3>): (r: real)
    requires objects != []
    ensures forall i :: 0 <= i < |objects| ==> r <= Dist2(c, objects[i])
    ensures exists i :: 0 <= i < |objects| && r == Dist2(c, objects[i])
    decreases |objects|
  {
    if |objects| == 1 then Dist2(c, objects[0])
    else
      var rest := MinDist2(c, objects[1..]);
      assert forall i :: 1 <= i < |objects| ==> objects[i] == objects[1..][i - 1];
      if Dist2(c, objects[0]) <= rest then Dist2(c, objects[0]) else rest
  }

  /** The `for obj in objects` loop of `is_valid`, which returns on the first failing object. */
  function CheckObjects(c: Vec3, objects: seq<Vec3>, minDist: real, md2: real, maxDist: real): bool
    decreases |objects|
  {
    if objects == [] then true
    else if !(DistAtLeast(Dist2(c, objects[0]), minDist) && DistAtMost(md2, maxDist)) then false
    else CheckObjects(c, objects[1..], minDist, md2, maxDist)
  }

  /**
   * `is_valid(candidate)`. `objects` must not be empty: `min` over an empty
   * generator raises, and the only caller always passes a seeded list.
   */
  function IsValid(k: Constraints, objects: seq<Vec3>, c: Vec3): bool
    requires objects != []
  {
    if !InWorkspace(k.workspace, c) then false
    else CheckObjects(c, objects, k.minDist, MinDist2(c, objects), k.maxDist)
  }

  /**
   * What an accepted candidate should satisfy, stated without the nearest
   * distance: inside the box, far enough from every object, and close
   * enough to at least one.
   */
  predicate Acceptable(k: Constraints, objects: seq<Vec3>, c: Vec3) {
    && InWorkspace(k.workspace, c)
    && (forall i :: 0 <= i < |objects| ==> DistAtLeast(Dist2(c, objects[i]), k.minDist))
    && (exists i :: 0 <= i < |objects| && DistAtMost(Dist2(c, objects[i]), k.maxDist))
  }

  lemma {:induction false} CheckObjectsMeans(c: Vec3, objects: seq<Vec3>, minDist: real, md2: real, maxDist: real)
    ensures CheckObjects(c, objects, minDist, md2, maxDist) <==>
      (forall i :: 0 <= i < |objects| ==> DistAtLeast(Dist2(c, objects[i]), minDist))
      && (objects != [] ==> DistAtMost(md2, maxDist))
    decreases |objects|
  {
    if objects != [] {
      CheckObjectsMeans(c, objects[1..], minDist, md2, maxDist);
      assert forall i :: 1 <= i < |objects| ==> objects[i] == objects[1..][i - 1];
    }
  }

  lemma DistAtMostMonotone(d: real, e: real, r: real)
    requires d <= e && DistAtMost(e, r)
    ensures DistAtMost(d, r)
  {
  }

  /**
   * `is_valid` accepts exactly the acceptable candidates: the nearest-object
   * test does not depend on the loop variable, so it amounts to "some
   * object is within `max_dist`".
   */
  lemma IsValidIffAcceptable(k: Constraints, objects: seq<Vec3>, c: Vec3)
    requires objects != []
    ensures IsValid(k, objects, c) <==> Acceptable(k, objects, c)
  {
    if InWorkspace(k.workspace, c) {
      var md2 := MinDist2(c, objects);
      CheckObjectsMeans(c, objects, k.minDist, md2, k.maxDist);
      if exists i :: 0 <= i < |objects| && DistAtMost(Dist2(c, objects[i]), k.maxDist) {
        var i :| 0 <= i < |objects| && DistAtMost(Dist2(c, objects[i]), k.maxDist);
        DistAtMostMonotone(md2, Dist2(c, objects[i]), k.maxDist);
      }
    }
  }

  /** Squaring is strictly monotone on the non-negative reals. */
  lemma SquareStrictlyMonotone(a: real, b: real)
    requires 0.0 <= a < b
    ensures a * a < b * b
  {
    var d := b - a;
    assert b * b == a * a + 2.0 * a * d + d * d;
    assert a * d >= 0.0 && d * d > 0.0;
  }

  /** No distance is both at least `minDist` and at most a smaller `maxDist`. */
  lemma DistBoundsClash(d2: real, minDist: real, maxDist: real)
    requires maxDist < minDist
    ensures !(DistAtLeast(d2, minDist) && DistAtMost(d2, maxDist))
  {
    if maxDist >= 0.0 {
      SquareStrictlyMonotone(maxDist, minDist);
    }
  }

  /** With `max_dist < min_dist` no candidate is ever valid. */
  lemma NoCandidateWhenMaxBelowMin(k: Constraints, objects: seq<Vec3>, c: Vec3)
    requires objects != [] && k.maxDist < k.minDist
    ensures !IsValid(k, objects, c)
  {
    IsValidIffAcceptable(k, objects, c);
    if Acceptable(k, objects, c) {
      var i :| 0 <= i < |objects| && DistAtMost(Dist2(c, objects[i]), k.maxDist);
      DistBoundsClash(Dist2(c, objects[i]), k.minDist, k.maxDist);
    }
  }

  // ---------------------------------------------------------------------
  // The search

  /** A candidate as the 3-element list the search returns. */
  function Coords(c: Vec3): seq<real> {
    [c.x, c.y, c.z]
  }

  /** The list `[x, y, z]` back as a point. */
  function ToVec3(p: seq<real>): Vec3
    requires |p| == 3
  {
    Vec3(p[0], p[1], p[2])
  }

  /**
   * `find_safe_positions`. The random candidates are the input `draw`: the
   * i-th call of the three `random.uniform` draws yields `draw(i)`. `found`
   * is *replaced* by each valid candidate, so its length is 0 or 3, and the
   * guard `len(found) >= num_positions` decides whether the search stops at
   * the first valid candidate (1 to 3), never starts (0 or less) or runs all
   * attempts and keeps the last valid one (more than 3). `drawn` is the
   * number of candidates drawn.
   */
  method FindSafePositions(objects: seq<Vec3>, k: Constraints, numPositions: int, maxAttempts: int,
                           draw: nat -> Vec3)
    returns (found: seq<real>, drawn: nat)
    requires objects != []
    ensures drawn <= maxAttempts || drawn == 0
    ensures found == [] || |found| == 3
    ensures found != [] ==> Acceptable(k, objects, ToVec3(found))
    ensures k.maxDist < k.minDist ==> found == []
    ensures numPositions <= 0 ==> found == [] && drawn == 0
    ensures 1 <= numPositions <= 3 ==>
      && (found == [] <==> forall i :: 0 <= i < maxAttempts ==> !IsValid(k, objects, draw(i)))
      && (found == [] ==> drawn == maxAttempts || maxAttempts < 0)
      && (found != [] ==> && 1 <= drawn
                          && found == Coords(draw(drawn - 1))
                          && IsValid(k, objects, draw(drawn - 1))
                          && forall i :: 0 <= i < drawn - 1 ==> !IsValid(k, objects, draw(i)))
    ensures numPositions > 3 ==>
      && (drawn == maxAttempts || maxAttempts < 0)
      && (found == [] <==> forall i :: 0 <= i < maxAttempts ==> !IsValid(k, objects, draw(i)))
      && (found != [] ==> exists j :: && 0 <= j < maxAttempts
                                      && found == Coords(draw(j))
                                      && IsValid(k, objects, draw(j))
                                      && forall i :: j < i < maxAttempts ==> !IsValid(k, objects, draw(i)))
  {
    found := [];
    var i: nat := 0;
    ghost var last: int := -1;
    while i < maxAttempts
      invariant i == 0 || i <= maxAttempts
      invariant numPositions <= 0 ==> i == 0
      invariant -1 <= last < i
      invariant found == [] <==> last == -1
      invariant last == -1 ==> forall m :: 0 <= m < i ==> !IsValid(k, objects, draw(m))
      invariant last >= 0 ==> && found == Coords(draw(last))
                              && IsValid(k, objects, draw(last))
                              && forall m :: last < m < i ==> !IsValid(k, objects, draw(m))
      invariant 1 <= numPositions <= 3 && last >= 0 ==>
        last == i - 1 && forall m :: 0 <= m < last ==> !IsValid(k, objects, draw(m))
      decreases maxAttempts - i
    {
      if |found| >= numPositions {
        break;
      }
      var candidate := draw(i);
      if IsValid(k, objects, candidate) {
        found := Coords(candidate);
        last := i;
      }
      i := i + 1;
    }
    drawn := i;
    if last >= 0 {
      assert ToVec3(found) == draw(last);
      IsValidIffAcceptable(k, objects, draw(last));
      if k.maxDist < k.minDist {
        NoCandidateWhenMaxBelowMin(k, objects, draw(last));
      }
    }
  }

  // ---------------------------------------------------------------------
  // Making a model dynamic

  const STATIC_TRUE := "<static>true</static>"
  const STATIC_FALSE := "<static>false</static>"

  /**
   * The text handed to the spawn service: `model_xml.replace(
   * "<static>true</static>", "<static>false</static>")`. No static flag set
   * to true survives, and text without one is passed on unchanged.
   */
  function MakeDynamic(xml: string): (r: string)
    ensures !Contains(r, STATIC_TRUE)
    ensures !Contains(xml, STATIC_TRUE) ==> r == xml
  {
    NoStaticTrueAfterReplace(xml);
    var r := ReplaceAll(xml, STATIC_TRUE, STATIC_FALSE);
    assert !Contains(xml, STATIC_TRUE) ==> r == xml by {
      if !Contains(xml, STATIC_TRUE) {
        ReplaceAllNoMatch(xml, STATIC_TRUE, STATIC_FALSE);
      }
    }
    r
  }

  /** Making a model dynamic twice is the same as making it dynamic once. */
  lemma MakeDynamicIdempotent(xml: string)
    ensures MakeDynamic(MakeDynamic(xml)) == MakeDynamic(xml)
  {
  }

  /** In `STATIC_TRUE`, `<` stands only at positions 0 and 12. */
  lemma OpenAnglesOfStaticTrue(p: int)
    requires 0 <= p < |STATIC_TRUE| && STATIC_TRUE[p] == '<'
    ensures p == 0 || p == 12
  {
  }

  /** In `STATIC_FALSE`, `<` stands only at positions 0 and 13. */
  lemma OpenAnglesOfStaticFalse(p: int)
    requires 0 <= p < |STATIC_FALSE| && STATIC_FALSE[p] == '<'
    ensures p == 0 || p == 13
  {
  }

  /** Putting the replacement in front of flag-free text creates no flag. */
  lemma NoStaticTrueAfterFalse(u: string)
    requires !Contains(u, STATIC_TRUE)
    ensures !Contains(STATIC_FALSE + u, STATIC_TRUE)
  {
    var T, F := STATIC_TRUE, STATIC_FALSE;
    var v := F + u;
    forall q | 0 <= q <= |v| ensures !OccursAt(v, T, q) {
      if q >= |F| {
        OccursAtAppend(F, u, T, q - |F|);
      } else if q + |T| <= |v| {
        var w := v[q..q + |T|];
        assert w[0] == v[q] == F[q];
        if F[q] != '<' {
          assert w[0] != T[0];
        } else {
          OpenAnglesOfStaticFalse(q);
          if q == 0 {
            assert w[8] == F[8] != T[8];
          } else {
            assert w[1] == F[14] != T[1];
          }
        }
      }
    }
  }

  /** The replace leaves no `<static>true</static>` behind. */
  lemma {:induction false} NoStaticTrueAfterReplace(s: string)
    ensures !Contains(ReplaceAll(s, STATIC_TRUE, STATIC_FALSE), STATIC_TRUE)
    decreases |s|
  {
    var T, F := STATIC_TRUE, STATIC_FALSE;
    if |s| < |T| {
    } else if s[..|T|] == T {
      NoStaticTrueAfterReplace(s[|T|..]);
      NoStaticTrueAfterFalse(ReplaceAll(s[|T|..], T, F));
    } else {
      var t := s[1..];
      var rt := ReplaceAll(t, T, F);
      NoStaticTrueAfterReplace(t);
      var v := [s[0]] + rt;
      assert ReplaceAll(s, T, F) == v;
      forall q | 0 <= q <= |v| ensures !OccursAt(v, T, q) {
        if q >= 1 {
          OccursAtAppend([s[0]], rt, T, q - 1);
        } else {
          NoStaticTrueAtFront(s, t, rt);
        }
      }
    }
  }

  /** The case of NoStaticTrueAfterReplace where the flag would start the result. */
  lemma NoStaticTrueAtFront(s: string, t: string, rt: string)
    requires |s| >= |STATIC_TRUE| && s[..|STATIC_TRUE|] != STATIC_TRUE
    requires t == s[1..] && rt == ReplaceAll(t, STATIC_TRUE, STATIC_FALSE)
    ensures !OccursAt([s[0]] + rt, STATIC_TRUE, 0)
  {
    var j := Find(t, STATIC_TRUE);
    if j == -1 || j >= 20 {
      CopiedFront(s, t, rt);
    } else {
      ReplacedEarly(s[0], t, rt, j);
    }
  }

  /** No flag starts in the first 20 characters of `t`: the result begins like `s`. */
  lemma CopiedFront(s: string, t: string, rt: string)
    requires |s| >= |STATIC_TRUE| && s[..|STATIC_TRUE|] != STATIC_TRUE
    requires t == s[1..] && rt == ReplaceAll(t, STATIC_TRUE, STATIC_FALSE)
    requires Find(t, STATIC_TRUE) == -1 || Find(t, STATIC_TRUE) >= 20
    ensures !OccursAt([s[0]] + rt, STATIC_TRUE, 0)
  {
    forall m | 0 <= m < 20 ensures !OccursAt(t, STATIC_TRUE, m) { }
    ReplaceAllPrefix(t, STATIC_TRUE, STATIC_FALSE, 20);
    assert rt[..20] == t[..20];
    var v := [s[0]] + rt;
    assert v[..21] == [s[0]] + rt[..20];
    assert [s[0]] + t[..20] == s[..21];
  }

  /** A flag starts at `j < 20` in `t`: its replacement breaks any flag at the front. */
  lemma ReplacedEarly(c: char, t: string, rt: string, j: int)
    requires rt == ReplaceAll(t, STATIC_TRUE, STATIC_FALSE)
    requires 0 <= j < 20 && FirstOccurrence(t, STATIC_TRUE, j)
    ensures !OccursAt([c] + rt, STATIC_TRUE, 0)
  {
    var T, F := STATIC_TRUE, STATIC_FALSE;
    ReplaceAllPrefix(t, T, F, j);
    var tail := t[j..];
    assert tail[..21] == t[j..j + 21];
    var rtail := ReplaceAll(tail, T, F);
    assert rtail == F + ReplaceAll(tail[21..], T, F);
    assert rt == t[..j] + rtail;
    var v := [c] + rt;
    assert v[j + 1] == rtail[0] == '<';
    assert v[j + 2] == rtail[1] == 's';
    if |v| >= 21 {
      var w := v[..21];
      if T[j + 1] != '<' {
        assert w[j + 1] != T[j + 1];
      } else {
        OpenAnglesOfStaticTrue(j + 1);
        assert w[13] != T[13];
      }
    }
  }

  // ---------------------------------------------------------------------
  // The controller's state

  /** The delete service's answer to one request. */
  datatype DeleteReply = Deleted | Refused | ServiceFailure

  /** Index of the first request answered by a service failure, or `n` if none is. */
  function FirstFailure(reply: nat -> DeleteReply, n: nat): (r: nat)
    ensures r <= n
    ensures forall i :: 0 <= i < r ==> reply(i) != ServiceFailure
    ensures r < n ==> reply(r) == ServiceFailure
    decreases n
  {
    if n == 0 then 0
    else if FirstFailure(reply, n - 1) < n - 1 then FirstFailure(reply, n - 1)
    else if reply(n - 1) == ServiceFailure then n - 1
    else n
  }

  /**
   * The controller. `spawnedModels` is the registry of names the simulator
   * confirmed; `objectPositions` the placed object positions, target first.
   */
  class Scene {
    var spawnedModels: seq<string>
    var objectPositions: seq<Vec3>

    constructor ()
      ensures spawnedModels == [] && objectPositions == []
    {
      spawnedModels := [];
      objectPositions := [];
    }

    /**
     * `spawn_object`: send the model, made dynamic, to the spawn service and
     * record its name when the service reports success. `success` is the
     * reply; a service exception leaves the registry as a failure does.
     */
    method SpawnObject(modelName: string, modelXml: string, success: bool) returns (sent: string)
      modifies this
      ensures sent == MakeDynamic(modelXml)
      ensures spawnedModels == if success then old(spawnedModels) + [modelName] else old(spawnedModels)
      ensures objectPositions == old(objectPositions)
    {
      sent := MakeDynamic(modelXml);
      if success {
        spawnedModels := spawnedModels + [modelName];
      }
    }

    /**
     * `delete_all_objects`: ask for each registered name to be deleted, in
     * order; `reply(i)` is the answer to the i-th request. A refusal is only
     * logged; a service failure aborts the loop before the registry is
     * cleared. `requested` lists the names sent to the service.
     */
    method DeleteAllObjects(reply: nat -> DeleteReply) returns (requested: seq<string>)
      modifies this
      ensures var n := |old(spawnedModels)|;
              var f := FirstFailure(reply, n);
              && requested == old(spawnedModels)[..if f < n then f + 1 else n]
              && spawnedModels == (if f < n then old(spawnedModels) else [])
      ensures objectPositions == old(objectPositions)
    {
      requested := [];
      var i := 0;
      while i < |spawnedModels|
        invariant spawnedModels == old(spawnedModels) && objectPositions == old(objectPositions)
        invariant i <= |spawnedModels|
        invariant FirstFailure(reply, i) == i
        invariant requested == spawnedModels[..i]
      {
        requested := requested + [spawnedModels[i]];
        if reply(i) == ServiceFailure {
          assert FirstFailure(reply, i + 1) == i;
          FirstFailureStays(reply, i, |spawnedModels|);
          return;
        }
        assert spawnedModels[..i + 1] == spawnedModels[..i] + [spawnedModels[i]];
        i := i + 1;
      }
      assert requested == spawnedModels;
      spawnedModels := [];
    }

    /**
     * The placement part of `random_env_generation`: append the drop
     * position of the target, then up to `NUM_OBSTACLES` obstacles, each
     * found by `find_safe_positions` with its default arguments against all
     * positions so far, stopping at the first search that finds nothing.
     * `draws(n)` is the candidate stream of the n-th search; each obstacle
     * is the first valid draw of its own stream.
     */
    method PlaceObjects(drop: Vec3, draws: nat -> nat -> Vec3)
      modifies this
      ensures |old(objectPositions)| < |objectPositions| <= |old(objectPositions)| + 1 + NUM_OBSTACLES
      ensures objectPositions[..|old(objectPositions)| + 1] == old(objectPositions) + [drop]
      ensures PlacedAfter(objectPositions, |old(objectPositions)|, draws)
      ensures var placed := |objectPositions| - |old(objectPositions)| - 1;
              placed < NUM_OBSTACLES ==>
                forall i :: 0 <= i < DEFAULT_MAX_ATTEMPTS ==>
                  !IsValid(DEFAULT_CONSTRAINTS, objectPositions, draws(placed)(i))
      ensures spawnedModels == old(spawnedModels)
    {
      ghost var start := |objectPositions|;
      objectPositions := objectPositions + [drop];
      var n := 0;
      while n < NUM_OBSTACLES
        invariant n <= NUM_OBSTACLES
        invariant |objectPositions| == start + 1 + n
        invariant objectPositions[..start + 1] == old(objectPositions) + [drop]
        invariant PlacedAfter(objectPositions, start, draws)
        invariant spawnedModels == old(spawnedModels)
      {
        var found, drawn := FindSafePositions(objectPositions, DEFAULT_CONSTRAINTS,
                                              DEFAULT_NUM_POSITIONS, DEFAULT_MAX_ATTEMPTS, draws(n));
        if found == [] {
          return;
        }
        assert ToVec3(found) == draws(n)(drawn - 1);
        assert FirstValidDraw(objectPositions, draws(n), ToVec3(found));
        PlacedAfterAppend(objectPositions, start, draws, ToVec3(found));
        objectPositions := objectPositions + [ToVec3(found)];
        n := n + 1;
      }
    }
  }

  /**
   * `p` is what a search with the default arguments against `objects`
   * returns from the stream `s`: the first of the first
   * `DEFAULT_MAX_ATTEMPTS` draws that is valid.
   */
  predicate FirstValidDraw(objects: seq<Vec3>, s: nat -> Vec3, p: Vec3) {
    && objects != []
    && IsValid(DEFAULT_CONSTRAINTS, objects, p)
    && exists d :: && 0 <= d < DEFAULT_MAX_ATTEMPTS
                   && s(d) == p
                   && forall e :: 0 <= e < d ==> !IsValid(DEFAULT_CONSTRAINTS, objects, s(e))
  }

  /**
   * Every position after index `start` is the first valid draw of its
   * search's stream against all positions before it; the one at index `j`
   * came from search `j - start - 1`.
   */
  predicate PlacedAfter(ps: seq<Vec3>, start: nat, draws: nat -> nat -> Vec3) {
    forall j :: start < j < |ps| ==> FirstValidDraw(ps[..j], draws(j - start - 1), ps[j])
  }

  lemma PlacedAfterAppend(ps: seq<Vec3>, start: nat, draws: nat -> nat -> Vec3, p: Vec3)
    requires start < |ps|
    requires PlacedAfter(ps, start, draws) && FirstValidDraw(ps, draws(|ps| - start - 1), p)
    ensures PlacedAfter(ps + [p], start, draws)
  {
    var qs := ps + [p];
    forall j | start < j < |qs| ensures FirstValidDraw(qs[..j], draws(j - start - 1), qs[j]) {
      if j < |ps| {
        assert qs[..j] == ps[..j] && qs[j] == ps[j];
      } else {
        assert qs[..j] == ps;
      }
    }
  }

  /** Every placed obstacle keeps the distance constraints to all positions before it. */
  lemma PlacedAreAcceptable(ps: seq<Vec3>, start: nat, draws: nat -> nat -> Vec3, j: int)
    requires PlacedAfter(ps, start, draws) && start < j < |ps|
    ensures Acceptable(DEFAULT_CONSTRAINTS, ps[..j], ps[j])
  {
    assert FirstValidDraw(ps[..j], draws(j - start - 1), ps[j]);
    IsValidIffAcceptable(DEFAULT_CONSTRAINTS, ps[..j], ps[j]);
  }

  /** Once a failure is found among the first `i + 1` answers, it stays the first one. */
  lemma {:induction false} FirstFailureStays(reply: nat -> DeleteReply, i: nat, n: nat)
    requires i < n && FirstFailure(reply, i + 1) == i
    ensures FirstFailure(reply, n) == i
    decreases n
  {
    if n > i + 1 {
      FirstFailureStays(reply, i, n - 1);
    }
  }

  /**
   * The worked example of the search: one object at the origin, the cube
   * `[-1, 1]` on every axis, `min_dist = 0.1` and `max_dist = 0.5`. Whatever
   * the search returns lies at distance between 0.1 and 0.5 from the origin.
   */
  lemma ExampleSearchDistance(c: Vec3)
    requires Acceptable(Constraints(Workspace(Interval(-1.0, 1.0), Interval(-1.0, 1.0), Interval(-1.0, 1.0)), 0.1, 0.5),
                        [Vec3(0.0, 0.0, 0.0)], c)
    ensures 0.01 <= Dist2(c, Vec3(0.0, 0.0, 0.0)) <= 0.25
  {
    var objects := [Vec3(0.0, 0.0, 0.0)];
    assert DistAtLeast(Dist2(c, objects[0]), 0.1);
    var i :| 0 <= i < |objects| && DistAtMost(Dist2(c, objects[i]), 0.5);
  }
}
