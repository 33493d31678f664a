/** What SetBone and HitBone promise about the whole arena of bones. */
module BoneProofs {
  import opened Mathf
  import opened RagdollHelper
  import opened BoneTree
  import opened RagdollBone

  // ---------------------------------------------------------------- set-follow

  lemma SetNodeTwice(b: Bone, active: bool)
    ensures SetNode(SetNode(b, active), active) == SetNode(b, active)
  {
  }

  /** Setting S and then T is setting S + T: SetNode is idempotent. */
  lemma ApplySetUnion(bs: seq<Bone>, S: set<nat>, T: set<nat>, active: bool)
    ensures ApplySet(ApplySet(bs, S, active), T, active) == ApplySet(bs, S + T, active)
  {
    var l := ApplySet(ApplySet(bs, S, active), T, active);
    var r := ApplySet(bs, S + T, active);
    forall k | 0 <= k < |bs| ensures l[k] == r[k] {
      SetNodeTwice(bs[k], active);
    }
  }

  /** Setting follow never breaks or mends a bone. */
  lemma ApplySetKeepsBroken(bs: seq<Bone>, S: set<nat>, active: bool)
    ensures BrokenFlags(ApplySet(bs, S, active)) == BrokenFlags(bs)
  {
  }

  /** SetBone(active) on bone i sets exactly the bones its cascade reaches: i and, below it, every
      bone reachable without entering a broken one; all other bones are left as they were. */
  lemma {:induction false} SetTreeIsCascade(kids: seq<seq<nat>>, bs: seq<Bone>, i: nat, active: bool)
    requires Arena(kids, bs) && i < |bs|
    ensures SetTree(kids, bs, i, active) == ApplySet(bs, Cascade(kids, BrokenFlags(bs), i), active)
    decreases |kids| - i, 1
  {
    var stop := BrokenFlags(bs);
    if bs[i].broken {
      assert ApplySet(bs, {}, active) == bs;
    } else {
      var set1 := bs[i := SetNode(bs[i], active)];
      assert set1 == ApplySet(bs, {i}, active);
      ApplySetKeepsBroken(bs, {i}, active);
      SetKidsIsCascade(kids, set1, i, 0, active);
      ApplySetUnion(bs, {i}, CascadeKids(kids, stop, i, 0), active);
    }
  }

  lemma {:induction false} SetKidsIsCascade(kids: seq<seq<nat>>, bs: seq<Bone>, i: nat, j: nat, active: bool)
    requires Arena(kids, bs) && i < |bs| && j <= |kids[i]|
    ensures SetKids(kids, bs, i, j, active) == ApplySet(bs, CascadeKids(kids, BrokenFlags(bs), i, j), active)
    decreases |kids| - i, 0, |kids[i]| - j
  {
    var stop := BrokenFlags(bs);
    if j == |kids[i]| {
      assert ApplySet(bs, {}, active) == bs;
    } else {
      var c := kids[i][j];
      var bs2 := SetTree(kids, bs, c, active);
      SetTreeIsCascade(kids, bs, c, active);
      ApplySetKeepsBroken(bs, Cascade(kids, stop, c), active);
      SetKidsIsCascade(kids, bs2, i, j + 1, active);
      ApplySetUnion(bs, Cascade(kids, stop, c), CascadeKids(kids, stop, i, j + 1), active);
    }
  }

  /** SetBone(active) on bone i: a broken bone changes nothing; otherwise bone i and every bone
      its cascade reaches follow `active`, with the cached damping when active and none when not;
      broken bones and bones the cascade does not reach are unchanged. */
  lemma SetBoneEffect(kids: seq<seq<nat>>, bs: seq<Bone>, i: nat, active: bool)
    requires Arena(kids, bs) && i < |bs|
    ensures var r := SetTree(kids, bs, i, active);
      && (bs[i].broken ==> r == bs)
      && (!bs[i].broken ==> r[i].follow == active)
      && (forall k :: k in Cascade(kids, BrokenFlags(bs), i) ==>
            r[k].follow == active && r[k].damping == (if active then bs[k].cachedDamping else 0.0))
      && (forall k :: 0 <= k < |bs| && k !in Cascade(kids, BrokenFlags(bs), i) ==> r[k] == bs[k])
      && (forall k :: 0 <= k < |bs| && bs[k].broken ==> r[k] == bs[k])
      && BrokenFlags(r) == BrokenFlags(bs)
  {
    SetTreeIsCascade(kids, bs, i, active);
    ApplySetKeepsBroken(bs, Cascade(kids, BrokenFlags(bs), i), active);
  }

  // ---------------------------------------------------------------- hit: what changes where

  /** A hit changes only a bone's damage state: its multipliers, its mass and its joint's
      threshold; it never adds or removes a joint and never touches follow, broken or damping. */
  predicate DamageOnly(before: Bone, after: Bone)
  {
    && after == before.(posMul := after.posMul, rotMul := after.rotMul, vertMul := after.vertMul,
                        mass := after.mass, joint := after.joint)
    && after.joint.Some? == before.joint.Some?
  }

  /** HitBone(h) on bone i: a null bone reference changes nothing; otherwise only damage state
      changes, only bones of the subtree at i are damaged, only the struck bone's mass grows,
      and bone i itself ends up damaged exactly once. */
  lemma HitFrame(kids: seq<seq<nat>>, bs: seq<Bone>, i: nat, h: HitInfo)
    requires Arena(kids, bs) && i < |bs| && Targets(h, |bs|)
    ensures var r := HitTree(kids, bs, i, h);
      && (h.bone.None? ==> r == bs)
      && (forall k :: 0 <= k < |bs| ==> DamageOnly(bs[k], r[k]))
      && (forall k :: 0 <= k < |bs| && k !in Reach(kids, i) ==> r[k] == bs[k].(mass := r[k].mass))
      && (forall k :: 0 <= k < |bs| && h.bone != Some(k) ==> r[k].mass == bs[k].mass)
      && (h.bone.Some? ==> r[i] == Damage(bs[i], h).(mass := r[i].mass))
  {
    var r := HitTree(kids, bs, i, h);
    forall k | 0 <= k < |bs|
      ensures DamageOnly(bs[k], r[k])
      ensures k !in Reach(kids, i) ==> r[k] == bs[k].(mass := r[k].mass)
      ensures h.bone != Some(k) ==> r[k].mass == bs[k].mass
    {
      HitFrameAt(kids, bs, i, h, k);
    }
    if h.bone.Some? {
      HitFrameAt(kids, bs, i, h, i);
    }
  }

  /** HitFrame for one bone k. */
  lemma {:induction false} HitFrameAt(kids: seq<seq<nat>>, bs: seq<Bone>, i: nat, h: HitInfo, k: nat)
    requires Arena(kids, bs) && i < |bs| && Targets(h, |bs|) && k < |bs|
    ensures var r := HitTree(kids, bs, i, h);
      && DamageOnly(bs[k], r[k])
      && (k !in Reach(kids, i) ==> r[k] == bs[k].(mass := r[k].mass))
      && (h.bone != Some(k) ==> r[k].mass == bs[k].mass)
      && (h.bone.Some? && k == i ==> r[i] == Damage(bs[i], h).(mass := r[i].mass))
    decreases |kids| - i, 1
  {
    if h.bone.Some? {
      var bs1 := HitNode(bs, i, h);
      var r := HitKids(kids, bs1, i, 0, Pass(bs[i], h));
      HitKidsFrameAt(kids, bs1, i, 0, Pass(bs[i], h), k);
      DamageOnlyTrans(bs[k], bs1[k], r[k]);
      if k == i {
        var s := h.bone.value;
        DamageIgnoresMass(bs[i], if s == i then BumpedMass(bs[s].mass, h.impulse) else bs[i].mass, h);
      }
    }
  }

  lemma {:induction false} HitKidsFrameAt(kids: seq<seq<nat>>, bs: seq<Bone>, i: nat, j: nat, h: HitInfo, k: nat)
    requires Arena(kids, bs) && i < |bs| && j <= |kids[i]| && Targets(h, |bs|) && k < |bs|
    ensures var r := HitKids(kids, bs, i, j, h);
      && DamageOnly(bs[k], r[k])
      && (k !in CascadeKids(kids, NoStops(|kids|), i, j) ==> r[k] == bs[k].(mass := r[k].mass))
      && (h.bone != Some(k) ==> r[k].mass == bs[k].mass)
    decreases |kids| - i, 0, |kids[i]| - j
  {
    if j < |kids[i]| {
      var c := kids[i][j];
      var bs2 := HitTree(kids, bs, c, h);
      var r := HitKids(kids, bs2, i, j + 1, h);
      HitFrameAt(kids, bs, c, h, k);
      HitKidsFrameAt(kids, bs2, i, j + 1, h, k);
      DamageOnlyTrans(bs[k], bs2[k], r[k]);
    }
  }

  lemma DamageIgnoresMass(b: Bone, m: real, h: HitInfo)
    ensures Damage(b.(mass := m), h) == Damage(b, h).(mass := m)
  {
  }

  lemma DamageOnlyTrans(a: Bone, b: Bone, c: Bone)
    requires DamageOnly(a, b) && DamageOnly(b, c)
    ensures DamageOnly(a, c)
  {
  }

  // ---------------------------------------------------------------- hit: the struck bone's mass

  /** The struck bone's mass after n hops, each adding MassBump(impulse) under the cap of 20. */
  function Bumps(mass: real, impulse: real, n: nat): real
  {
    if n == 0 then mass else BumpedMass(Bumps(mass, impulse, n - 1), impulse)
  }

  lemma {:induction false} BumpsAdd(mass: real, impulse: real, a: nat, b: nat)
    ensures Bumps(Bumps(mass, impulse, a), impulse, b) == Bumps(mass, impulse, a + b)
  {
    if b > 0 {
      BumpsAdd(mass, impulse, a, b - 1);
    }
  }

  /** n >= 1 hops grow the mass by n bumps, capped at 20: min(mass + n * bump, 20). */
  lemma {:induction false} BumpsClosedForm(mass: real, impulse: real, n: nat)
    requires n >= 1
    ensures Bumps(mass, impulse, n) == Min(mass + (n as real) * MassBump(impulse), 20.0)
  {
    if n > 1 {
      BumpsClosedForm(mass, impulse, n - 1);
      CapStep(mass, MassBump(impulse), (n - 1) as real);
    }
  }

  /** One more capped bump of d after m of them is m + 1 capped bumps. */
  lemma CapStep(mass: real, d: real, m: real)
    requires 0.0 <= d
    ensures Min(Min(mass + m * d, 20.0) + d, 20.0) == Min(mass + (m + 1.0) * d, 20.0)
  {
    assert (m + 1.0) * d == m * d + d;
  }

  /** The mass bump lands on the originally struck bone at every bone the hit is handed to,
      including the first: after HitBone on bone i it has received one bump per visit of the
      cascade from i, so its mass is min(mass + visits * bump, 20), never above 20. */
  lemma {:induction false} HitStruckMass(kids: seq<seq<nat>>, bs: seq<Bone>, i: nat, h: HitInfo)
    requires Arena(kids, bs) && i < |bs| && Targets(h, |bs|) && h.bone.Some?
    ensures var s := h.bone.value;
      HitTree(kids, bs, i, h)[s].mass == Bumps(bs[s].mass, h.impulse, Visits(kids, i))
    decreases |kids| - i, 1
  {
    var s := h.bone.value;
    var bs1 := HitNode(bs, i, h);
    assert bs1[s].mass == Bumps(bs[s].mass, h.impulse, 1);
    HitKidsStruckMass(kids, bs1, i, 0, Pass(bs[i], h));
    BumpsAdd(bs[s].mass, h.impulse, 1, VisitsKids(kids, i, 0));
    assert Visits(kids, i) == 1 + VisitsKids(kids, i, 0);
  }


  lemma {:induction false} HitKidsStruckMass(kids: seq<seq<nat>>, bs: seq<Bone>, i: nat, j: nat, h: HitInfo)
    requires Arena(kids, bs) && i < |bs| && j <= |kids[i]| && Targets(h, |bs|) && h.bone.Some?
    ensures var s := h.bone.value;
      HitKids(kids, bs, i, j, h)[s].mass == Bumps(bs[s].mass, h.impulse, VisitsKids(kids, i, j))
    decreases |kids| - i, 0, |kids[i]| - j
  {
    if j < |kids[i]| {
      var s := h.bone.value;
      var c := kids[i][j];
      var bs2 := HitTree(kids, bs, c, h);
      HitStruckMass(kids, bs, c, h);
      HitKidsStruckMass(kids, bs2, i, j + 1, h);
      BumpsAdd(bs[s].mass, h.impulse, Visits(kids, c), VisitsKids(kids, i, j + 1));
    }
  }

  // ---------------------------------------------------------------- hit: bounds and decay

  /** Every bone is Calibrated. */
  predicate AllCalibrated(bs: seq<Bone>)
  {
    forall k :: 0 <= k < |bs| ==> Calibrated(bs[k])
  }

  /** No force multiplier and no joint threshold went up. */
  predicate Weaker(before: Bone, after: Bone)
  {
    && after.posMul <= before.posMul
    && after.rotMul <= before.rotMul
    && after.vertMul <= before.vertMul
    && after.joint.Some? == before.joint.Some?
    && (after.joint.Some? ==> after.joint.value <= before.joint.value)
  }

  /** One hop of damage keeps a bone Calibrated; with a non-negative impulse it weakens it. */
  lemma DamageWeakens(b: Bone, h: HitInfo)
    requires Calibrated(b)
    ensures Calibrated(Damage(b, h))
    ensures h.impulse >= 0.0 ==> Weaker(b, Damage(b, h))
  {
    DamagePosMul(b, h);
    DamageJoint(b, h);
  }

  /** The position multiplier decays, but not below its floor. */
  lemma DamagePosMul(b: Bone, h: HitInfo)
    requires 0.0 <= b.posMulMax && 0.15 * b.posMulMax <= b.posMul
    ensures 0.15 * b.posMulMax <= Damage(b, h).posMul <= b.posMul
  {
    assert Damage(b, h).posMul == Max(Decay(b.posMul, h.impulse), b.posMulMax * 0.15);
  }

  /** A non-negative break threshold is lowered toward zero, never below it. */
  lemma DamageJoint(b: Bone, h: HitInfo)
    requires b.joint.Some? ==> 0.0 <= b.joint.value
    ensures Damage(b, h).joint.Some? ==> 0.0 <= Damage(b, h).joint.value <= b.joint.value
  {
    if b.joint.Some? && !h.inherited {
      var f := ImpulseFactor(h.impulse);
      Shrinks(b.joint.value, 1.0 - f);
      assert Damage(b, h).joint.value == b.joint.value * (1.0 - f);
    }
  }

  /** Scaling a non-negative value by a factor in [0, 1] neither raises it nor makes it
      negative. */
  lemma Shrinks(x: real, k: real)
    requires 0.0 <= x && 0.0 <= k <= 1.0
    ensures 0.0 <= x * k <= x
  {
    assert x * (1.0 - k) >= 0.0;
  }

  lemma HitNodeCalibrated(bs: seq<Bone>, i: nat, h: HitInfo)
    requires i < |bs| && h.bone.Some? && h.bone.value < |bs| && AllCalibrated(bs)
    ensures AllCalibrated(HitNode(bs, i, h))
    ensures h.impulse >= 0.0 ==> forall k :: 0 <= k < |bs| ==> Weaker(bs[k], HitNode(bs, i, h)[k])
  {
    var s := h.bone.value;
    var bumped := bs[s := bs[s].(mass := BumpedMass(bs[s].mass, h.impulse))];
    assert AllCalibrated(bumped);
    DamageWeakens(bumped[i], h);
  }

  /** Under any number of hits a Calibrated skeleton stays Calibrated: the position multiplier
      stays at or above 0.15 of its maximum, the vertical multiplier at or above 0.3, the torque
      multiplier positive, and masses at most 20. */
  lemma {:induction false} HitCalibrated(kids: seq<seq<nat>>, bs: seq<Bone>, i: nat, h: HitInfo)
    requires Arena(kids, bs) && i < |bs| && Targets(h, |bs|) && AllCalibrated(bs)
    ensures AllCalibrated(HitTree(kids, bs, i, h))
    decreases |kids| - i, 1
  {
    if h.bone.Some? {
      HitNodeCalibrated(bs, i, h);
      HitKidsCalibrated(kids, HitNode(bs, i, h), i, 0, Pass(bs[i], h));
    }
  }

  lemma {:induction false} HitKidsCalibrated(kids: seq<seq<nat>>, bs: seq<Bone>, i: nat, j: nat, h: HitInfo)
    requires Arena(kids, bs) && i < |bs| && j <= |kids[i]| && Targets(h, |bs|) && AllCalibrated(bs)
    ensures AllCalibrated(HitKids(kids, bs, i, j, h))
    decreases |kids| - i, 0, |kids[i]| - j
  {
    if j < |kids[i]| {
      HitCalibrated(kids, bs, kids[i][j], h);
      HitKidsCalibrated(kids, HitTree(kids, bs, kids[i][j], h), i, j + 1, h);
    }
  }

  /** On a Calibrated skeleton, a hit with a non-negative impulse never raises any bone's force
      multipliers or joint threshold. */
  lemma {:induction false} HitWeakensAt(kids: seq<seq<nat>>, bs: seq<Bone>, i: nat, h: HitInfo, k: nat)
    requires Arena(kids, bs) && i < |bs| && Targets(h, |bs|) && AllCalibrated(bs) && k < |bs|
    requires h.impulse >= 0.0
    ensures Weaker(bs[k], HitTree(kids, bs, i, h)[k])
    decreases |kids| - i, 1
  {
    if h.bone.Some? {
      var bs1 := HitNode(bs, i, h);
      HitNodeCalibrated(bs, i, h);
      HitKidsWeakensAt(kids, bs1, i, 0, Pass(bs[i], h), k);
    }
  }

  lemma {:induction false} HitKidsWeakensAt(kids: seq<seq<nat>>, bs: seq<Bone>, i: nat, j: nat, h: HitInfo, k: nat)
    requires Arena(kids, bs) && i < |bs| && j <= |kids[i]| && Targets(h, |bs|) && AllCalibrated(bs) && k < |bs|
    requires h.impulse >= 0.0
    ensures Weaker(bs[k], HitKids(kids, bs, i, j, h)[k])
    decreases |kids| - i, 0, |kids[i]| - j
  {
    if j < |kids[i]| {
      var c := kids[i][j];
      HitWeakensAt(kids, bs, c, h, k);
      HitCalibrated(kids, bs, c, h);
      HitKidsWeakensAt(kids, HitTree(kids, bs, c, h), i, j + 1, h, k);
    }
  }

  /** The floors that a hit puts under a bone's position multipliers. */
  predicate Floored(b: Bone)
  {
    b.posMul >= 0.15 * b.posMulMax && b.vertMul >= 0.3
  }

  /** Whatever the starting values, after HitBone on bone i every bone of its subtree has
      posMul >= 0.15 * posMulMax and vertMul >= 0.3, and no bone loses those floors. */
  lemma {:induction false} HitFloorsAt(kids: seq<seq<nat>>, bs: seq<Bone>, i: nat, h: HitInfo, k: nat)
    requires Arena(kids, bs) && i < |bs| && Targets(h, |bs|) && k < |bs| && h.bone.Some?
    ensures var r := HitTree(kids, bs, i, h);
      (k in Reach(kids, i) || Floored(bs[k])) ==> Floored(r[k])
    decreases |kids| - i, 1
  {
    var bs1 := HitNode(bs, i, h);
    HitKidsFloorsAt(kids, bs1, i, 0, Pass(bs[i], h), k);
  }

  lemma {:induction false} HitKidsFloorsAt(kids: seq<seq<nat>>, bs: seq<Bone>, i: nat, j: nat, h: HitInfo, k: nat)
    requires Arena(kids, bs) && i < |bs| && j <= |kids[i]| && Targets(h, |bs|) && k < |bs| && h.bone.Some?
    ensures var r := HitKids(kids, bs, i, j, h);
      (k in CascadeKids(kids, NoStops(|kids|), i, j) || Floored(bs[k])) ==> Floored(r[k])
    decreases |kids| - i, 0, |kids[i]| - j
  {
    if j < |kids[i]| {
      var c := kids[i][j];
      HitFloorsAt(kids, bs, c, h, k);
      HitKidsFloorsAt(kids, HitTree(kids, bs, c, h), i, j + 1, h, k);
    }
  }

  // ---------------------------------------------------------------- hit: the joint guard

  /** A record that is already inherited weakens no joint anywhere below. */
  lemma {:induction false} InheritedKeepsJoints(kids: seq<seq<nat>>, bs: seq<Bone>, i: nat, h: HitInfo, k: nat)
    requires Arena(kids, bs) && i < |bs| && Targets(h, |bs|) && k < |bs| && h.inherited
    ensures HitTree(kids, bs, i, h)[k].joint == bs[k].joint
    decreases |kids| - i, 1
  {
    if h.bone.Some? {
      InheritedKeepsJointsKids(kids, HitNode(bs, i, h), i, 0, Pass(bs[i], h), k);
    }
  }

  lemma {:induction false} InheritedKeepsJointsKids(kids: seq<seq<nat>>, bs: seq<Bone>, i: nat, j: nat, h: HitInfo, k: nat)
    requires Arena(kids, bs) && i < |bs| && j <= |kids[i]| && Targets(h, |bs|) && k < |bs| && h.inherited
    ensures HitKids(kids, bs, i, j, h)[k].joint == bs[k].joint
    decreases |kids| - i, 0, |kids[i]| - j
  {
    if j < |kids[i]| {
      var c := kids[i][j];
      InheritedKeepsJoints(kids, bs, c, h, k);
      InheritedKeepsJointsKids(kids, HitTree(kids, bs, c, h), i, j + 1, h, k);
    }
  }

  /** A fresh hit entering a bone with a joint weakens that joint, to
      breakForce * (1 - impulseFactor), and no other joint: the bones below receive an
      inherited copy of the record. */
  lemma JointWeakenedOnce(kids: seq<seq<nat>>, bs: seq<Bone>, i: nat, h: HitInfo)
    requires Arena(kids, bs) && i < |bs| && Targets(h, |bs|)
    requires h.bone.Some? && !h.inherited && bs[i].joint.Some?
    ensures var r := HitTree(kids, bs, i, h);
      && r[i].joint == Some(bs[i].joint.value * (1.0 - ImpulseFactor(h.impulse)))
      && (forall k :: 0 <= k < |bs| && k != i ==> r[k].joint == bs[k].joint)
  {
    var bs1 := HitNode(bs, i, h);
    var passed := Pass(bs[i], h);
    forall k | 0 <= k < |bs|
      ensures HitTree(kids, bs, i, h)[k].joint == bs1[k].joint
    {
      InheritedKeepsJointsKids(kids, bs1, i, 0, passed, k);
    }
    var s := h.bone.value;
    var bumped := bs[s := bs[s].(mass := BumpedMass(bs[s].mass, h.impulse))];
    DamageIgnoresMass(bs[i], bumped[i].mass, h);
    assert bumped[i] == bs[i].(mass := bumped[i].mass);
    var weakened := bs[i].joint.value * (1.0 - ImpulseFactor(h.impulse));
    assert Damage(bs[i], h).joint.Some? && Damage(bs[i], h).joint.value == weakened;
    assert bs1[i].joint == Damage(bs[i], h).joint == Some(weakened);
    assert HitTree(kids, bs, i, h)[i].joint == Some(weakened);
    assert forall k :: 0 <= k < |bs| && k != i ==> bs1[k].joint == bs[k].joint;
  }

  /** The joints weakened, one hop after another, by a hit travelling down a path of bones
      (given top-down, starting with the bone the record enters with h). */
  function Weakenings(path: seq<Bone>, h: HitInfo): nat
  {
    if path == [] then 0
    else (if path[0].joint.Some? && !h.inherited then 1 else 0) + Weakenings(path[1..], Pass(path[0], h))
  }

  /** The one-hop guard: along any root-to-leaf path a hit weakens at most one joint, and none
      when its record arrives inherited. */
  lemma {:induction false} AtMostOneWeakening(path: seq<Bone>, h: HitInfo)
    ensures Weakenings(path, h) <= if h.inherited then 0 else 1
  {
    if path != [] {
      AtMostOneWeakening(path[1..], Pass(path[0], h));
    }
  }

  // ---------------------------------------------------------------- broken bones stay limp

  /** Every broken bone has stopped following, so FixedUpdate no longer corrects it. */
  predicate BrokenLimp(bs: seq<Bone>)
  {
    forall k :: 0 <= k < |bs| && bs[k].broken ==> !Corrects(bs[k])
  }

  /** Once a bone is broken and limp it stays so through every set-follow cascade: SetBone never
      reaches a broken bone. */
  lemma SetKeepsBrokenLimp(kids: seq<seq<nat>>, bs: seq<Bone>, i: nat, active: bool)
    requires Arena(kids, bs) && i < |bs| && BrokenLimp(bs)
    ensures BrokenLimp(SetTree(kids, bs, i, active))
  {
    SetBoneEffect(kids, bs, i, active);
  }

  /** ... and through every hit, which never touches follow or broken. */
  lemma HitKeepsBrokenLimp(kids: seq<seq<nat>>, bs: seq<Bone>, i: nat, h: HitInfo)
    requires Arena(kids, bs) && i < |bs| && Targets(h, |bs|) && BrokenLimp(bs)
    ensures BrokenLimp(HitTree(kids, bs, i, h))
    ensures BrokenFlags(HitTree(kids, bs, i, h)) == BrokenFlags(bs)
  {
    HitFrame(kids, bs, i, h);
  }

  /** SetBone(false) on an unbroken bone followed by marking it broken leaves it broken and limp,
      and keeps every other broken bone limp. */
  lemma BreakMakesLimp(kids: seq<seq<nat>>, bs: seq<Bone>, i: nat)
    requires Arena(kids, bs) && i < |bs| && BrokenLimp(bs)
    ensures var r := SetTree(kids, bs, i, false);
      var broke := r[i := r[i].(broken := true)];
      BrokenLimp(broke) && broke[i].broken && !broke[i].follow
  {
    SetBoneEffect(kids, bs, i, false);
  }
}
