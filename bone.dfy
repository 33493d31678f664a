/** The per-bone controller (Assets/Scripts/Ragdoll/RagdollBone.cs): the state each bone keeps,
    what a set-follow and a hit do to one bone, the depth-first cascades of both over the
    control tree, and the Skeleton that holds every bone of a character and runs them in place. */
module RagdollBone {
  import opened Mathf
  import opened RagdollHelper
  import opened BoneTree
  import opened Transforms


  /** The state of one bone controller and of the rigid body and joint it owns. */
  datatype Bone = Bone(
    follow: bool,          // driven toward the animated pose (IsActive)
    broken: bool,          // IsBroken: terminal once set
    vital: bool,           // breaking it kills the character
    leg: bool,             // the bone is a LegBone: breaking it makes the character crawl
    blood: bool,           // a blood prefab was handed over by SetBoneParams
    damping: real,         // the body's current linear damping
    cachedDamping: real,   // the linear damping read at Awake
    posMul: real,          // _positionForceMultiplier
    posMulMax: real,       // positionForceMultiplierMax
    rotMul: real,          // _rotationTorqueMultiplier
    vertMul: real,         // positionForceVerticalMultiplier
    mass: real,            // the body's mass
    joint: Option<real>)   // breakForce of the bone's CharacterJoint, None without one

  /** The serialized settings and scene values a bone starts from. */
  datatype BoneConfig = BoneConfig(
    follow: bool,
    vital: bool,
    leg: bool,
    damping: real,
    posMulMax: real,
    rotMulMax: real,
    vertMul: real,
    mass: real,
    joint: Option<real>)

  /** A bone in a state that repeated damage keeps it in: multipliers between their floors and
      their maxima, positive torque multiplier and mass, mass at most the 20 cap, and a
      non-negative joint threshold. */
  predicate Calibrated(b: Bone)
  {
    && 0.0 <= b.posMulMax
    && 0.15 * b.posMulMax <= b.posMul <= b.posMulMax
    && 0.0 < b.rotMul
    && 0.3 <= b.vertMul
    && 0.0 < b.mass <= 20.0
    && (b.joint.Some? ==> 0.0 <= b.joint.value)
  }

  /** Settings from which a freshly awoken bone is Calibrated. */
  predicate SaneConfig(c: BoneConfig)
  {
    && 0.0 <= c.posMulMax && 0.0 < c.rotMulMax && 0.3 <= c.vertMul
    && 0.0 < c.mass <= 20.0 && (c.joint.Some? ==> 0.0 <= c.joint.value)
  }

  /** Awake: the damping is cached and the force and torque multipliers start at their maxima. */
  function Awake(c: BoneConfig): (b: Bone)
    ensures b.posMul == b.posMulMax == c.posMulMax && b.rotMul == c.rotMulMax
    ensures b.damping == b.cachedDamping == c.damping
    ensures !b.broken && !b.blood && b.follow == c.follow
    ensures SaneConfig(c) ==> Calibrated(b)
  {
    Bone(c.follow, false, c.vital, c.leg, false, c.damping, c.damping,
         c.posMulMax, c.posMulMax, c.rotMulMax, c.vertMul, c.mass, c.joint)
  }

  /** FixedUpdate applies the corrective force and torque exactly when the bone follows. */
  predicate Corrects(b: Bone)
  {
    b.follow
  }

  /** The arena is consistent: a well-formed control tree with one state per bone. */
  predicate Arena(kids: seq<seq<nat>>, bs: seq<Bone>)
  {
    WellFormed(kids) && |bs| == |kids|
  }

  /** The broken flags of all bones: what stops a set-follow cascade. */
  function BrokenFlags(bs: seq<Bone>): (r: seq<bool>)
    ensures |r| == |bs| && forall k :: 0 <= k < |bs| ==> r[k] == bs[k].broken
  {
    seq(|bs|, k requires 0 <= k < |bs| => bs[k].broken)
  }

  // ---------------------------------------------------------------- set-follow

  /** SetBone's effect on one unbroken bone: follow the request, and restore the cached damping
      when activated or drop it to zero so the body falls freely. */
  function SetNode(b: Bone, active: bool): (r: Bone)
    ensures r.follow == active
    ensures r.damping == (if active then b.cachedDamping else 0.0)
    ensures r == b.(follow := r.follow, damping := r.damping)
  {
    b.(follow := active, damping := if active then b.cachedDamping else 0.0)
  }

  /** SetBone(active) on bone i: nothing on a broken bone; otherwise set it, then raise the
      set event to each child in turn. */
  function SetTree(kids: seq<seq<nat>>, bs: seq<Bone>, i: nat, active: bool): (r: seq<Bone>)
    requires Arena(kids, bs) && i < |bs|
    ensures |r| == |bs|
    ensures bs[i].broken ==> r == bs
    ensures forall k :: 0 <= k < |r| ==> r[k].broken == bs[k].broken
    decreases |kids| - i, 1
  {
    if bs[i].broken then bs
    else SetKids(kids, bs[i := SetNode(bs[i], active)], i, 0, active)
  }

  /** The set event delivered to kids[i][j..], in order. */
  function SetKids(kids: seq<seq<nat>>, bs: seq<Bone>, i: nat, j: nat, active: bool): (r: seq<Bone>)
    requires Arena(kids, bs) && i < |bs| && j <= |kids[i]|
    ensures |r| == |bs|
    ensures forall k :: 0 <= k < |r| ==> r[k].broken == bs[k].broken
    decreases |kids| - i, 0, |kids[i]| - j
  {
    if j == |kids[i]| then bs
    else SetKids(kids, SetTree(kids, bs, kids[i][j], active), i, j + 1, active)
  }

  /** SetNode applied to exactly the bones in S: the reference definition of a cascade. */
  function ApplySet(bs: seq<Bone>, S: set<nat>, active: bool): (r: seq<Bone>)
    ensures |r| == |bs|
    ensures forall k :: 0 <= k < |bs| ==> r[k] == if k in S then SetNode(bs[k], active) else bs[k]
  {
    seq(|bs|, k requires 0 <= k < |bs| => if k in S then SetNode(bs[k], active) else bs[k])
  }

  // ---------------------------------------------------------------- hit

  /** impulseFactor = Clamp(impulse / 100, 0.1, 1). */
  function ImpulseFactor(impulse: real): (f: real)
    ensures 0.1 <= f <= 1.0
    ensures 10.0 <= impulse <= 100.0 ==> f == impulse / 100.0
  {
    Clamp(impulse / 100.0, 0.1, 1.0)
  }

  /** The factor both force multipliers are scaled by: 0.85 + impulseFactor * 0.15. */
  function DecayFactor(impulse: real): (k: real)
    ensures 0.865 <= k <= 1.0
  {
    0.85 + ImpulseFactor(impulse) * 0.15
  }

  /** What one hit adds to the struck bone's mass: Clamp(impulse * 0.005, 0.5, 5). */
  function MassBump(impulse: real): (d: real)
    ensures 0.5 <= d <= 5.0
    ensures 100.0 <= impulse <= 1000.0 ==> d == impulse * 0.005
  {
    Clamp(impulse * 0.005, 0.5, 5.0)
  }

  /** The struck body's mass after one hop of a hit: grown by the bump and capped at 20. */
  function BumpedMass(mass: real, impulse: real): (m: real)
    ensures m <= 20.0 && m <= mass + MassBump(impulse)
    ensures m == 20.0 || m == mass + MassBump(impulse)
  {
    Min(mass + MassBump(impulse), 20.0)
  }

  /** A force multiplier after one hit: scaled by the decay factor, so it keeps at least 0.865 of
      its value and never grows. */
  function Decay(x: real, impulse: real): (y: real)
    ensures 0.0 <= x ==> 0.865 * x <= y <= x
  {
    DecayBounds(x, DecayFactor(impulse));
    x * DecayFactor(impulse)
  }

  /** What a hit does to the bone handling it: both force multipliers decay by the impact's
      severity, each position multiplier down to its floor; the joint, when the record is not
      yet inherited, has its break threshold interpolated toward zero by impulseFactor. */
  function Damage(b: Bone, h: HitInfo): (r: Bone)
    ensures r.posMul >= 0.15 * b.posMulMax && r.vertMul >= 0.3
    ensures 0.0 <= b.rotMul ==> 0.865 * b.rotMul <= r.rotMul <= b.rotMul
    ensures r.joint.Some? == b.joint.Some?
    ensures r.joint != b.joint ==> b.joint.Some? && !h.inherited
    ensures b.joint.Some? && !h.inherited ==>
              r.joint.value == b.joint.value * (1.0 - ImpulseFactor(h.impulse))
    ensures r == b.(posMul := r.posMul, rotMul := r.rotMul, vertMul := r.vertMul, joint := r.joint)
  {
    LerpToZero(if b.joint.Some? then b.joint.value else 0.0, ImpulseFactor(h.impulse));
    b.(posMul := Max(Decay(b.posMul, h.impulse), b.posMulMax * 0.15),
       rotMul := Decay(b.rotMul, h.impulse),
       vertMul := Max(b.vertMul - h.impulse * 0.01, 0.3),
       joint := if b.joint.Some? && !h.inherited
                then Some(Lerp(b.joint.value, 0.0, ImpulseFactor(h.impulse)))
                else b.joint)
  }

  /** Scaling a non-negative value by a decay factor in [0.865, 1] keeps it between 0.865 of
      itself and itself. */
  lemma DecayBounds(x: real, k: real)
    requires 0.865 <= k <= 1.0
    ensures 0.0 <= x ==> 0.865 * x <= x * k <= x
  {
    if 0.0 <= x {
      assert x * (k - 0.865) >= 0.0;
      assert x * (1.0 - k) >= 0.0;
    }
  }

  /** Interpolating from a toward zero by t in [0, 1] scales a by 1 - t. */
  lemma LerpToZero(a: real, t: real)
    requires 0.0 <= t <= 1.0
    ensures Lerp(a, 0.0, t) == a * (1.0 - t)
  {
    assert a + (0.0 - a) * t == a * (1.0 - t);
  }

  /** The copy of the record that a bone hands to its children: marked inherited when the bone
      weakened its own joint, otherwise passed on unchanged. */
  function Pass(b: Bone, h: HitInfo): (r: HitInfo)
    ensures r.bone == h.bone && r.impulse == h.impulse
    ensures r.point == h.point && r.direction == h.direction
    ensures r.inherited <==> h.inherited || b.joint.Some?
  {
    if b.joint.Some? && !h.inherited then h.(inherited := true) else h
  }

  /** One hop of HitBone at bone i: the originally struck bone's mass grows, then bone i is
      damaged. */
  function HitNode(bs: seq<Bone>, i: nat, h: HitInfo): (r: seq<Bone>)
    requires i < |bs| && h.bone.Some? && h.bone.value < |bs|
    ensures |r| == |bs|
    ensures forall k :: 0 <= k < |r| && k != i && k != h.bone.value ==> r[k] == bs[k]
    ensures forall k :: 0 <= k < |r| ==> r[k].follow == bs[k].follow && r[k].broken == bs[k].broken
  {
    var s := h.bone.value;
    var bumped := bs[s := bs[s].(mass := BumpedMass(bs[s].mass, h.impulse))];
    bumped[i := Damage(bumped[i], h)]
  }

  /** HitBone(h) on bone i: nothing for a null bone reference; otherwise one hop at i, then the
      hit event with i's copy of the record to each child in turn. */
  function HitTree(kids: seq<seq<nat>>, bs: seq<Bone>, i: nat, h: HitInfo): (r: seq<Bone>)
    requires Arena(kids, bs) && i < |bs| && Targets(h, |bs|)
    ensures |r| == |bs|
    ensures h.bone.None? ==> r == bs
    ensures forall k :: 0 <= k < |r| ==> r[k].follow == bs[k].follow && r[k].broken == bs[k].broken
    decreases |kids| - i, 1
  {
    if h.bone.None? then bs
    else HitKids(kids, HitNode(bs, i, h), i, 0, Pass(bs[i], h))
  }

  /** The hit event, with the same record, delivered to kids[i][j..] in order. */
  function HitKids(kids: seq<seq<nat>>, bs: seq<Bone>, i: nat, j: nat, h: HitInfo): (r: seq<Bone>)
    requires Arena(kids, bs) && i < |bs| && j <= |kids[i]| && Targets(h, |bs|)
    ensures |r| == |bs|
    ensures forall k :: 0 <= k < |r| ==> r[k].follow == bs[k].follow && r[k].broken == bs[k].broken
    decreases |kids| - i, 0, |kids[i]| - j
  {
    if j == |kids[i]| then bs
    else HitKids(kids, HitTree(kids, bs, kids[i][j], h), i, j + 1, h)
  }

  /** The record OnCollisionEnter synthesises on bone self: the bone itself, the collision's
      impulse magnitude and first contact, and the default inherited = false. */
  function CollisionHit(self: nat, impulse: real, point: Vec3, normal: Vec3): (h: HitInfo)
    requires impulse >= 0.0
    ensures h.bone == Some(self) && h.impulse >= 0.0 && !h.inherited
  {
    HitInfo(Some(self), impulse, point, normal, false)
  }

  /** OnCollisionEnter reacts only to a hard impact (impulse above 10) from something outside
      the Ragdoll layer. */
  predicate CollisionHits(impulse: real, otherIsRagdoll: bool)
  {
    impulse > 10.0 && !otherIsRagdoll
  }

  // ---------------------------------------------------------------- the bones of a character

  /** Every bone of one character. The control tree is fixed when the bones awake; their state
      changes in place. */
  class Skeleton {
    const kids: seq<seq<nat>>
    var bones: seq<Bone>

    ghost predicate Valid()
      reads this
    {
      Arena(kids, bones)
    }

    /** Every bone awakes: it caches its damping, starts its multipliers at their maxima and
        collects, with InitializeChildren, the bones whose handlers it will invoke. */
    constructor (H: Hierarchy, place: seq<nat>, configs: seq<BoneConfig>)
      requires Layout(H, place) && |configs| == |place|
      ensures Valid()
      ensures kids == Topology(H, place)
      ensures |bones| == |configs| && forall b :: 0 <= b < |configs| ==> bones[b] == Awake(configs[b])
    {
      var collected: seq<seq<nat>> := [];
      var b := 0;
      while b < |place|
        invariant b <= |place|
        invariant collected == Topology(H, place)[..b]
      {
        var children := InitializeChildren(H, place[b]);
        collected := collected + [children];
        b := b + 1;
      }
      TopologyWellFormed(H, place);
      kids := collected;
      bones := seq(|configs|, b requires 0 <= b < |configs| => Awake(configs[b]));
    }

    /** SetBone(isActive). */
    method SetBone(i: nat, active: bool)
      requires Valid() && i < |bones|
      modifies this
      ensures Valid()
      ensures bones == SetTree(kids, old(bones), i, active)
      decreases |kids| - i
    {
      if bones[i].broken {
        return;
      }
      bones := bones[i := SetNode(bones[i], active)];
      ghost var start := bones;
      var j := 0;
      while j < |kids[i]|
        invariant j <= |kids[i]| && Valid()
        invariant SetKids(kids, bones, i, j, active) == SetKids(kids, start, i, 0, active)
      {
        SetBone(kids[i][j], active);
        j := j + 1;
      }
    }

    /** HitBone(hitInfo). */
    method HitBone(i: nat, h: HitInfo)
      requires Valid() && i < |bones| && Targets(h, |bones|)
      modifies this
      ensures Valid()
      ensures bones == HitTree(kids, old(bones), i, h)
      decreases |kids| - i
    {
      if h.bone.None? {
        return;
      }
      var s := h.bone.value;
      bones := bones[s := bones[s].(mass := BumpedMass(bones[s].mass, h.impulse))];
      var passed := Pass(bones[i], h);
      bones := bones[i := Damage(bones[i], h)];
      ghost var start := bones;
      var j := 0;
      while j < |kids[i]|
        invariant j <= |kids[i]| && Valid()
        invariant HitKids(kids, bones, i, j, passed) == HitKids(kids, start, i, 0, passed)
      {
        HitBone(kids[i][j], passed);
        j := j + 1;
      }
    }

    /** OnCollisionEnter: a hard impact from outside the ragdoll hits this bone. */
    method OnCollisionEnter(i: nat, impulse: real, otherIsRagdoll: bool, point: Vec3, normal: Vec3)
      requires Valid() && i < |bones| && impulse >= 0.0
      modifies this
      ensures Valid()
      ensures bones == if CollisionHits(impulse, otherIsRagdoll)
                       then HitTree(kids, old(bones), i, CollisionHit(i, impulse, point, normal))
                       else old(bones)
    {
      if impulse > 10.0 && !otherIsRagdoll {
        HitBone(i, CollisionHit(i, impulse, point, normal));
      }
    }

    /** SetBoneParams: hand the bone the blood prefab (or none). */
    method SetBoneParams(i: nat, blood: bool)
      requires Valid() && i < |bones|
      modifies this
      ensures Valid()
      ensures bones == old(bones)[i := old(bones)[i].(blood := blood)]
    {
      bones := bones[i := bones[i].(blood := blood)];
    }

    /** The engine's removal of a bone's CharacterJoint once the joint has broken: from then on
        GetComponent finds no joint on the bone. */
    method RemoveJoint(i: nat)
      requires Valid() && i < |bones|
      modifies this
      ensures Valid()
      ensures bones == old(bones)[i := old(bones)[i].(joint := None)]
    {
      bones := bones[i := bones[i].(joint := None)];
    }

    /** The IsBroken setter, as OnJointBreak uses it. */
    method SetBroken(i: nat)
      requires Valid() && i < |bones|
      modifies this
      ensures Valid()
      ensures bones == old(bones)[i := old(bones)[i].(broken := true)]
    {
      bones := bones[i := bones[i].(broken := true)];
    }
  }
}
