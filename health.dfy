/** The character health controller (Assets/Scripts/Ragdoll/RagdollHealth.cs): it chooses the
    pelvis, hands every bone the blood prefab, and reacts to broken bones. */
module RagdollHealth {
  import opened RagdollHelper
  import opened BoneTree
  import opened Transforms
  import opened RagdollBone
  import BoneProofs

  /** What breaking a bone does to the character. */
  datatype BreakReaction = Die | Crawl | Ignore

  /** HandleBoneBreak's routing: a vital bone is lethal, whatever else it is; otherwise a leg
      bone starts the crawl; any other bone changes nothing. */
  function Reaction(b: Bone): (r: BreakReaction)
    ensures r == Die <==> b.vital
    ensures r == Crawl <==> !b.vital && b.leg
    ensures r == Ignore <==> !b.vital && !b.leg
  {
    if b.vital then Die else if b.leg then Crawl else Ignore
  }

  /** The pelvis of a character with n bones: the first bone discovered, none without bones. */
  function PelvisOf(n: nat): (p: Option<nat>)
    ensures p.Some? <==> n > 0
    ensures p.Some? ==> p.value == 0
  {
    if n > 0 then Some(0) else None
  }

  /** The pelvis is the bone the depth-first search from the character's root finds first:
      bone 0 sits on the first bone-carrying transform of the root's pre-order. */
  lemma PelvisIsFirst(H: Hierarchy, place: seq<nat>)
    requires Layout(H, place) && |place| > 0
    ensures FirstCarrier(H, Preorder(H.kids, 0)) == Some(place[0])
    ensures PelvisOf(|place|) == H.bone[place[0]]
  {
    var P := Preorder(H.kids, 0);
    var r := FirstCarrier(H, P);
    assert H.bone[P[place[0]]].Some?;
    var p :| 0 <= p < |P| && P[p] == r.value && H.bone[P[p]].Some? &&
             forall q :: 0 <= q < p ==> H.bone[P[q]].None?;
    assert p <= place[0];
    var b := H.bone[p].value;
    assert place[b] == p;
  }

  class Health {
    const skeleton: Skeleton
    const bloodPrefab: bool   // a blood particle prefab is configured
    var pelvis: Option<nat>
    var isDead: bool

    ghost predicate Valid()
      reads this, skeleton
    {
      skeleton.Valid() && pelvis == PelvisOf(|skeleton.bones|)
    }

    /** Awake: subscribe to every bone of the character. */
    constructor (skeleton: Skeleton, bloodPrefab: bool)
      requires skeleton.Valid()
      modifies skeleton
      ensures Valid() && !isDead
      ensures this.skeleton == skeleton && this.bloodPrefab == bloodPrefab
      ensures |skeleton.bones| == |old(skeleton.bones)|
      ensures forall k :: 0 <= k < |skeleton.bones| ==>
                skeleton.bones[k] == old(skeleton.bones)[k].(blood := bloodPrefab)
    {
      this.skeleton := skeleton;
      this.bloodPrefab := bloodPrefab;
      pelvis := None;
      isDead := false;
      new;
      SubscribeToAllBones();
    }

    /** SubscribeToAllBones: the pelvis is the first bone, or none; every bone is handed the
        blood prefab. (The event subscriptions themselves are the calls Character makes.) */
    method SubscribeToAllBones()
      requires skeleton.Valid()
      modifies this`pelvis, skeleton
      ensures Valid()
      ensures |skeleton.bones| == |old(skeleton.bones)|
      ensures forall k :: 0 <= k < |skeleton.bones| ==>
                skeleton.bones[k] == old(skeleton.bones)[k].(blood := bloodPrefab)
    {
      var n := |skeleton.bones|;
      pelvis := if n > 0 then Some(0) else None;
      var j := 0;
      while j < n
        invariant j <= n && skeleton.Valid() && |skeleton.bones| == n
        invariant pelvis == PelvisOf(n)
        invariant forall k :: 0 <= k < n ==>
                    skeleton.bones[k] == if k < j then old(skeleton.bones)[k].(blood := bloodPrefab)
                                         else old(skeleton.bones)[k]
      {
        skeleton.SetBoneParams(j, bloodPrefab);
        j := j + 1;
      }
    }

    /** HandleBoneBreak(bone): a vital bone sends the pelvis (and so, through its cascade, the
        character) limp and kills the character, even when the pelvis is already broken and the
        set does nothing; a non-vital leg bone raises OnEnterCrawl, on every such break; any
        other bone changes nothing. IsDead is only ever set to true. */
    method HandleBoneBreak(b: nat) returns (enterCrawl: bool)
      requires Valid() && b < |skeleton.bones|
      modifies this`isDead, skeleton
      ensures Valid()
      ensures enterCrawl <==> Reaction(old(skeleton.bones)[b]) == Crawl
      ensures isDead == (old(isDead) || Reaction(old(skeleton.bones)[b]) == Die)
      ensures skeleton.bones == if Reaction(old(skeleton.bones)[b]) == Die
                                then SetTree(skeleton.kids, old(skeleton.bones), 0, false)
                                else old(skeleton.bones)
      ensures Reaction(old(skeleton.bones)[b]) == Die && !old(skeleton.bones)[0].broken ==>
                !skeleton.bones[0].follow
    {
      if skeleton.bones[b].vital {
        skeleton.SetBone(pelvis.value, false);
        isDead := true;
        enterCrawl := false;
        BoneProofs.SetBoneEffect(skeleton.kids, old(skeleton.bones), 0, false);
      } else if skeleton.bones[b].leg {
        enterCrawl := true;
      } else {
        enterCrawl := false;
      }
    }

    /** HandleBoneHit: spawns a decal at the hit point, an engine effect; no bone or health
        state changes. */
    method HandleBoneHit(h: HitInfo)
      requires Valid()
      ensures unchanged(this, skeleton)
    {
    }
  }
}
