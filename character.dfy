/** One ragdoll character: its bones, its health controller and its locomotion controller, and
    the event wiring between them (a bone's break event reaches the health controller, whose
    enter-crawl event reaches the locomotion controller). The physics engine's callbacks and the
    frame ticks are the entry points. */
module Character {
  import opened RagdollHelper
  import opened Transforms
  import opened RagdollBone
  import opened RagdollHealth
  import opened RagdollMovement
  import BoneProofs

  class Ragdoll {
    const skeleton: Skeleton
    const health: Health
    const movement: Movement

    /** The wiring, plus what holds in every reachable state: broken bones are limp, and a
        crawling character has bones. */
    ghost predicate Valid()
      reads this, skeleton, health, movement
    {
      && health.skeleton == skeleton && movement.health == health
      && movement.Valid()
      && BoneProofs.BrokenLimp(skeleton.bones)
      && (movement.crawling ==> |skeleton.bones| > 0)
    }

    /** The bones awake, then the health controller, then the locomotion controller starts. */
    constructor (H: Hierarchy, place: seq<nat>, configs: seq<BoneConfig>, bloodPrefab: bool, velocity: Vec3)
      requires Layout(H, place) && |configs| == |place|
      ensures Valid() && !health.isDead && !movement.crawling
      ensures skeleton.kids == Topology(H, place) && |skeleton.bones| == |configs|
      ensures forall b :: 0 <= b < |configs| ==> skeleton.bones[b] == Awake(configs[b]).(blood := bloodPrefab)
    {
      var s := new Skeleton(H, place, configs);
      var h := new Health(s, bloodPrefab);
      var m := new Movement(h, velocity);
      skeleton := s;
      health := h;
      movement := m;
    }

    /** OnJointBreak on bone i: nothing at all without a blood prefab; otherwise the break event
        (the health controller's reaction, and the crawl it may start), then SetBone(false) on
        the bone, then IsBroken. Afterwards the bone is broken and limp for good. Either way the
        engine then removes the broken joint from the bone. */
    method OnJointBreak(i: nat)
      requires Valid() && i < |skeleton.bones|
      modifies skeleton, health`isDead, movement`crawling, movement`speed
      ensures Valid()
      ensures skeleton.bones[i].joint.None?
      ensures !old(skeleton.bones)[i].blood ==>
                && skeleton.bones == old(skeleton.bones)[i := old(skeleton.bones)[i].(joint := None)]
                && health.isDead == old(health.isDead)
                && movement.crawling == old(movement.crawling) && movement.speed == old(movement.speed)
      ensures old(skeleton.bones)[i].blood ==>
                var reaction := Reaction(old(skeleton.bones)[i]);
                var afterEvent := if reaction == Die then SetTree(skeleton.kids, old(skeleton.bones), 0, false)
                                  else old(skeleton.bones);
                var limp := SetTree(skeleton.kids, afterEvent, i, false);
                && skeleton.bones == limp[i := limp[i].(broken := true, joint := None)]
                && health.isDead == (old(health.isDead) || reaction == Die)
                && movement.crawling == (old(movement.crawling) || reaction == Crawl)
                && movement.speed == (if reaction == Crawl then CrawlSpeed else old(movement.speed))
                && skeleton.bones[i].broken && !skeleton.bones[i].follow
    {
      if !skeleton.bones[i].blood {
        skeleton.RemoveJoint(i);
        return;
      }
      var enterCrawl := health.HandleBoneBreak(i);
      if enterCrawl {
        movement.OnEnterCrawl();
      }
      ghost var afterEvent := skeleton.bones;
      BoneProofs.SetKeepsBrokenLimp(skeleton.kids, old(skeleton.bones), 0, false);
      BoneProofs.BreakMakesLimp(skeleton.kids, afterEvent, i);
      skeleton.SetBone(i, false);
      skeleton.SetBroken(i);
      skeleton.RemoveJoint(i);
    }

    /** OnCollisionEnter on bone i. */
    method OnCollisionEnter(i: nat, impulse: real, otherIsRagdoll: bool, point: Vec3, normal: Vec3)
      requires Valid() && i < |skeleton.bones| && impulse >= 0.0
      modifies skeleton
      ensures Valid()
      ensures skeleton.bones == if CollisionHits(impulse, otherIsRagdoll)
                                then HitTree(skeleton.kids, old(skeleton.bones), i, CollisionHit(i, impulse, point, normal))
                                else old(skeleton.bones)
    {
      BoneProofs.HitKeepsBrokenLimp(skeleton.kids, skeleton.bones, i, CollisionHit(i, impulse, point, normal));
      skeleton.OnCollisionEnter(i, impulse, otherIsRagdoll, point, normal);
    }

    /** An explicit hit on bone i (as the camera's shot delivers one). */
    method Hit(i: nat, h: HitInfo)
      requires Valid() && i < |skeleton.bones| && Targets(h, |skeleton.bones|)
      modifies skeleton
      ensures Valid()
      ensures skeleton.bones == HitTree(skeleton.kids, old(skeleton.bones), i, h)
    {
      BoneProofs.HitKeepsBrokenLimp(skeleton.kids, skeleton.bones, i, h);
      skeleton.HitBone(i, h);
    }

    /** The variable-rate tick of the locomotion controller. */
    method Update(move: real, strafe: real, forward: Vec3, right: Vec3, jumpPressed: bool)
      returns (jumped: bool)
      requires Valid()
      modifies movement`isRunning, movement`velocity, skeleton
      ensures Valid()
      ensures movement.isRunning == Running(move, strafe)
      ensures var d := Heading(forward, right, move, strafe);
        movement.isRunning ==>
          movement.velocity == Vec3(d.x * movement.speed, old(movement.velocity).y, d.z * movement.speed)
      ensures !movement.isRunning ==> movement.velocity == old(movement.velocity)
      ensures jumped == JumpAllowed(jumpPressed, movement.grounded, movement.crawling)
      ensures var bs := old(skeleton.bones);
        skeleton.bones ==
          if movement.crawling && !health.isDead && bs[0].follow != Running(move, strafe)
          then SetTree(skeleton.kids, bs, 0, Running(move, strafe))
          else bs
      ensures movement.crawling && !health.isDead && !old(skeleton.bones)[0].broken ==>
                skeleton.bones[0].follow == Running(move, strafe)
    {
      if movement.crawling && !health.isDead && skeleton.bones[0].follow != Running(move, strafe) {
        BoneProofs.SetKeepsBrokenLimp(skeleton.kids, skeleton.bones, 0, Running(move, strafe));
        BoneProofs.SetBoneEffect(skeleton.kids, skeleton.bones, 0, Running(move, strafe));
      }
      jumped := movement.Update(move, strafe, forward, right, jumpPressed);
    }

    /** The fixed-rate tick: the ground probe's result. */
    method FixedUpdate(probeHit: bool)
      requires Valid()
      modifies movement`grounded
      ensures Valid() && movement.grounded == probeHit
    {
      movement.UpdateGroundedState(probeHit);
    }
  }
}
