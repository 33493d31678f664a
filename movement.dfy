/** The locomotion controller's state flags (Assets/Scripts/Ragdoll/RagdollMovement.cs): running,
    jumping, grounded and crawling, and the pelvis sync while crawling. Input, the ground probe
    and the camera's axes come in as parameters. */
module RagdollMovement {
  import opened RagdollHelper
  import opened RagdollBone
  import opened RagdollHealth
  import BoneProofs

  /** The serialized walking speed. */
  const WalkSpeed: real := 5.0
  /** The speed OnEnterCrawl sets for good. */
  const CrawlSpeed: real := 2.0

  /** IsRunning: there is input on either movement axis. */
  predicate Running(move: real, strafe: real)
  {
    move != 0.0 || strafe != 0.0
  }

  /** The movement direction: the camera's forward and right axes weighted by the input, with
      its vertical component dropped. It is horizontal whatever the camera's pitch, and zero
      without input. */
  function Heading(forward: Vec3, right: Vec3, move: real, strafe: real): (d: Vec3)
    ensures d.y == 0.0
    ensures !Running(move, strafe) ==> d == Vec3(0.0, 0.0, 0.0)
  {
    Vec3(forward.x * move + right.x * strafe, 0.0, forward.z * move + right.z * strafe)
  }

  /** HandleJump's guard: the key went down while grounded and not crawling. */
  predicate JumpAllowed(pressed: bool, grounded: bool, crawling: bool)
  {
    pressed && grounded && !crawling
  }

  class Movement {
    const health: Health
    var speed: real
    var grounded: bool
    var crawling: bool
    var isRunning: bool
    var velocity: Vec3   // the root body's linear velocity

    /** Crawling is for good, and so is its reduced speed. */
    ghost predicate Valid()
      reads this, health, health.skeleton
    {
      health.Valid() && (crawling ==> speed == CrawlSpeed)
    }

    /** Start: standing, at walking speed. */
    constructor (health: Health, velocity: Vec3)
      requires health.Valid()
      ensures Valid() && this.health == health && this.velocity == velocity
      ensures speed == WalkSpeed && !crawling && !grounded && !isRunning
    {
      this.health := health;
      this.velocity := velocity;
      speed := WalkSpeed;
      grounded := false;
      crawling := false;
      isRunning := false;
    }

    /** HandleMovement: with input, IsRunning and the horizontal velocity is input times speed
        along the heading while the vertical velocity is kept; without, not running and the
        velocity is left to the physics. */
    method HandleMovement(move: real, strafe: real, forward: Vec3, right: Vec3)
      modifies this`isRunning, this`velocity
      ensures isRunning == Running(move, strafe)
      ensures var d := Heading(forward, right, move, strafe);
        isRunning ==> velocity == Vec3(d.x * speed, old(velocity).y, d.z * speed)
      ensures !isRunning ==> velocity == old(velocity)
    {
      var d := Heading(forward, right, move, strafe);
      if move != 0.0 || strafe != 0.0 {
        velocity := Vec3(d.x * speed, velocity.y, d.z * speed);
        isRunning := true;
      } else {
        isRunning := false;
      }
    }

    /** HandleJump: whether the upward impulse is applied this frame. */
    method HandleJump(pressed: bool) returns (jumped: bool)
      ensures jumped == JumpAllowed(pressed, grounded, crawling)
      ensures crawling ==> !jumped
    {
      jumped := pressed && grounded && !crawling;
    }

    /** UpdateGroundedState: grounded exactly when the downward probe hit something. */
    method UpdateGroundedState(probeHit: bool)
      modifies this`grounded
      ensures grounded == probeHit
    {
      grounded := probeHit;
    }

    /** OnEnterCrawl: crawling from now on, at crawling speed. */
    method OnEnterCrawl()
      requires Valid()
      modifies this`crawling, this`speed
      ensures Valid() && crawling && speed == CrawlSpeed
    {
      crawling := true;
      speed := CrawlSpeed;
    }

    /** HandleCrawlState: while crawling and alive, make the pelvis follow exactly when the
        player is running; nothing when not crawling and nothing to the pelvis when dead. */
    method HandleCrawlState()
      requires Valid() && (crawling ==> health.pelvis.Some?)
      modifies health.skeleton
      ensures Valid()
      ensures var bs := old(health.skeleton.bones);
        health.skeleton.bones ==
          if crawling && !health.isDead && bs[0].follow != isRunning
          then SetTree(health.skeleton.kids, bs, 0, isRunning)
          else bs
      ensures crawling && !health.isDead && !old(health.skeleton.bones)[0].broken ==>
                health.skeleton.bones[0].follow == isRunning
    {
      if !crawling {
        return;
      }
      var shouldFollow := isRunning;
      var p := health.pelvis.value;
      if health.skeleton.bones[p].follow != shouldFollow {
        if !health.isDead {
          health.skeleton.SetBone(p, shouldFollow);
          BoneProofs.SetBoneEffect(health.skeleton.kids, old(health.skeleton.bones), 0, shouldFollow);
        }
      }
    }

    /** Update: movement, jump, then the crawl sync, which sees this frame's IsRunning. */
    method Update(move: real, strafe: real, forward: Vec3, right: Vec3, jumpPressed: bool)
      returns (jumped: bool)
      requires Valid() && (crawling ==> health.pelvis.Some?)
      modifies this`isRunning, this`velocity, health.skeleton
      ensures Valid() && isRunning == Running(move, strafe)
      ensures var d := Heading(forward, right, move, strafe);
        isRunning ==> velocity == Vec3(d.x * speed, old(velocity).y, d.z * speed)
      ensures !isRunning ==> velocity == old(velocity)
      ensures jumped == JumpAllowed(jumpPressed, grounded, crawling)
      ensures var bs := old(health.skeleton.bones);
        health.skeleton.bones ==
          if crawling && !health.isDead && bs[0].follow != isRunning
          then SetTree(health.skeleton.kids, bs, 0, isRunning)
          else bs
    {
      HandleMovement(move, strafe, forward, right);
      jumped := HandleJump(jumpPressed);
      HandleCrawlState();
    }
  }
}
