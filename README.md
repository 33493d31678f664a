# Active ragdoll bone control, modelled in Dafny

This project models the control core of an active-ragdoll character: a tree of bone controllers
that each pull a rigid body toward an animated pose, pass "set follow" and "hit" events down to
their child bones, weaken under impacts, and break; a health controller that turns a broken vital
bone into death and a broken leg bone into crawling; and the locomotion controller's
running/jumping/grounded/crawling flags, including the per-frame pelvis sync while crawling.

Layout (one module per source file, plus shared pieces):

- `mathf.dfy` (`Mathf`): Min, Max, Clamp and Lerp over reals.
- `helper.dfy` (`RagdollHelper`): the `HitInfo` record, a datatype, so every handler gets its own
  copy exactly as the C# struct does.
- `bone_tree.dfy` (`BoneTree`): the control tree as an arena indexed by integer. Every child
  index is larger than its parent's; recursion over the tree terminates on that. The layout of
  a character (`Transforms.Layout`) numbers transforms in depth-first pre-order from the root and
  bones in the order that search discovers them, which gives this ordering
  (`Transforms.TopologyWellFormed`) and makes bone 0 the first bone discovered
  (`RagdollHealth.PelvisIsFirst`).
  It also holds the sets of bones a cascade reaches (`Cascade`, `Reach`) and the number of
  handler invocations of a hit (`Visits`).
- `transforms.dfy` (`Transforms`): the transform hierarchy, the engine's depth-first
  `GetComponentInChildren` search and `InitializeChildren`, and the proof that the control tree
  they build is a well-formed arena.
- `bone.dfy` (`RagdollBone`): per-bone state, the one-bone effects of SetBone and HitBone, the
  depth-first cascades as specification functions `SetTree`/`HitTree`, and the `Skeleton` class.
  Its recursive `SetBone`/`HitBone` methods update the bones in place and are proved equal to
  those functions.
- `bone_proofs.dfy` (`BoneProofs`): what the cascades promise over the whole arena.
- `health.dfy`, `movement.dfy` (`RagdollHealth`, `RagdollMovement`): the two controllers as classes.
- `character.dfy` (`Character`): one character's wiring of events and the engine's entry points.

Behaviour kept as the code has it, where one might expect otherwise:

- HitBone bumps the mass of the originally struck bone (`hitInfo.bone`) at every bone the hit is
  handed to, including the first. Over a subtree of n handler calls the struck bone gains
  min(n * bump, 20 - mass), not one bump.
- Without a blood prefab, OnJointBreak returns at once: no break event, no SetBone(false), no
  IsBroken. Such a bone keeps following, though the engine still removes its broken joint, so
  it no longer marks the record of a hit passing through it inherited.
- A leg bone's break raises the enter-crawl event on every break; nothing de-duplicates it.
- Hits are not stopped by broken bones. Only set-follow cascades are.
- A bone's child is the first bone of a depth-first search below each direct child transform,
  the transform itself first. It is not the nearest bone by depth.

## Model

| member | source | states |
|---|---|---|
| `Mathf.Clamp` | Assets/Scripts/Ragdoll/RagdollBone.cs:103 | the result lies in [lo, hi], equals x inside the range and the overshot bound outside it |
| `Mathf.Lerp` | Assets/Scripts/Ragdoll/RagdollBone.cs:111 | a + (b - a) * t for t in [0, 1], a below it, b above it |
| `BoneTree.Cascade` | Assets/Scripts/Ragdoll/RagdollBone.cs:86-92 | the bones a cascade from i reaches all lie at or after i and are not stopped; i is reached exactly when it is not stopped |
| `BoneTree.CascadeChild` | Assets/Scripts/Ragdoll/RagdollBone.cs:91 | a cascade entering an unstopped bone reaches everything each child's cascade reaches |
| `BoneTree.Visits` | Assets/Scripts/Ragdoll/RagdollBone.cs:115 | a hit on bone i invokes at least one handler, its own |
| `BoneTree.CascadeWithinVisits` | Assets/Scripts/Ragdoll/RagdollBone.cs:115 | a cascade reaches at most as many bones as it invokes handlers, so a hit's subtree has at most `Visits` bones and the struck bone gets at least one bump per bone of it |
| `Transforms.FindBone` | Assets/Scripts/Ragdoll/RagdollBone.cs:59 | the search returns a bone-carrying transform at or below t, t itself when it carries one, and nothing only when no transform at or below t carries a bone |
| `Transforms.FirstCarrier` | Assets/Scripts/Ragdoll/RagdollBone.cs:59 | the reference answer of the search over a list of transforms: one that carries a bone with none before it carrying one, or none when none does |
| `Transforms.FindBoneIsFirst` | Assets/Scripts/Ragdoll/RagdollBone.cs:59 | the search returns exactly the first bone-carrying transform of the depth-first pre-order from t |
| `Transforms.InitializeChildren` | Assets/Scripts/Ragdoll/RagdollBone.cs:55-66 | the loop collects, in order, the bone found below each direct child transform, skipping children with none |
| `Transforms.FoundBonesBelow` | Assets/Scripts/Ragdoll/RagdollBone.cs:57-64 | every collected child bone sits strictly below the parent's transform, and so comes after the parent in bone order |
| `Transforms.TopologyWellFormed` | Assets/Scripts/Ragdoll/RagdollBone.cs:55-66 | the child lists of all bones form a well-formed arena: every child index is larger than its parent's |
| `RagdollBone.Awake` | Assets/Scripts/Ragdoll/RagdollBone.cs:37-47 | a bone starts unbroken with damping cached and both multipliers at their maxima; from sane settings it is Calibrated |
| `RagdollBone.Corrects` | Assets/Scripts/Ragdoll/RagdollBone.cs:49-53 | FixedUpdate drives a bone toward its pose exactly when it follows; the limp-bone lemmas are stated through it |
| `RagdollBone.SetTree` | Assets/Scripts/Ragdoll/RagdollBone.cs:86-92 | the depth-first SetBone cascade from bone i: a broken bone changes nothing, and no broken flag ever changes; SetTreeIsCascade gives its exact effect |
| `RagdollBone.SetKids` | Assets/Scripts/Ragdoll/RagdollBone.cs:91 | the set event handed to the remaining children in order; no broken flag changes |
| `RagdollBone.SetNode` | Assets/Scripts/Ragdoll/RagdollBone.cs:89-90 | the bone follows the request; damping is the cached value when active and 0 when not; nothing else changes |
| `RagdollBone.ImpulseFactor` | Assets/Scripts/Ragdoll/RagdollBone.cs:103 | impulseFactor lies in [0.1, 1] and is impulse/100 between impulses 10 and 100 |
| `RagdollBone.DecayFactor` | Assets/Scripts/Ragdoll/RagdollBone.cs:104-105 | the multiplier decay factor lies in [0.865, 1] |
| `RagdollBone.MassBump` | Assets/Scripts/Ragdoll/RagdollBone.cs:100 | one hop adds between 0.5 and 5 to the struck bone's mass, exactly impulse * 0.005 for impulses between 100 and 1000 |
| `RagdollBone.BumpedMass` | Assets/Scripts/Ragdoll/RagdollBone.cs:100 | the bumped mass is at most 20 and at most mass + bump, and equals one of them: min(mass + bump, 20) |
| `RagdollBone.Decay` | Assets/Scripts/Ragdoll/RagdollBone.cs:104-105 | a decayed force multiplier keeps between 0.865 of its value and its value |
| `RagdollBone.Damage` | Assets/Scripts/Ragdoll/RagdollBone.cs:103-113 | after a hop, posMul >= 0.15 * posMulMax and vertMul >= 0.3; rotMul lies between 0.865 of its old value and its old value; a joint is kept or absent as before; it changes only for a non-inherited record, to breakForce * (1 - impulseFactor); only the damage fields change |
| `RagdollBone.Pass` | Assets/Scripts/Ragdoll/RagdollBone.cs:108-115 | the copy handed to children keeps the struck bone, impulse, point and direction; it is inherited exactly when the record was or the bone has a joint |
| `RagdollBone.HitNode` | Assets/Scripts/Ragdoll/RagdollBone.cs:96-113 | one hop of HitBone at bone i changes only bone i and the struck bone, and neither's follow or broken flag |
| `RagdollBone.HitTree` | Assets/Scripts/Ragdoll/RagdollBone.cs:94-116 | the depth-first HitBone cascade from bone i: a null bone reference changes nothing, and no bone's follow or broken flag changes; HitFrame and the lemmas after it give the rest |
| `RagdollBone.HitKids` | Assets/Scripts/Ragdoll/RagdollBone.cs:115 | the hit event, with one copy of the record, handed to the remaining children in order; no follow or broken flag changes |
| `RagdollBone.CollisionHits` | Assets/Scripts/Ragdoll/RagdollBone.cs:138 | a collision hits the bone exactly when its impulse exceeds 10 and the other object is not on the Ragdoll layer |
| `RagdollBone.CollisionHit` | Assets/Scripts/Ragdoll/RagdollBone.cs:140-146 | a collision's record names the bone itself, carries a non-negative impulse and is not inherited |
| `RagdollBone.Skeleton.constructor` | Assets/Scripts/Ragdoll/RagdollBone.cs:37-47 | every bone awakes and the control tree is the one InitializeChildren builds, a well-formed arena |
| `RagdollBone.Skeleton.SetBone` | Assets/Scripts/Ragdoll/RagdollBone.cs:86-92 | the in-place recursive cascade leaves the bones exactly as SetTree says |
| `RagdollBone.Skeleton.HitBone` | Assets/Scripts/Ragdoll/RagdollBone.cs:94-116 | the in-place recursive cascade leaves the bones exactly as HitTree says |
| `RagdollBone.Skeleton.OnCollisionEnter` | Assets/Scripts/Ragdoll/RagdollBone.cs:136-148 | a hit on the bone itself exactly when impulse > 10 and the other object is not on the Ragdoll layer; otherwise no change |
| `RagdollBone.Skeleton.SetBoneParams` | Assets/Scripts/Ragdoll/RagdollBone.cs:150 | only that bone's blood prefab changes |
| `RagdollBone.Skeleton.SetBroken` | Assets/Scripts/Ragdoll/RagdollBone.cs:133 | only that bone's IsBroken changes, to true |
| `RagdollBone.Skeleton.RemoveJoint` | Assets/Scripts/Ragdoll/RagdollBone.cs:108 | once its joint has broken the bone has no joint, so the joint lookup of later hits finds none; nothing else changes |
| `BoneProofs.SetTreeIsCascade` | Assets/Scripts/Ragdoll/RagdollBone.cs:86-92 | SetBone(active) on bone i equals setting exactly the bones of its cascade: i and all bones reachable without entering a broken one |
| `BoneProofs.SetBoneEffect` | Assets/Scripts/Ragdoll/RagdollBone.cs:86-92 | on a broken bone nothing changes; otherwise the bone and every bone its cascade reaches follow `active` with the matching damping; broken and unreached bones are unchanged; no broken flag changes |
| `BoneProofs.HitFrame` | Assets/Scripts/Ragdoll/RagdollBone.cs:94-116 | a null bone reference changes nothing; a hit changes only damage state, damages only the subtree, grows only the struck bone's mass, and leaves the entry bone damaged exactly once |
| `BoneProofs.HitStruckMass` | Assets/Scripts/Ragdoll/RagdollBone.cs:97-101 | the struck bone receives one capped mass bump per handler invocation of the cascade, the first one included |
| `BoneProofs.BumpsClosedForm` | Assets/Scripts/Ragdoll/RagdollBone.cs:100 | n >= 1 capped bumps give min(mass + n * bump, 20), so the mass never exceeds 20 |
| `BoneProofs.HitCalibrated` | Assets/Scripts/Ragdoll/RagdollBone.cs:103-106 | hits keep every bone Calibrated: posMul in [0.15 * max, max], rotMul > 0, vertMul >= 0.3, mass in (0, 20], breakForce >= 0 |
| `BoneProofs.HitWeakensAt` | Assets/Scripts/Ragdoll/RagdollBone.cs:103-111 | on a Calibrated skeleton a hit with a non-negative impulse never raises any bone's multipliers or joint threshold, and never adds or removes a joint |
| `BoneProofs.HitFloorsAt` | Assets/Scripts/Ragdoll/RagdollBone.cs:104-106 | whatever the starting values, every bone of the hit subtree ends with posMul >= 0.15 * posMulMax and vertMul >= 0.3, and no bone loses those floors |
| `BoneProofs.InheritedKeepsJoints` | Assets/Scripts/Ragdoll/RagdollBone.cs:108-113 | a hit whose record is already inherited changes no joint anywhere |
| `BoneProofs.JointWeakenedOnce` | Assets/Scripts/Ragdoll/RagdollBone.cs:108-115 | a fresh hit entering a jointed bone sets its breakForce to old * (1 - impulseFactor) and changes no other joint |
| `BoneProofs.AtMostOneWeakening` | Assets/Scripts/Ragdoll/RagdollBone.cs:108-115 | along any root-to-leaf path a hit weakens at most one joint, and none when the record arrives inherited |
| `BoneProofs.SetKeepsBrokenLimp` | Assets/Scripts/Ragdoll/RagdollBone.cs:86-88 | a set-follow cascade keeps every broken bone not following, so FixedUpdate never corrects it again |
| `BoneProofs.HitKeepsBrokenLimp` | Assets/Scripts/Ragdoll/RagdollBone.cs:94-116 | a hit keeps every broken bone not following and changes no broken flag |
| `BoneProofs.BreakMakesLimp` | Assets/Scripts/Ragdoll/RagdollBone.cs:131-133 | SetBone(false) then IsBroken leaves the bone broken and not following, and every broken bone limp |
| `RagdollHealth.Reaction` | Assets/Scripts/Ragdoll/RagdollHealth.cs:37-48 | death exactly for a vital bone; crawl exactly for a non-vital leg bone; nothing otherwise (vital takes precedence) |
| `RagdollHealth.PelvisOf` | Assets/Scripts/Ragdoll/RagdollHealth.cs:27 | the pelvis is bone 0, and none exactly when there are no bones |
| `RagdollHealth.PelvisIsFirst` | Assets/Scripts/Ragdoll/RagdollHealth.cs:26-27 | bone 0 sits on the first bone-carrying transform of the depth-first search from the character's root, so the pelvis is the first bone that search discovers |
| `RagdollHealth.Health.constructor` | Assets/Scripts/Ragdoll/RagdollHealth.cs:19-22 | the character starts alive, with the pelvis chosen and every bone given the blood prefab |
| `RagdollHealth.Health.SubscribeToAllBones` | Assets/Scripts/Ragdoll/RagdollHealth.cs:24-35 | the loop picks the pelvis and hands every bone the blood prefab, changing nothing else |
| `RagdollHealth.Health.HandleBoneBreak` | Assets/Scripts/Ragdoll/RagdollHealth.cs:37-48 | a vital break runs SetBone(false) on the pelvis and sets IsDead, even when the pelvis is broken; a non-vital leg break raises enter-crawl on every break; otherwise nothing; IsDead only ever becomes true |
| `RagdollHealth.Health.HandleBoneHit` | Assets/Scripts/Ragdoll/RagdollHealth.cs:50-54 | the hit handler changes no bone or health state |
| `RagdollMovement.Running` | Assets/Scripts/Ragdoll/RagdollMovement.cs:68 | running exactly when either input axis is non-zero |
| `RagdollMovement.JumpAllowed` | Assets/Scripts/Ragdoll/RagdollMovement.cs:90 | the jump guard: the key went down while grounded and not crawling |
| `RagdollMovement.Heading` | Assets/Scripts/Ragdoll/RagdollMovement.cs:65-66 | the movement direction is horizontal whatever the camera's pitch, and zero without input |
| `RagdollMovement.Movement.constructor` | Assets/Scripts/Ragdoll/RagdollMovement.cs:36-42 | the character starts not crawling, at walking speed 5 |
| `RagdollMovement.Movement.HandleMovement` | Assets/Scripts/Ragdoll/RagdollMovement.cs:60-83 | IsRunning exactly when either axis is non-zero; then the horizontal velocity is heading * speed and the vertical velocity is kept; otherwise the velocity is untouched |
| `RagdollMovement.Movement.HandleJump` | Assets/Scripts/Ragdoll/RagdollMovement.cs:88-96 | a jump fires exactly when the key is pressed, grounded holds and not crawling; never while crawling |
| `RagdollMovement.Movement.UpdateGroundedState` | Assets/Scripts/Ragdoll/RagdollMovement.cs:101-105 | grounded is exactly the ground probe's result |
| `RagdollMovement.Movement.OnEnterCrawl` | Assets/Scripts/Ragdoll/RagdollMovement.cs:118-123 | crawling becomes true and speed 2; as no method resets them, the crawl is for good |
| `RagdollMovement.Movement.HandleCrawlState` | Assets/Scripts/Ragdoll/RagdollMovement.cs:128-138 | nothing when not crawling or when dead; otherwise SetBone(IsRunning) on the pelvis when its IsActive differs, so an unbroken pelvis then follows exactly when running |
| `RagdollMovement.Movement.Update` | Assets/Scripts/Ragdoll/RagdollMovement.cs:44-49 | movement, jump and crawl sync in that order: IsRunning and the velocity as HandleMovement leaves them, the jump under its guard, and the pelvis sync using this frame's IsRunning |
| `Character.Ragdoll.constructor` | Assets/Scripts/Ragdoll/RagdollHealth.cs:19-35 | bones awake with their control tree, then the health controller hands them the prefab; the character starts alive and not crawling, with every broken bone limp |
| `Character.Ragdoll.OnJointBreak` | Assets/Scripts/Ragdoll/RagdollBone.cs:118-134 | without a blood prefab only the broken joint disappears; otherwise the health reaction (death, or crawl at speed 2) comes first, then SetBone(false), then IsBroken, and the joint is gone; the bone ends broken and not following |
| `Character.Ragdoll.OnCollisionEnter` | Assets/Scripts/Ragdoll/RagdollBone.cs:136-148 | a hard outside impact hits the bone itself; broken bones stay limp |
| `Character.Ragdoll.Hit` | Assets/Scripts/cam_ctrl.cs:65-73 | an external hit runs HitBone on the struck bone; broken bones stay limp |
| `Character.Ragdoll.Update` | Assets/Scripts/Ragdoll/RagdollMovement.cs:44-49 | IsRunning exactly on input, the velocity as HandleMovement sets it, the jump under its guard; the bones change only while crawling and alive, by SetBone(input) on the pelvis when its IsActive differs, so an unbroken pelvis then follows exactly when there is input |
| `Character.Ragdoll.FixedUpdate` | Assets/Scripts/Ragdoll/RagdollMovement.cs:51-55 | grounded is the ground probe's result |

## Left out

- ApplyBoneTransform and maxForce/maxTorque: quaternion angle-axis, NaN checks, vector clamping and
  force/torque application are floating-point physics. Only the follow gate in FixedUpdate is
  kept, as the predicate `Corrects`.
- Blood particles and decals: spawning, parenting and the ten-second deferred destroy are engine
  calls with no effect on the modelled state.
- The animator parameters, UpdateAnimatorValues, the facing direction, and the jump impulse on
  the body. HandleJump returns whether the impulse is applied.
- Engine wiring: GetComponent lookups, C# event subscription and Awake/Start ordering. Events are
  direct calls in `Character`.
- The Ragdoll layer lookup and the collision itself: a boolean "other is ragdoll" and the impulse
  magnitude, contact point and normal are parameters.
- A collision without contacts: the source would fail on `contacts[0]`.
- Input axes, the jump key and the ground raycast are parameters.
- IEEE float rounding: every quantity is a real.
- The leg bone subclass is not part of this model. HitBone is virtual and a leg bone may override it; every bone here, leg bones included, reacts to hits as the base controller does.
- The engine removes a broken joint after the break callback. `Skeleton.RemoveJoint` stands for that removal; the rest of the engine's joint physics is not modelled.
- A struck bone without a Rigidbody: every bone has one, since its Awake reads it.
- A record naming a bone of another character: records name bones of this arena (`Targets`).
- HandleCrawlState with no pelvis: the source would throw a null reference exception. The method
  requires a pelvis while crawling, and the character guarantees one.
- GetComponentInChildren's skipping of inactive objects: all transforms are active.
- Assets/Scripts/cam_ctrl.cs and Assets/Scripts/BallThrower.cs are not part of this model: camera,
  cursor and projectile glue. `Character.Ragdoll.Hit` stands for the camera's shot.
- BoneProofs.AtMostOneWeakening: stated over the bones of a path, hop by hop with `Pass`, rather
  than read off HitTree's final state. On a tree each bone is visited once, and
  `JointWeakenedOnce` with `InheritedKeepsJoints` give the same fact per hop.
- BoneProofs.HitWeakensAt: needs a Calibrated skeleton and a non-negative impulse. A negative
  configured impulse would raise the vertical multiplier.
- The control tree is only required to order children after parents. Shared children are not
  excluded; every lemma holds for them too.
