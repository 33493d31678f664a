/** The character's transform hierarchy, and how a bone finds the bones it controls
    (RagdollBone.InitializeChildren and the engine's GetComponentInChildren search). */
module Transforms {
  import opened RagdollHelper
  import opened BoneTree

  /** Transforms as an arena numbered in depth-first pre-order: kids[t] are the direct children
      of transform t, and bone[t] the index of the bone controller on t, if it has one. */
  datatype Hierarchy = Hierarchy(kids: seq<seq<nat>>, bone: seq<Option<nat>>)

  predicate ValidHierarchy(H: Hierarchy)
  {
    WellFormed(H.kids) && |H.bone| == |H.kids|
  }

  /** Transforms are numbered in the depth-first pre-order from the root, transform 0: the
      pre-order from the root lists every transform, each at its own index. */
  predicate PreorderNumbered(kids: seq<seq<nat>>)
    requires WellFormed(kids) && |kids| > 0
  {
    var p := Preorder(kids, 0);
    |p| == |kids| && forall k :: 0 <= k < |p| ==> p[k] == k
  }

  /** The bones sit on the hierarchy at `place`: bone b on transform place[b], one bone per
      transform at most, and bones numbered in the order the character's depth-first search
      from the root discovers them. */
  predicate Layout(H: Hierarchy, place: seq<nat>)
  {
    && ValidHierarchy(H)
    && (|H.kids| > 0 ==> PreorderNumbered(H.kids))
    && (forall b :: 0 <= b < |place| ==> place[b] < |H.kids| && H.bone[place[b]] == Some(b))
    && (forall u :: 0 <= u < |H.bone| && H.bone[u].Some? ==>
          H.bone[u].value < |place| && place[H.bone[u].value] == u)
    && (forall a, b :: 0 <= a < b < |place| ==> place[a] < place[b])
  }

  /** GetComponentInChildren from transform t: t itself when it carries a bone, otherwise the
      first find of a depth-first search through its children in order. The result is the
      transform carrying the bone found: one at or below t, and None only when no transform at or
      below t carries a bone. */
  function FindBone(H: Hierarchy, t: nat): (r: Option<nat>)
    requires ValidHierarchy(H) && t < |H.kids|
    ensures r.Some? ==> r.value in Reach(H.kids, t) && H.bone[r.value].Some?
    ensures r.None? ==> forall u :: u in Reach(H.kids, t) ==> H.bone[u].None?
    ensures H.bone[t].Some? ==> r == Some(t)
    decreases |H.kids| - t, 1
  {
    if H.bone[t].Some? then Some(t) else FindAmong(H, t, 0)
  }

  /** The search continued through the children kids[t][j..] of t. */
  function FindAmong(H: Hierarchy, t: nat, j: nat): (r: Option<nat>)
    requires ValidHierarchy(H) && t < |H.kids| && j <= |H.kids[t]|
    ensures r.Some? ==> r.value in CascadeKids(H.kids, NoStops(|H.kids|), t, j) && H.bone[r.value].Some?
    ensures r.None? ==> forall u :: u in CascadeKids(H.kids, NoStops(|H.kids|), t, j) ==> H.bone[u].None?
    decreases |H.kids| - t, 0, |H.kids[t]| - j
  {
    if j == |H.kids[t]| then None
    else
      match FindBone(H, H.kids[t][j])
      case Some(u) => Some(u)
      case None => FindAmong(H, t, j + 1)
  }

  /** The transforms at or below t in depth-first pre-order: t, then the pre-order of each
      child in turn. */
  function Preorder(kids: seq<seq<nat>>, t: nat): (p: seq<nat>)
    requires WellFormed(kids) && t < |kids|
    ensures |p| >= 1 && p[0] == t
    ensures forall k :: 0 <= k < |p| ==> t <= p[k] < |kids|
    decreases |kids| - t, 1
  {
    [t] + PreorderKids(kids, t, 0)
  }

  /** The pre-orders of kids[t][j..], concatenated. */
  function PreorderKids(kids: seq<seq<nat>>, t: nat, j: nat): (p: seq<nat>)
    requires WellFormed(kids) && t < |kids| && j <= |kids[t]|
    ensures forall k :: 0 <= k < |p| ==> t < p[k] < |kids|
    decreases |kids| - t, 0, |kids[t]| - j
  {
    if j == |kids[t]| then [] else Preorder(kids, kids[t][j]) + PreorderKids(kids, t, j + 1)
  }

  /** The first transform of the list ts that carries a bone: it does, and none before it
      does; None only when none of them does. */
  function FirstCarrier(H: Hierarchy, ts: seq<nat>): (r: Option<nat>)
    requires forall k :: 0 <= k < |ts| ==> ts[k] < |H.bone|
    ensures r.Some? ==> exists p :: 0 <= p < |ts| && ts[p] == r.value && H.bone[ts[p]].Some? &&
                          forall q :: 0 <= q < p ==> H.bone[ts[q]].None?
    ensures r.None? ==> forall k :: 0 <= k < |ts| ==> H.bone[ts[k]].None?
  {
    if ts == [] then None
    else if H.bone[ts[0]].Some? then Some(ts[0])
    else
      var r := FirstCarrier(H, ts[1..]);
      assert forall k :: 1 <= k < |ts| ==> ts[k] == ts[1..][k - 1];
      r
  }

  /** The first carrier of a concatenation is the first carrier of its first part, if it has
      one, and otherwise that of its second part. */
  lemma {:induction false} FirstCarrierAppend(H: Hierarchy, a: seq<nat>, b: seq<nat>)
    requires forall k :: 0 <= k < |a| ==> a[k] < |H.bone|
    requires forall k :: 0 <= k < |b| ==> b[k] < |H.bone|
    ensures FirstCarrier(H, a + b) == if FirstCarrier(H, a).Some? then FirstCarrier(H, a) else FirstCarrier(H, b)
  {
    if a != [] {
      assert (a + b)[0] == a[0];
      assert (a + b)[1..] == a[1..] + b;
      FirstCarrierAppend(H, a[1..], b);
    } else {
      assert a + b == b;
    }
  }

  /** GetComponentInChildren finds the first bone-carrying transform in the depth-first
      pre-order from t. */
  lemma {:induction false} FindBoneIsFirst(H: Hierarchy, t: nat)
    requires ValidHierarchy(H) && t < |H.kids|
    ensures FindBone(H, t) == FirstCarrier(H, Preorder(H.kids, t))
    decreases |H.kids| - t, 1
  {
    var rest := PreorderKids(H.kids, t, 0);
    FirstCarrierAppend(H, [t], rest);
    assert [t] + rest == Preorder(H.kids, t);
    if H.bone[t].None? {
      FindAmongIsFirst(H, t, 0);
    }
  }

  /** The search through kids[t][j..] finds the first carrier of their concatenated pre-orders. */
  lemma {:induction false} FindAmongIsFirst(H: Hierarchy, t: nat, j: nat)
    requires ValidHierarchy(H) && t < |H.kids| && j <= |H.kids[t]|
    ensures FindAmong(H, t, j) == FirstCarrier(H, PreorderKids(H.kids, t, j))
    decreases |H.kids| - t, 0, |H.kids[t]| - j
  {
    if j < |H.kids[t]| {
      var c := H.kids[t][j];
      FindBoneIsFirst(H, c);
      FindAmongIsFirst(H, t, j + 1);
      FirstCarrierAppend(H, Preorder(H.kids, c), PreorderKids(H.kids, t, j + 1));
    }
  }

  /** The bones found below each of the transforms ts, in order, skipping those with none. */
  function FoundBones(H: Hierarchy, ts: seq<nat>): (r: seq<nat>)
    requires ValidHierarchy(H) && forall k :: 0 <= k < |ts| ==> ts[k] < |H.kids|
    ensures |r| <= |ts|
  {
    if ts == [] then []
    else
      var last := ts[|ts| - 1];
      FoundBones(H, ts[..|ts| - 1]) +
        match FindBone(H, last)
        case Some(u) => [H.bone[u].value]
        case None => []
  }

  /** InitializeChildren on the bone at transform t: for each direct child transform, in order,
      the bone found at or below it, if any. */
  method InitializeChildren(H: Hierarchy, t: nat) returns (children: seq<nat>)
    requires ValidHierarchy(H) && t < |H.kids|
    ensures children == FoundBones(H, H.kids[t])
  {
    var ts := H.kids[t];
    children := [];
    var j := 0;
    while j < |ts|
      invariant j <= |ts|
      invariant children == FoundBones(H, ts[..j])
    {
      assert ts[..j + 1][..j] == ts[..j];
      var found := FindBone(H, ts[j]);
      if found.Some? {
        children := children + [H.bone[found.value].value];
      }
      j := j + 1;
    }
    assert ts[..j] == ts;
  }

  /** Every bone found below the children ts of transform t sits on a transform strictly below
      t, hence, with bones numbered in pre-order, after the bone on t. */
  lemma {:induction false} FoundBonesBelow(H: Hierarchy, place: seq<nat>, t: nat, ts: seq<nat>)
    requires Layout(H, place) && t < |H.kids|
    requires forall k :: 0 <= k < |ts| ==> ts[k] in H.kids[t]
    ensures forall k :: 0 <= k < |FoundBones(H, ts)| ==>
      var b := FoundBones(H, ts)[k];
      b < |place| && place[b] in Reach(H.kids, t) && t < place[b]
  {
    if ts != [] {
      var last := ts[|ts| - 1];
      FoundBonesBelow(H, place, t, ts[..|ts| - 1]);
      var m :| 0 <= m < |H.kids[t]| && H.kids[t][m] == last;
      CascadeChild(H.kids, NoStops(|H.kids|), t, m);
      match FindBone(H, last)
      case Some(u) =>
      case None =>
    }
  }

  /** The control tree InitializeChildren builds for the bones laid out at `place`. */
  function Topology(H: Hierarchy, place: seq<nat>): (kids: seq<seq<nat>>)
    requires Layout(H, place)
    ensures |kids| == |place|
  {
    seq(|place|, b requires 0 <= b < |place| => FoundBones(H, H.kids[place[b]]))
  }

  /** That control tree is a well-formed arena: every child bone comes after its parent. */
  lemma TopologyWellFormed(H: Hierarchy, place: seq<nat>)
    requires Layout(H, place)
    ensures WellFormed(Topology(H, place))
  {
    var kids := Topology(H, place);
    forall b, j | 0 <= b < |kids| && 0 <= j < |kids[b]|
      ensures b < kids[b][j] < |kids|
    {
      FoundBonesBelow(H, place, place[b], H.kids[place[b]]);
      var c := kids[b][j];
      assert place[b] < place[c];
    }
  }
}
