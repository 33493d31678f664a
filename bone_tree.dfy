/** The control tree of one character's bones, as an arena: bone i invokes the set and hit
    handlers of the bones listed in kids[i]. Bones are numbered in the depth-first pre-order in
    which they are discovered, so every child has a larger index than its parent; recursion
    over the tree terminates on |kids| - i. */
module BoneTree {

  /** Every child index names a bone of the arena that comes after its parent. */
  predicate WellFormed(kids: seq<seq<nat>>)
  {
    forall i, j :: 0 <= i < |kids| && 0 <= j < |kids[i]| ==> i < kids[i][j] < |kids|
  }

  /** The bones that a cascade started at bone i reaches when it does not enter a bone marked in
      `stop` (and so does not go on below it): i itself, unless stopped, and the cascades of its
      children. */
  function Cascade(kids: seq<seq<nat>>, stop: seq<bool>, i: nat): (r: set<nat>)
    requires WellFormed(kids) && |stop| == |kids| && i < |kids|
    ensures forall k :: k in r ==> i <= k < |kids| && !stop[k]
    ensures !stop[i] <==> i in r
    decreases |kids| - i, 1
  {
    if stop[i] then {} else {i} + CascadeKids(kids, stop, i, 0)
  }

  /** The union of the cascades of kids[i][j..]. */
  function CascadeKids(kids: seq<seq<nat>>, stop: seq<bool>, i: nat, j: nat): (r: set<nat>)
    requires WellFormed(kids) && |stop| == |kids| && i < |kids| && j <= |kids[i]|
    ensures forall k :: k in r ==> i < k < |kids| && !stop[k]
    decreases |kids| - i, 0, |kids[i]| - j
  {
    if j == |kids[i]| then {} else Cascade(kids, stop, kids[i][j]) + CascadeKids(kids, stop, i, j + 1)
  }

  /** No bone stops a cascade. */
  function NoStops(n: nat): (r: seq<bool>)
    ensures |r| == n && forall k :: 0 <= k < n ==> !r[k]
  {
    seq(n, _ => false)
  }

  /** The subtree rooted at bone i: every bone a hit entering at i is handed to. */
  function Reach(kids: seq<seq<nat>>, i: nat): set<nat>
    requires WellFormed(kids) && i < |kids|
  {
    Cascade(kids, NoStops(|kids|), i)
  }

  /** The number of handler invocations a cascade from bone i performs when nothing stops it:
      one for i and, recursively, those of its children. */
  function Visits(kids: seq<seq<nat>>, i: nat): (n: nat)
    requires WellFormed(kids) && i < |kids|
    ensures n >= 1
    decreases |kids| - i, 1
  {
    1 + VisitsKids(kids, i, 0)
  }

  /** The invocations performed by the cascades of kids[i][j..]. */
  function VisitsKids(kids: seq<seq<nat>>, i: nat, j: nat): nat
    requires WellFormed(kids) && i < |kids| && j <= |kids[i]|
    decreases |kids| - i, 0, |kids[i]| - j
  {
    if j == |kids[i]| then 0 else Visits(kids, kids[i][j]) + VisitsKids(kids, i, j + 1)
  }

  /** A cascade that enters an unstopped bone goes on into every child's cascade. */
  lemma {:induction false} CascadeKidsContains(kids: seq<seq<nat>>, stop: seq<bool>, i: nat, j: nat, m: nat)
    requires WellFormed(kids) && |stop| == |kids| && i < |kids| && j <= m < |kids[i]|
    ensures Cascade(kids, stop, kids[i][m]) <= CascadeKids(kids, stop, i, j)
    decreases m - j
  {
    if j < m {
      CascadeKidsContains(kids, stop, i, j + 1, m);
    }
  }

  /** Every child of a bone the cascade enters is handed the cascade too: the bones reached
      from bone i are those reachable along a path of unstopped bones. */
  lemma CascadeChild(kids: seq<seq<nat>>, stop: seq<bool>, i: nat, m: nat)
    requires WellFormed(kids) && |stop| == |kids| && i < |kids| && m < |kids[i]|
    requires !stop[i]
    ensures Cascade(kids, stop, kids[i][m]) <= Cascade(kids, stop, i)
  {
    CascadeKidsContains(kids, stop, i, 0, m);
  }

  /** A cascade from bone i reaches no more bones than the handler invocations it performs
      when nothing stops it: at most one new bone per invocation. (On a tree, where no bone is
      reached twice, the counts agree for an unstopped cascade; that direction is not stated.) */
  lemma {:induction false} CascadeWithinVisits(kids: seq<seq<nat>>, stop: seq<bool>, i: nat)
    requires WellFormed(kids) && |stop| == |kids| && i < |kids|
    ensures |Cascade(kids, stop, i)| <= Visits(kids, i)
    decreases |kids| - i, 1
  {
    if !stop[i] {
      CascadeKidsWithinVisits(kids, stop, i, 0);
    }
  }

  lemma {:induction false} CascadeKidsWithinVisits(kids: seq<seq<nat>>, stop: seq<bool>, i: nat, j: nat)
    requires WellFormed(kids) && |stop| == |kids| && i < |kids| && j <= |kids[i]|
    ensures |CascadeKids(kids, stop, i, j)| <= VisitsKids(kids, i, j)
    decreases |kids| - i, 0, |kids[i]| - j
  {
    if j < |kids[i]| {
      var A := Cascade(kids, stop, kids[i][j]);
      var B := CascadeKids(kids, stop, i, j + 1);
      CascadeWithinVisits(kids, stop, kids[i][j]);
      CascadeKidsWithinVisits(kids, stop, i, j + 1);
      assert |A + B| <= |A| + |B| by {
        assert |A + B| + |A * B| == |A| + |B|;
      }
    }
  }
}
