/** Hierarchical edge bundling (d3.layout.bundle): the path between two nodes of a tree through their common ancestor. */
module Bundle {
  import opened Sequences
  import opened Wrappers

  class TreeNode {
    const parent: TreeNode?

    ghost const depth: nat

    constructor (parent: TreeNode?)
      requires parent != null ==> parent.Rooted()
      ensures this.parent == parent && Rooted()
    {
      this.parent := parent;
      this.depth := if parent == null then 0 else parent.depth + 1;
    }

    /** The chain of parents ends at a root. */
    ghost predicate Rooted()
      decreases depth
    {
      parent != null ==> parent.depth < depth && parent.Rooted()
    }

    /** The node and its ancestors, the root last. */
    ghost function Up(): (up: seq<TreeNode>)
      requires Rooted()
      ensures |up| > 0 && up[0] == this
      ensures forall i :: 0 <= i < |up| ==> up[i].Rooted()
      decreases depth
    {
      if parent == null then [this] else [this] + parent.Up()
    }
  }

  ghost function Root(n: TreeNode): TreeNode
    requires n.Rooted()
  {
    n.Up()[|n.Up()| - 1]
  }

  /** c is an ancestor of both nodes, or one of them, and below every other such node. */
  ghost predicate IsDeepestCommon(c: TreeNode, a: TreeNode, b: TreeNode)
    requires a.Rooted() && b.Rooted() && c.Rooted()
  {
    && c in a.Up() && c in b.Up()
    && forall i :: 0 <= i < |a.Up()| && a.Up()[i] in b.Up() ==> a.Up()[i] in c.Up()
  }

  // ---------------------------------------------------------------- the chain of ancestors

  /** The ancestors of an ancestor are the rest of the chain. */
  lemma {:induction false} UpFrom(n: TreeNode, i: nat)
    requires n.Rooted() && i < |n.Up()|
    ensures n.Up()[i].Up() == n.Up()[i..]
    ensures i + 1 < |n.Up()| ==> n.Up()[i].parent == n.Up()[i + 1]
    ensures i + 1 == |n.Up()| ==> n.Up()[i].parent == null
    decreases n.depth
  {
    if i == 0 {
    } else {
      UpFrom(n.parent, i - 1);
      assert n.Up()[i] == n.parent.Up()[i - 1];
    }
  }

  lemma UpDistinct(n: TreeNode, i: nat, j: nat)
    requires n.Rooted() && i < |n.Up()| && j < |n.Up()|
    ensures i != j ==> n.Up()[i] != n.Up()[j]
  {
    UpFrom(n, i);
    UpFrom(n, j);
  }

  /** A common ancestor makes the chains agree from there to the root. */
  lemma CommonSuffix(a: TreeNode, b: TreeNode, i: nat, j: nat)
    requires a.Rooted() && b.Rooted() && i < |a.Up()| && j < |b.Up()| && a.Up()[i] == b.Up()[j]
    ensures a.Up()[i..] == b.Up()[j..]
  {
    UpFrom(a, i);
    UpFrom(b, j);
  }

  /** The longest common suffix of two chains starts at the deepest common ancestor. */
  lemma LongestSuffix(a: TreeNode, b: TreeNode, i: nat, j: nat)
    requires a.Rooted() && b.Rooted() && i < |a.Up()| && j < |b.Up()|
    requires a.Up()[i..] == b.Up()[j..]
    requires i == 0 || j == 0 || a.Up()[i - 1] != b.Up()[j - 1]
    ensures IsDeepestCommon(a.Up()[i], a, b)
  {
    var c := a.Up()[i];
    assert c == a.Up()[i..][0] == b.Up()[j..][0];
    UpFrom(a, i);
    forall k | 0 <= k < |a.Up()| && a.Up()[k] in b.Up() ensures a.Up()[k] in c.Up() {
      var l :| 0 <= l < |b.Up()| && b.Up()[l] == a.Up()[k];
      CommonSuffix(a, b, k, l);
      if k >= i {
        assert a.Up()[k] == a.Up()[i..][k - i];
      }
    }
  }

  // ---------------------------------------------------------------- the source's procedures

  /** d3_layout_bundleAncestors. */
  method Ancestors(node: TreeNode) returns (ancestors: seq<TreeNode>)
    requires node.Rooted()
    ensures ancestors == node.Up()
  {
    ancestors := [];
    var n: TreeNode, parent := node, node.parent;
    while parent != null
      invariant n.Rooted() && parent == n.parent && ancestors + n.Up() == node.Up()
      decreases n.depth
    {
      ancestors := ancestors + [n];
      n := parent;
      parent := parent.parent;
    }
    ancestors := ancestors + [n];
  }

  /** Array.prototype.pop: the last element, or nothing from an empty array. */
  method Pop(s: seq<TreeNode>) returns (last: TreeNode?, rest: seq<TreeNode>)
    ensures if s == [] then last == null && rest == [] else last != null && s == rest + [last]
  {
    if s == [] {
      last, rest := null, [];
    } else {
      last, rest := s[|s| - 1], s[..|s| - 1];
    }
  }

  /** After t elements have matched, the next one is in hand (nothing, when there is none) and the others wait. */
  ghost predicate Unread(up: seq<TreeNode>, t: nat, node: TreeNode?, rest: seq<TreeNode>) {
    && t <= |up|
    && if t == |up| then node == null && rest == [] else node == up[|up| - t - 1] && rest == up[..|up| - t - 1]
  }

  lemma UnreadStarts(up: seq<TreeNode>, node: TreeNode?, rest: seq<TreeNode>)
    requires node != null && up == rest + [node]
    ensures Unread(up, 0, node, rest)
  {}

  lemma UnreadStep(up: seq<TreeNode>, t: nat, s: seq<TreeNode>, last: TreeNode?, rest: seq<TreeNode>)
    requires t < |up| && Unread(up, t, up[|up| - t - 1], s)
    requires if s == [] then last == null && rest == [] else last != null && s == rest + [last]
    ensures Unread(up, t + 1, last, rest)
  {}

  /** Chains with different ends cannot both run out, so the elements just compared equal are nodes. */
  lemma NotBothSpent(x: seq<TreeNode>, y: seq<TreeNode>, t: nat, node: TreeNode?, u: seq<TreeNode>, v: seq<TreeNode>)
    requires |x| > 0 && |y| > 0 && x[0] != y[0] && Unread(x, t, node, u) && Unread(y, t, node, v)
    requires x[|x| - t..] == y[|y| - t..]
    ensures node != null && t < |x| && t < |y| && node == x[|x| - t - 1] == y[|y| - t - 1]
  {
    FirstOfSuffix(x);
    FirstOfSuffix(y);
  }

  lemma FirstOfSuffix(x: seq<TreeNode>)
    requires |x| > 0
    ensures x[0..][0] == x[0]
  {}

  lemma StopsApart(x: seq<TreeNode>, y: seq<TreeNode>, t: nat, aNode: TreeNode?, aNodes: seq<TreeNode>,
                   bNode: TreeNode?, bNodes: seq<TreeNode>)
    requires Unread(x, t, aNode, aNodes) && Unread(y, t, bNode, bNodes) && aNode != bNode
    ensures t <= |x| && t <= |y|
    ensures t == |x| || t == |y| || x[|x| - t - 1] != y[|y| - t - 1]
  {}

  lemma DeepestIsCommon(c: TreeNode, a: TreeNode, b: TreeNode)
    requires a.Rooted() && b.Rooted() && c.Rooted() && IsDeepestCommon(c, a, b)
    ensures c in a.Up() && c in b.Up()
  {}

  lemma SelfDeepest(a: TreeNode)
    requires a.Rooted()
    ensures IsDeepestCommon(a, a, a)
  {}

  lemma SuffixGrows(x: seq<TreeNode>, y: seq<TreeNode>, t: nat)
    requires t < |x| && t < |y| && x[|x| - t..] == y[|y| - t..] && x[|x| - t - 1] == y[|y| - t - 1]
    ensures x[|x| - t - 1..] == y[|y| - t - 1..]
  {
    var i, j := |x| - t - 1, |y| - t - 1;
    assert x[i..] == [x[i]] + x[i + 1..] && y[j..] == [y[j]] + y[j + 1..];
  }

  lemma SharedRoot(x: seq<TreeNode>, y: seq<TreeNode>, t: nat)
    requires t <= |x| && t <= |y| && |x| > 0 && |y| > 0 && x[|x| - t..] == y[|y| - t..]
    ensures t > 0 ==> x[|x| - 1] == y[|y| - 1]
  {
    if t > 0 {
      assert x[|x| - 1] == x[|x| - t..][t - 1] == y[|y| - t..][t - 1];
    }
  }

  /** The loop of d3_layout_bundleLeastCommonAncestor, on the two chains: the last of the t equal elements from the end. */
  method LastShared(x: seq<TreeNode>, y: seq<TreeNode>) returns (shared: TreeNode?, ghost t: nat)
    requires |x| > 0 && |y| > 0 && x[0] != y[0]
    ensures t <= |x| && t <= |y| && x[|x| - t..] == y[|y| - t..]
    ensures t == |x| || t == |y| || x[|x| - t - 1] != y[|y| - t - 1]
    ensures if t == 0 then shared == null else shared == x[|x| - t]
  {
    hide Unread;
    var aNode, aNodes := Pop(x);
    var bNode, bNodes := Pop(y);
    UnreadStarts(x, aNode, aNodes);
    UnreadStarts(y, bNode, bNodes);
    shared, t := null, 0;
    while aNode == bNode
      invariant t <= |x| && t <= |y|
      invariant Unread(x, t, aNode, aNodes) && Unread(y, t, bNode, bNodes)
      invariant x[|x| - t..] == y[|y| - t..]
      invariant if t == 0 then shared == null else shared == x[|x| - t]
      decreases |x| - t
    {
      NotBothSpent(x, y, t, aNode, aNodes, bNodes);
      SuffixGrows(x, y, t);
      shared := aNode;
      ghost var u, v := aNodes, bNodes;
      aNode, aNodes := Pop(aNodes);
      bNode, bNodes := Pop(bNodes);
      UnreadStep(x, t, u, aNode, aNodes);
      UnreadStep(y, t, v, bNode, bNodes);
      t := t + 1;
    }
    StopsApart(x, y, t, aNode, aNodes, bNode, bNodes);
  }

  /** The t last elements are the longest that both chains have in common. */
  lemma SharedIsDeepest(a: TreeNode, b: TreeNode, t: nat)
    requires a.Rooted() && b.Rooted() && t <= |a.Up()| && t <= |b.Up()|
    requires a.Up()[|a.Up()| - t..] == b.Up()[|b.Up()| - t..]
    requires t == |a.Up()| || t == |b.Up()| || a.Up()[|a.Up()| - t - 1] != b.Up()[|b.Up()| - t - 1]
    ensures t == 0 <==> Root(a) != Root(b)
    ensures t > 0 ==> IsDeepestCommon(a.Up()[|a.Up()| - t], a, b)
  {
    hide TreeNode.Rooted, TreeNode.Up, IsDeepestCommon;
    SharedRoot(a.Up(), b.Up(), t);
    if t > 0 {
      LongestSuffix(a, b, |a.Up()| - t, |b.Up()| - t);
    }
  }

  /** d3_layout_bundleLeastCommonAncestor; null stands for no shared node. */
  method LeastCommonAncestor(a: TreeNode, b: TreeNode) returns (shared: TreeNode?)
    requires a.Rooted() && b.Rooted()
    ensures shared == null <==> Root(a) != Root(b)
    ensures shared != null ==> shared.Rooted() && IsDeepestCommon(shared, a, b)
  {
    hide TreeNode.Rooted, TreeNode.Up, IsDeepestCommon;
    if a == b {
      SelfDeepest(a);
      return a;
    }
    var aNodes := Ancestors(a);
    var bNodes := Ancestors(b);
    ghost var t: nat;
    shared, t := LastShared(aNodes, bNodes);
    hide Root;
    SharedIsDeepest(a, b, t);
  }

  // ---------------------------------------------------------------- the path

  /**
   * The points go up from a to the deepest common ancestor, at position m, and down to b; each step is between a node
   * and its parent, and no node is met twice.
   */
  ghost predicate IsPath(points: seq<TreeNode>, m: nat, a: TreeNode, b: TreeNode)
    requires a.Rooted() && b.Rooted()
  {
    && m < |points| && points[0] == a && points[|points| - 1] == b
    && points[m].Rooted() && IsDeepestCommon(points[m], a, b)
    && (forall i :: 0 <= i < m ==> StepsUp(points, i))
    && (forall i :: m <= i < |points| - 1 ==> StepsDown(points, i))
    && (forall i, j :: 0 <= i < j < |points| ==> points[i] != points[j])
  }

  predicate StepsUp(points: seq<TreeNode>, i: nat)
    requires i + 1 < |points|
  {
    points[i].parent == points[i + 1]
  }

  predicate StepsDown(points: seq<TreeNode>, i: nat)
    requires i + 1 < |points|
  {
    points[i + 1].parent == points[i]
  }

  lemma UpAndDown(a: TreeNode, b: TreeNode, i: nat, j: nat)
    requires a.Rooted() && b.Rooted() && i < |a.Up()| && j < |b.Up()| && a.Up()[i] == b.Up()[j]
    requires IsDeepestCommon(a.Up()[i], a, b)
    ensures IsPath(a.Up()[..i + 1] + Reversed(b.Up()[..j]), i, a, b)
  {
    hide TreeNode.Up, TreeNode.Rooted, IsDeepestCommon, Reversed, StepsUp, StepsDown;
    var points := a.Up()[..i + 1] + Reversed(b.Up()[..j]);
    assert points[0] == a && points[i] == a.Up()[i] && points[|points| - 1] == b by {
      OnPath(a.Up(), b.Up(), i, j);
    }
    PathSteps(a, b, i, j);
    PathMeetsOnce(a, b, i, j);
  }

  lemma PathSteps(a: TreeNode, b: TreeNode, i: nat, j: nat)
    requires a.Rooted() && b.Rooted() && i < |a.Up()| && j < |b.Up()| && a.Up()[i] == b.Up()[j]
    ensures var points := a.Up()[..i + 1] + Reversed(b.Up()[..j]);
      (forall k :: 0 <= k < i ==> StepsUp(points, k)) && (forall k :: i <= k < |points| - 1 ==> StepsDown(points, k))
  {
    OnPath(a.Up(), b.Up(), i, j);
    hide TreeNode.Up, TreeNode.Rooted, Reversed, StepsUp, StepsDown;
    var points := a.Up()[..i + 1] + Reversed(b.Up()[..j]);
    forall k | 0 <= k < i ensures StepsUp(points, k) {
      UpStep(a, points, k);
    }
    forall k | i <= k < |points| - 1 ensures StepsDown(points, k) {
      DownStep(b, points, k, i + j - k - 1);
    }
  }

  lemma PathMeetsOnce(a: TreeNode, b: TreeNode, i: nat, j: nat)
    requires a.Rooted() && b.Rooted() && i < |a.Up()| && j < |b.Up()| && a.Up()[i] == b.Up()[j]
    requires IsDeepestCommon(a.Up()[i], a, b)
    ensures var points := a.Up()[..i + 1] + Reversed(b.Up()[..j]);
      forall k, l :: 0 <= k < l < |points| ==> points[k] != points[l]
  {
    OnPath(a.Up(), b.Up(), i, j);
    hide TreeNode.Up, TreeNode.Rooted, IsDeepestCommon, Reversed;
    var points := a.Up()[..i + 1] + Reversed(b.Up()[..j]);
    forall k, l | 0 <= k < l < |points| ensures points[k] != points[l] {
      MeetOnce(a, b, i, j, k, l);
    }
  }

  /** Which node stands where on the path. */
  lemma OnPath(x: seq<TreeNode>, y: seq<TreeNode>, i: nat, j: nat)
    requires i < |x| && j < |y| && x[i] == y[j]
    ensures |x[..i + 1] + Reversed(y[..j])| == i + j + 1
    ensures forall k :: 0 <= k <= i ==> (x[..i + 1] + Reversed(y[..j]))[k] == x[k]
    ensures forall k :: 0 <= k < j ==> (x[..i + 1] + Reversed(y[..j]))[i + j - k] == y[k]
  {}

  lemma MeetOnce(a: TreeNode, b: TreeNode, i: nat, j: nat, k: nat, l: nat)
    requires a.Rooted() && b.Rooted() && i < |a.Up()| && j < |b.Up()| && a.Up()[i] == b.Up()[j]
    requires IsDeepestCommon(a.Up()[i], a, b) && k < l <= i + j
    ensures (if k <= i then a.Up()[k] else b.Up()[i + j - k]) != (if l <= i then a.Up()[l] else b.Up()[i + j - l])
  {
    hide TreeNode.Up, TreeNode.Rooted, IsDeepestCommon;
    if l <= i {
      UpDistinct(a, k, l);
    } else if k > i {
      UpDistinct(b, i + j - k, i + j - l);
    } else {
      Aside(a, b, i, j, k, i + j - l);
    }
  }

  lemma UpStep(a: TreeNode, points: seq<TreeNode>, k: nat)
    requires a.Rooted() && k + 1 < |a.Up()| && k + 1 < |points|
    requires points[k] == a.Up()[k] && points[k + 1] == a.Up()[k + 1]
    ensures StepsUp(points, k)
  {
    UpFrom(a, k);
  }

  lemma DownStep(b: TreeNode, points: seq<TreeNode>, k: nat, l: nat)
    requires b.Rooted() && l + 1 < |b.Up()| && k + 1 < |points|
    requires points[k] == b.Up()[l + 1] && points[k + 1] == b.Up()[l]
    ensures StepsDown(points, k)
  {
    UpFrom(b, l);
  }

  /** Below their deepest common ancestor the two chains share nothing. */
  lemma Aside(a: TreeNode, b: TreeNode, i: nat, j: nat, k: nat, l: nat)
    requires a.Rooted() && b.Rooted() && k <= i < |a.Up()| && l < j < |b.Up()| && a.Up()[i] == b.Up()[j]
    requires IsDeepestCommon(a.Up()[i], a, b)
    ensures a.Up()[k] != b.Up()[l]
  {
    var c := a.Up()[i];
    UpFrom(a, i);
    UpDistinct(b, l, j);
    if a.Up()[k] in b.Up() {
      var p :| 0 <= p < |c.Up()| && c.Up()[p] == a.Up()[k];
      UpDistinct(a, k, i + p);
    }
  }

  /** d3_layout_bundlePath: None where the source reads the parent of an undefined node. */
  method BundlePath(source: TreeNode, target: TreeNode) returns (path: Option<seq<TreeNode>>)
    requires source.Rooted() && target.Rooted()
    ensures path.None? <==> Root(source) != Root(target)
    ensures path.Some? ==> exists m :: IsPath(path.value, m, source, target)
  {
    hide TreeNode.Up, TreeNode.Rooted, IsDeepestCommon, Reversed, IsPath;
    var lca := LeastCommonAncestor(source, target);
    var start, end, points := source, target, [source];
    ghost var i: nat, j: nat := 0, 0;
    ghost var p, q := PositionOf(lca, source), PositionOf(lca, target);
    if lca != null {
      DeepestIsCommon(lca, source, target);
    }
    while start != lca
      invariant i <= p < |source.Up()| && start == source.Up()[i] && points == source.Up()[..i + 1]
      invariant lca != null ==> source.Up()[p] == lca
      decreases |source.Up()| - i
    {
      UpFrom(source, i);
      if start.parent == null {
        return None;
      }
      start := start.parent;
      points := points + [start];
      i := i + 1;
    }
    UpDistinct(source, i, p);
    var k := |points|;
    while end != lca
      invariant j <= q < |target.Up()| && target.Up()[q] == lca && end == target.Up()[j]
      invariant points == source.Up()[..i + 1] + Reversed(target.Up()[..j])
      decreases q - j
    {
      UpFrom(target, j);
      ReversedStep(target.Up(), j);
      points := points[..k] + [end] + points[k..];
      end := end.parent;
      j := j + 1;
    }
    UpAndDown(source, target, i, j);
    path := Some(points);
  }

  ghost function PositionOf(c: TreeNode?, n: TreeNode): (i: nat)
    requires n.Rooted()
    ensures i < |n.Up()|
    ensures c != null && c in n.Up() ==> n.Up()[i] == c
    ensures c == null ==> i + 1 == |n.Up()|
  {
    if c != null && c in n.Up() then
      var i :| 0 <= i < |n.Up()| && n.Up()[i] == c;
      i
    else |n.Up()| - 1
  }
}
