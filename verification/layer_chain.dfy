/**
 * The ancestor chain a layer keeps: each element from the root down to the
 * target stays in place with its own tag, id and attributes, only its element
 * children pruned.
 */
module LayerChain {
  import opened SvgTree
  import opened LayerPrune

  /** Every child of `n` that is a definition element or not an element at all is
    * also a child of `m`. */
  predicate WholeKept(m: Node, n: Node)
    requires m.Element? && n.Element?
  {
    forall i :: 0 <= i < |n.children| && (!n.children[i].Element? || IsDefinitional(n.children[i])) ==>
      n.children[i] in m.children
  }

  /** `m` is the pruned copy of `n` followed down `q`, as `n` is followed down
    * `rest`: each element on the way keeps its tag, id and attributes and every
    * child `WholeKept` names, and the two paths end at the same node. */
  predicate KeptAlong(m: Node, n: Node, q: Path, rest: Path)
    decreases |rest|
  {
    |q| == |rest| &&
    if rest == [] then m == n
    else
      m.Element? && n.Element? && q[0] < |m.children| && rest[0] < |n.children|
      && m == n.(children := m.children) && WholeKept(m, n)
      && KeptAlong(m.children[q[0]], n.children[rest[0]], q[1..], rest[1..])
  }

  lemma {:induction false} KeptAlongSelf(n: Node, rest: Path)
    requires ValidPath(n, rest)
    ensures KeptAlong(n, n, rest, rest)
    decreases |rest|
  {
    if rest != [] {
      KeptAlongSelf(n.children[rest[0]], rest[1..]);
    }
  }

  /** `Clean` on a node whose path leads on to the target keeps it, pruned along
    * the rest of the path. */
  lemma {:induction false} CleanAlong(n: Node, path: Path, rest: Path, target: Path) returns (q: Path)
    requires target == path + rest && ValidPath(n, rest)
    ensures var c := Clean(n, path, target, AncestorSet(target));
      c.Some? && KeptAlong(c.value, n, q, rest)
    decreases |rest|, 1
  {
    if !n.Element? || IsDefinitional(n) || path == target {
      KeptAlongSelf(n, rest);
      q := rest;
    } else {
      AncestorSetIff(target, path);
      q := PrunedAlong(n, path, rest, target);
    }
  }

  /** An element on the chain with its children cleaned is pruned along the rest of the path. */
  lemma {:induction false} PrunedAlong(n: Node, path: Path, rest: Path, target: Path) returns (q: Path)
    requires target == path + rest && rest != [] && ValidPath(n, rest)
    ensures KeptAlong(n.(children := CleanChildren(n.children, 0, path, target, AncestorSet(target))), n, q, rest)
    decreases |rest|, 0
  {
    var anc := AncestorSet(target);
    var m := n.(children := CleanChildren(n.children, 0, path, target, anc));
    var j := rest[0];
    assert target == (path + [j]) + rest[1..];
    var q' := CleanAlong(n.children[j], path + [j], rest[1..], target);
    CleanChildrenKeeps(n.children, 0, j, path, target, anc);
    var c := Clean(n.children[j], path + [j], target, anc).value;
    var k :| 0 <= k < |m.children| && m.children[k] == c;
    forall i | 0 <= i < |n.children| && (!n.children[i].Element? || IsDefinitional(n.children[i]))
      ensures n.children[i] in m.children
    {
      CleanChildrenKeeps(n.children, 0, i, path, target, anc);
    }
    q := [k] + q';
    assert q[1..] == q';
  }

  /** Level `k` of a pruned chain: the `k`-th node along `q` in `m` is the `k`-th
    * node along `rest` in `n` with only its children changed, and it keeps every
    * child `WholeKept` names. */
  predicate LevelKept(m: Node, n: Node, q: Path, rest: Path, k: nat) {
    k < |q| && k < |rest| && ValidPath(m, q[..k]) && ValidPath(n, rest[..k])
    && At(m, q[..k]).Element? && At(n, rest[..k]).Element?
    && At(m, q[..k]) == At(n, rest[..k]).(children := At(m, q[..k]).children)
    && WholeKept(At(m, q[..k]), At(n, rest[..k]))
  }

  lemma PathStep(n: Node, p: Path, k: nat)
    requires 0 < k <= |p| && n.Element? && p[0] < |n.children| && ValidPath(n.children[p[0]], p[1..][..k - 1])
    ensures ValidPath(n, p[..k]) && At(n, p[..k]) == At(n.children[p[0]], p[1..][..k - 1])
  {
    var s := p[..k];
    assert s[0] == p[0] && s[1..] == p[1..][..k - 1];
  }

  lemma {:induction false} KeptAlongLevels(m: Node, n: Node, q: Path, rest: Path)
    requires KeptAlong(m, n, q, rest)
    ensures |q| == |rest| && ValidPath(m, q) && ValidPath(n, rest) && At(m, q) == At(n, rest)
    ensures forall k :: 0 <= k < |rest| ==> LevelKept(m, n, q, rest, k)
    decreases |rest|
  {
    if rest != [] {
      var mc := m.children[q[0]];
      var nc := n.children[rest[0]];
      KeptAlongLevels(mc, nc, q[1..], rest[1..]);
      forall k | 0 <= k < |rest|
        ensures LevelKept(m, n, q, rest, k)
      {
        if k == 0 {
          assert q[..0] == [] && rest[..0] == [];
        } else {
          assert LevelKept(mc, nc, q[1..], rest[1..], k - 1);
          PathStep(m, q, k);
          PathStep(n, rest, k);
        }
      }
    }
  }

  /**
   * The layer of an element below the root keeps its ancestor chain: there is a
   * path `q` in the layer, as long as the target's, such that the node at each
   * level of `q` is the ancestor at that level with its tag, id, attributes and
   * nesting intact and only its children pruned, keeping every definition
   * element and non-element child the ancestor has; and `q` leads to the target
   * with its whole subtree unchanged.
   */
  lemma LayerKeepsChain(doc: Node, target: Path) returns (q: Path)
    requires ValidPath(doc, target) && |target| >= 1
    ensures var layer := Layer(doc, target, AncestorSet(target));
      |q| == |target| && ValidPath(layer, q) && At(layer, q) == At(doc, target)
      && forall k :: 0 <= k < |target| ==> LevelKept(layer, doc, q, target, k)
  {
    assert [] + target == target;
    q := PrunedAlong(doc, [], target, target);
    KeptAlongLevels(Layer(doc, target, AncestorSet(target)), doc, q, target);
  }
}
