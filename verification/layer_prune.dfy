/**
 * Pruning a copy of the document down to one layer: the ancestor chain of the
 * target, the pruning rules of `cleanTree`, and what a layer keeps and draws.
 */
module LayerPrune {
  import opened TextOps
  import opened SvgTree

  /** The tags of the elements kept whole in every layer. */
  predicate DefinitionTag(t: string) {
    t == "defs" || t == "style" || t == "metadata" || t == "title" || t == "desc"
  }

  /** Matched on the lower-cased tag. */
  predicate IsDefinitional(n: Node) {
    n.Element? && DefinitionTag(ToLower(n.tag))
  }

  /** No primitive tag is a definition tag. */
  lemma PrimitiveNotDefinitional(n: Node)
    requires IsPrimitive(n)
    ensures !IsDefinitional(n)
  {
    assert ToLower("path") == "path" && ToLower("rect") == "rect" && ToLower("circle") == "circle";
    assert ToLower("ellipse") == "ellipse" && ToLower("line") == "line" && ToLower("polyline") == "polyline";
    assert ToLower("polygon") == "polygon" && ToLower("text") == "text" && ToLower("image") == "image";
    assert ToLower("use") == "use";
  }

  /** The target and every element above it, up to and including the root element. */
  function AncestorSet(target: Path): set<Path> {
    set k | 0 <= k <= |target| :: target[..k]
  }

  /** A path is in the ancestor set exactly when it is a prefix of the target. */
  lemma AncestorSetIff(target: Path, a: Path)
    ensures a in AncestorSet(target) <==> |a| <= |target| && a == target[..|a|]
  {
    if |a| <= |target| && a == target[..|a|] {
      assert target[..|a|] in AncestorSet(target);
    }
  }

  /** The walk up `parentNode` from the target; `None` stands for the document
    * node, where the walk stops without adding it. */
  method CollectAncestors(target: Path) returns (ancestors: set<Path>)
    ensures ancestors == AncestorSet(target)
  {
    ancestors := {};
    var current: Option<Path> := Some(target);
    while current.Some?
      invariant current.Some? ==> |current.value| <= |target| && current.value == target[..|current.value|]
      invariant current.Some? ==> ancestors == set k | |current.value| < k <= |target| :: target[..k]
      invariant current.None? ==> ancestors == AncestorSet(target)
      decreases if current.Some? then |current.value| + 1 else 0
    {
      var c := current.value;
      ancestors := ancestors + {c};
      if c == [] {
        current := None;
      } else {
        current := Some(c[..|c| - 1]);
        assert target[..|c| - 1] == c[..|c| - 1];
      }
    }
  }

  /** `cleanTree` on the node `n` found at `path` of the copy: `None` when it is
    * removed. Only element children are visited; other nodes stay. */
  function Clean(n: Node, path: Path, target: Path, ancestors: set<Path>): Option<Node>
    decreases n
  {
    if !n.Element? then Some(n)
    else if IsDefinitional(n) then Some(n)
    else if path == target then Some(n)
    else if path in ancestors then Some(n.(children := CleanChildren(n.children, 0, path, target, ancestors)))
    else None
  }

  function CleanChildren(cs: seq<Node>, i: nat, path: Path, target: Path, ancestors: set<Path>): seq<Node>
    requires i <= |cs|
    decreases cs, |cs| - i
  {
    if i == |cs| then []
    else
      (match Clean(cs[i], path + [i], target, ancestors) case Some(c) => [c] case None => [])
      + CleanChildren(cs, i + 1, path, target, ancestors)
  }

  /** The layer for `target`: the root element stays, its children are cleaned. */
  function Layer(doc: Node, target: Path, ancestors: set<Path>): Node {
    if doc.Element? then doc.(children := CleanChildren(doc.children, 0, [], target, ancestors)) else doc
  }

  lemma {:induction false} CleanChildrenKeeps(cs: seq<Node>, i: nat, j: nat, path: Path, target: Path, ancestors: set<Path>)
    requires i <= j < |cs| && Clean(cs[j], path + [j], target, ancestors).Some?
    ensures Clean(cs[j], path + [j], target, ancestors).value in CleanChildren(cs, i, path, target, ancestors)
    decreases j - i
  {
    if i < j {
      CleanChildrenKeeps(cs, i + 1, j, path, target, ancestors);
    }
  }

  // ---------------------------------------------------------------------------
  // What a layer keeps
  // ---------------------------------------------------------------------------

  /** `sub` occurs in the tree rooted at `n`. */
  predicate Contains(n: Node, sub: Node)
    decreases n
  {
    n == sub || (n.Element? && exists i :: 0 <= i < |n.children| && Contains(n.children[i], sub))
  }

  lemma {:induction false} ContainsAt(n: Node, p: Path)
    requires ValidPath(n, p)
    ensures Contains(n, At(n, p))
    decreases |p|
  {
    if p != [] {
      ContainsAt(n.children[p[0]], p[1..]);
    }
  }

  lemma {:induction false} CleanKeepsTarget(n: Node, path: Path, rest: Path, target: Path)
    requires target == path + rest && ValidPath(n, rest)
    ensures var c := Clean(n, path, target, AncestorSet(target));
      c.Some? && Contains(c.value, At(n, rest))
    decreases |rest|
  {
    var anc := AncestorSet(target);
    if !n.Element? || IsDefinitional(n) || path == target {
      ContainsAt(n, rest);
    } else {
      assert rest != [];
      AncestorSetIff(target, path);
      var j := rest[0];
      CleanKeepsTarget(n.children[j], path + [j], rest[1..], target);
      CleanChildrenKeeps(n.children, 0, j, path, target, anc);
      var kept := CleanChildren(n.children, 0, path, target, anc);
      var c := Clean(n.children[j], path + [j], target, anc).value;
      var k :| 0 <= k < |kept| && kept[k] == c;
      assert Clean(n, path, target, anc).value.children[k] == c;
    }
  }

  /** Every layer of an element below the root holds that element with its whole
    * subtree unchanged. */
  lemma LayerKeepsTarget(doc: Node, target: Path)
    requires ValidPath(doc, target) && |target| >= 1
    ensures Contains(Layer(doc, target, AncestorSet(target)), At(doc, target))
  {
    var anc := AncestorSet(target);
    var j := target[0];
    assert target == [j] + target[1..] && [] + [j] == [j];
    CleanKeepsTarget(doc.children[j], [j], target[1..], target);
    CleanChildrenKeeps(doc.children, 0, j, [], target, anc);
    var kept := CleanChildren(doc.children, 0, [], target, anc);
    var c := Clean(doc.children[j], [j], target, anc).value;
    var k :| 0 <= k < |kept| && kept[k] == c;
    assert Layer(doc, target, anc).children[k] == c;
  }

  /** Whatever the target, every `defs`, `style`, `metadata`, `title` or `desc`
    * element directly under the root stays in the layer unchanged. */
  lemma LayerKeepsDefinitions(doc: Node, target: Path, i: nat)
    requires doc.Element? && i < |doc.children| && IsDefinitional(doc.children[i])
    ensures doc.children[i] in Layer(doc, target, AncestorSet(target)).children
  {
    CleanChildrenKeeps(doc.children, 0, i, [], target, AncestorSet(target));
  }

  // ---------------------------------------------------------------------------
  // What a layer draws
  // ---------------------------------------------------------------------------

  /** The primitives rendered from `n`, in document order: those not inside a
    * `defs`, `style`, `metadata`, `title` or `desc` element. */
  function Drawn(n: Node): seq<Node>
    decreases n
  {
    if !n.Element? || IsDefinitional(n) then []
    else (if IsPrimitive(n) then [n] else []) + DrawnSeq(n.children)
  }

  function DrawnSeq(cs: seq<Node>): seq<Node>
    decreases cs
  {
    if cs == [] then [] else Drawn(cs[0]) + DrawnSeq(cs[1..])
  }

  function DrawnOpt(o: Option<Node>): seq<Node> {
    if o.Some? then Drawn(o.value) else []
  }

  lemma DrawnSeqCons(c: Node, rest: seq<Node>)
    ensures DrawnSeq([c] + rest) == Drawn(c) + DrawnSeq(rest)
  {
    assert ([c] + rest)[1..] == rest;
  }

  /** A node off the target's ancestor chain is removed or draws nothing. */
  lemma CleanOffChain(n: Node, path: Path, target: Path)
    requires !(|path| <= |target| && path == target[..|path|])
    ensures DrawnOpt(Clean(n, path, target, AncestorSet(target))) == []
  {
    AncestorSetIff(target, path);
  }

  lemma {:induction false} CleanChildrenDrawn(cs: seq<Node>, i: nat, path: Path, target: Path)
    requires i <= |cs| && |path| < |target| && path == target[..|path|]
    ensures var j := target[|path|];
      DrawnSeq(CleanChildren(cs, i, path, target, AncestorSet(target)))
      == if i <= j < |cs| then DrawnOpt(Clean(cs[j], path + [j], target, AncestorSet(target))) else []
    decreases |cs| - i
  {
    var anc := AncestorSet(target);
    if i < |cs| {
      CleanChildrenDrawn(cs, i + 1, path, target);
      var o := Clean(cs[i], path + [i], target, anc);
      var rest := CleanChildren(cs, i + 1, path, target, anc);
      if o.Some? {
        DrawnSeqCons(o.value, rest);
      } else {
        assert CleanChildren(cs, i, path, target, anc) == rest;
      }
      if i != target[|path|] {
        CleanOffChain(cs[i], path + [i], target);
      }
    }
  }

  /** Nodes strictly above `rest` in `n` are neither primitives nor definitions. */
  predicate PlainChain(n: Node, rest: Path) {
    forall k :: 0 <= k < |rest| ==> ValidPrefix(n, rest, k) && !IsPrimitive(At(n, rest[..k])) && !IsDefinitional(At(n, rest[..k]))
  }

  predicate ValidPrefix(n: Node, p: Path, k: nat) {
    k <= |p| && ValidPath(n, p[..k])
  }

  lemma {:induction false} ValidPathPrefix(n: Node, p: Path, k: nat)
    requires ValidPath(n, p) && k <= |p|
    ensures ValidPath(n, p[..k])
    decreases k
  {
    if k > 0 {
      ValidPathPrefix(n.children[p[0]], p[1..], k - 1);
      assert p[..k] == [p[0]] + p[1..][..k - 1];
    }
  }

  lemma {:induction false} CleanDrawn(n: Node, path: Path, rest: Path, target: Path)
    requires target == path + rest && ValidPath(n, rest) && PlainChain(n, rest)
    ensures var c := Clean(n, path, target, AncestorSet(target));
      c.Some? && Drawn(c.value) == Drawn(At(n, rest))
    decreases |rest|
  {
    var anc := AncestorSet(target);
    if rest != [] {
      assert rest[..0] == [];
      AncestorSetIff(target, path);
      var j := rest[0];
      var child := n.children[j];
      forall k | 0 <= k < |rest[1..]|
        ensures ValidPrefix(child, rest[1..], k)
        ensures At(child, rest[1..][..k]) == At(n, rest[..k + 1])
      {
        ValidPathPrefix(child, rest[1..], k);
        assert rest[..k + 1] == [j] + rest[1..][..k];
      }
      CleanDrawn(child, path + [j], rest[1..], target);
      assert target[..|path|] == path && target[|path|] == j;
      CleanChildrenDrawn(n.children, 0, path, target);
    }
  }

  /** When neither the root nor any element between it and the target is itself a
    * primitive or a definition element, the layer draws exactly what the target's
    * own subtree draws, and nothing from elsewhere in the document. */
  lemma LayerDrawsTarget(doc: Node, target: Path)
    requires ValidPath(doc, target) && |target| >= 1 && PlainChain(doc, target)
    ensures Drawn(Layer(doc, target, AncestorSet(target))) == Drawn(At(doc, target))
  {
    var j := target[0];
    var child := doc.children[j];
    assert target[..0] == [];
    forall k | 0 <= k < |target[1..]|
      ensures ValidPrefix(child, target[1..], k)
      ensures At(child, target[1..][..k]) == At(doc, target[..k + 1])
    {
      ValidPathPrefix(child, target[1..], k);
      assert target[..k + 1] == [j] + target[1..][..k];
    }
    assert target == [j] + target[1..] && [] + [j] == [j];
    CleanDrawn(child, [j], target[1..], target);
    CleanChildrenDrawn(doc.children, 0, [], target);
  }

  lemma {:induction false} CleanDrawnInDefinition(n: Node, path: Path, rest: Path, target: Path)
    requires |path + rest| <= |target| && target[..|path + rest|] == path + rest
    requires ValidPath(n, rest) && PlainChain(n, rest) && IsDefinitional(At(n, rest))
    ensures DrawnOpt(Clean(n, path, target, AncestorSet(target))) == []
    decreases |rest|
  {
    if rest != [] {
      assert rest[..0] == [];
      assert target[..|path|] == path by {
        assert (path + rest)[..|path|] == path;
      }
      AncestorSetIff(target, path);
      var j := rest[0];
      var child := n.children[j];
      forall k | 0 <= k < |rest[1..]|
        ensures ValidPrefix(child, rest[1..], k)
        ensures At(child, rest[1..][..k]) == At(n, rest[..k + 1])
      {
        ValidPathPrefix(child, rest[1..], k);
        assert rest[..k + 1] == [j] + rest[1..][..k];
      }
      assert path + rest == (path + [j]) + rest[1..];
      CleanDrawnInDefinition(child, path + [j], rest[1..], target);
      assert target[|path|] == (path + rest)[|path|] == j;
      CleanChildrenDrawn(n.children, 0, path, target);
    }
  }

  /** When the target lies inside a definition element (its own definitional
    * ancestor at depth `k`, with plain elements above), its layer draws nothing:
    * the shape appears in the layer only as part of the kept definitions. */
  lemma LayerOfDefinitionDrawsNothing(doc: Node, target: Path, k: nat)
    requires 1 <= k <= |target| && ValidPath(doc, target[..k])
    requires PlainChain(doc, target[..k]) && IsDefinitional(At(doc, target[..k]))
    ensures Drawn(Layer(doc, target, AncestorSet(target))) == []
  {
    var chain := target[..k];
    var j := target[0];
    var child := doc.children[j];
    assert chain[..0] == [];
    forall i | 0 <= i < |chain[1..]|
      ensures ValidPrefix(child, chain[1..], i)
      ensures At(child, chain[1..][..i]) == At(doc, chain[..i + 1])
    {
      ValidPathPrefix(child, chain[1..], i);
      assert chain[..i + 1] == [j] + chain[1..][..i];
    }
    assert chain == [j] + chain[1..] && [] + [j] == [j];
    assert [j] + chain[1..] == target[..k];
    CleanDrawnInDefinition(child, [j], chain[1..], target);
    CleanChildrenDrawn(doc.children, 0, [], target);
  }
}
