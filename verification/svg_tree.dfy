/**
 * A parsed SVG document as an immutable tree, the selection of graphical
 * primitives the layer export performs (`querySelectorAll` in document order),
 * `getElementById`, and writing an element's `id`.
 *
 * A node is identified by its path: the child indices that lead to it from the
 * root element. The path of the root element is `[]`.
 */
module SvgTree {
  import opened TextOps

  datatype Option<T> = None | Some(value: T)

  datatype Attribute = Attribute(name: string, value: string)

  /** An element carries its `id` apart from its other attributes; `""` stands for no id.
    * `Text` stands for every non-element node (text, comments, processing instructions). */
  datatype Node =
    | Element(tag: string, id: string, attrs: seq<Attribute>, children: seq<Node>)
    | Text(data: string)

  type Path = seq<nat>

  predicate ValidPath(n: Node, p: Path)
    decreases |p|
  {
    p == [] || (n.Element? && p[0] < |n.children| && ValidPath(n.children[p[0]], p[1..]))
  }

  function At(n: Node, p: Path): Node
    requires ValidPath(n, p)
    decreases |p|
  {
    if p == [] then n else At(n.children[p[0]], p[1..])
  }

  /** The element at `p` exists and carries the id `id`. */
  predicate HasId(n: Node, p: Path, id: string) {
    ValidPath(n, p) && At(n, p).Element? && At(n, p).id == id
  }

  // ---------------------------------------------------------------------------
  // Document order
  // ---------------------------------------------------------------------------

  /** `p` comes before `q` in document order (pre-order): `p` is a proper
    * ancestor of `q`, or lies in an earlier sibling subtree. */
  predicate Before(p: Path, q: Path)
    decreases |p|
  {
    q != [] && (p == [] || p[0] < q[0] || (p[0] == q[0] && Before(p[1..], q[1..])))
  }

  predicate InDocumentOrder(ps: seq<Path>) {
    forall a, b :: 0 <= a < b < |ps| ==> Before(ps[a], ps[b])
  }

  lemma {:induction false} BeforeIrreflexive(p: Path)
    ensures !Before(p, p)
    decreases |p|
  {
    if p != [] {
      BeforeIrreflexive(p[1..]);
    }
  }

  lemma BeforeUnder(i: nat, p: Path, q: Path)
    ensures Before([i] + p, [i] + q) == Before(p, q)
  {
    assert ([i] + p)[1..] == p && ([i] + q)[1..] == q;
  }

  lemma InDocumentOrderDistinct(ps: seq<Path>)
    requires InDocumentOrder(ps)
    ensures forall a, b :: 0 <= a < b < |ps| ==> ps[a] != ps[b]
  {
    forall a, b | 0 <= a < b < |ps|
      ensures ps[a] != ps[b]
    {
      BeforeIrreflexive(ps[a]);
    }
  }

  // ---------------------------------------------------------------------------
  // Selection of the graphical primitives
  // ---------------------------------------------------------------------------

  /** The selector `path, rect, circle, ellipse, line, polyline, polygon, text, image, use`;
    * in an XML document the match on the tag is case-sensitive. */
  const PrimitiveTags: set<string> :=
    {"path", "rect", "circle", "ellipse", "line", "polyline", "polygon", "text", "image", "use"}

  predicate IsPrimitive(n: Node) {
    n.Element? && n.tag in PrimitiveTags
  }

  function Under(i: nat, ps: seq<Path>): (qs: seq<Path>)
    ensures |qs| == |ps|
    ensures forall k :: 0 <= k < |ps| ==> qs[k] == [i] + ps[k]
  {
    seq(|ps|, k requires 0 <= k < |ps| => [i] + ps[k])
  }

  /** Paths of the primitives of the tree rooted at `n`, in document order. */
  function Primitives(n: Node): seq<Path>
    decreases n
  {
    (if IsPrimitive(n) then [[]] else []) + (if n.Element? then PrimitivesFrom(n.children, 0) else [])
  }

  /** Paths (relative to the parent of `cs`) of the primitives under `cs[i..]`. */
  function PrimitivesFrom(cs: seq<Node>, i: nat): seq<Path>
    requires i <= |cs|
    decreases cs, |cs| - i
  {
    if i == |cs| then [] else Under(i, Primitives(cs[i])) + PrimitivesFrom(cs, i + 1)
  }

  /** Every selected path leads to a primitive. */
  lemma {:induction false} PrimitivesSound(n: Node)
    ensures forall q :: q in Primitives(n) ==> ValidPath(n, q) && IsPrimitive(At(n, q))
    decreases n
  {
    if n.Element? {
      PrimitivesFromSound(n.children, 0);
      forall q | q in PrimitivesFrom(n.children, 0)
        ensures ValidPath(n, q) && At(n, q) == At(n.children[q[0]], q[1..])
      {
      }
    }
  }

  lemma {:induction false} PrimitivesFromSound(cs: seq<Node>, i: nat)
    requires i <= |cs|
    ensures forall q :: q in PrimitivesFrom(cs, i) ==>
      |q| > 0 && i <= q[0] < |cs| && ValidPath(cs[q[0]], q[1..]) && IsPrimitive(At(cs[q[0]], q[1..]))
    decreases cs, |cs| - i
  {
    if i < |cs| {
      PrimitivesSound(cs[i]);
      PrimitivesFromSound(cs, i + 1);
      var u := Under(i, Primitives(cs[i]));
      forall q | q in u
        ensures |q| > 0 && q[0] == i && q[1..] in Primitives(cs[i])
      {
        var k :| 0 <= k < |u| && u[k] == q;
        assert q[1..] == Primitives(cs[i])[k];
      }
    }
  }

  /** Every primitive is selected. */
  lemma {:induction false} PrimitivesComplete(n: Node, p: Path)
    requires ValidPath(n, p) && IsPrimitive(At(n, p))
    ensures p in Primitives(n)
    decreases |p|
  {
    if p != [] {
      PrimitivesComplete(n.children[p[0]], p[1..]);
      PrimitivesFromComplete(n.children, 0, p[0], p[1..]);
      assert [p[0]] + p[1..] == p;
    }
  }

  lemma {:induction false} PrimitivesFromComplete(cs: seq<Node>, i: nat, j: nat, r: Path)
    requires i <= j < |cs| && r in Primitives(cs[j])
    ensures [j] + r in PrimitivesFrom(cs, i)
    decreases j - i
  {
    if i < j {
      PrimitivesFromComplete(cs, i + 1, j, r);
    } else {
      var k :| 0 <= k < |Primitives(cs[j])| && Primitives(cs[j])[k] == r;
      assert Under(j, Primitives(cs[j]))[k] == [j] + r;
    }
  }

  lemma ConcatInOrder(x: seq<Path>, y: seq<Path>)
    requires InDocumentOrder(x) && InDocumentOrder(y)
    requires forall p, q :: p in x && q in y ==> Before(p, q)
    ensures InDocumentOrder(x + y)
  {
    forall a, b | 0 <= a < b < |x + y|
      ensures Before((x + y)[a], (x + y)[b])
    {
      if b < |x| {
        assert (x + y)[a] == x[a] && (x + y)[b] == x[b];
      } else if a >= |x| {
        assert (x + y)[a] == y[a - |x|] && (x + y)[b] == y[b - |x|];
      } else {
        assert (x + y)[a] in x && (x + y)[b] in y;
      }
    }
  }

  /** The selection lists the primitives in document order, hence without repetition. */
  lemma {:induction false} PrimitivesInOrder(n: Node)
    ensures InDocumentOrder(Primitives(n))
    decreases n
  {
    if n.Element? {
      var rest := PrimitivesFrom(n.children, 0);
      PrimitivesFromInOrder(n.children, 0);
      PrimitivesFromSound(n.children, 0);
      ConcatInOrder(if IsPrimitive(n) then [[]] else [], rest);
    }
  }

  lemma {:induction false} PrimitivesFromInOrder(cs: seq<Node>, i: nat)
    requires i <= |cs|
    ensures InDocumentOrder(PrimitivesFrom(cs, i))
    decreases cs, |cs| - i
  {
    if i < |cs| {
      var ps := Primitives(cs[i]);
      var u := Under(i, ps);
      PrimitivesInOrder(cs[i]);
      PrimitivesFromInOrder(cs, i + 1);
      PrimitivesFromSound(cs, i + 1);
      forall a, b | 0 <= a < b < |u|
        ensures Before(u[a], u[b])
      {
        BeforeUnder(i, ps[a], ps[b]);
      }
      forall p, q | p in u && q in PrimitivesFrom(cs, i + 1)
        ensures Before(p, q)
      {
        var k :| 0 <= k < |u| && u[k] == p;
        assert p[0] == i;
      }
      ConcatInOrder(u, PrimitivesFrom(cs, i + 1));
    }
  }

  // ---------------------------------------------------------------------------
  // getElementById
  // ---------------------------------------------------------------------------

  /** The first element in document order whose id is `id`. */
  function Find(n: Node, id: string): Option<Path>
    decreases n
  {
    if !n.Element? then None
    else if n.id == id then Some([])
    else FindFrom(n.children, 0, id)
  }

  function FindFrom(cs: seq<Node>, i: nat, id: string): Option<Path>
    requires i <= |cs|
    decreases cs, |cs| - i
  {
    if i == |cs| then None
    else match Find(cs[i], id)
      case Some(p) => Some([i] + p)
      case None => FindFrom(cs, i + 1, id)
  }

  /** `document.getElementById(id)`; no element answers to the empty id. */
  function FindById(doc: Node, id: string): Option<Path> {
    if id == "" then None else Find(doc, id)
  }

  lemma {:induction false} FindSound(n: Node, id: string)
    ensures Find(n, id).Some? ==> HasId(n, Find(n, id).value, id)
    decreases n
  {
    if n.Element? && n.id != id {
      FindFromSound(n.children, 0, id);
    }
  }

  lemma {:induction false} FindFromSound(cs: seq<Node>, i: nat, id: string)
    requires i <= |cs|
    ensures FindFrom(cs, i, id).Some? ==>
      var q := FindFrom(cs, i, id).value;
      |q| > 0 && q[0] < |cs| && HasId(cs[q[0]], q[1..], id)
    decreases cs, |cs| - i
  {
    if i < |cs| {
      FindSound(cs[i], id);
      FindFromSound(cs, i + 1, id);
      if Find(cs[i], id).Some? {
        var q := FindFrom(cs, i, id).value;
        assert q[1..] == Find(cs[i], id).value;
      }
    }
  }

  /** Whenever some element carries `id`, the lookup succeeds, and the element
    * it returns is that one or an earlier one in document order. */
  lemma {:induction false} FindFirst(n: Node, p: Path, id: string)
    requires HasId(n, p, id)
    ensures Find(n, id).Some?
    ensures Find(n, id).value == p || Before(Find(n, id).value, p)
    decreases |p|
  {
    if p != [] && n.id != id {
      FindFirst(n.children[p[0]], p[1..], id);
      FindFromFirst(n.children, 0, p[0], p[1..], id);
    }
  }

  lemma {:induction false} FindFromFirst(cs: seq<Node>, i: nat, j: nat, r: Path, id: string)
    requires i <= j < |cs|
    requires Find(cs[j], id).Some?
    requires Find(cs[j], id).value == r || Before(Find(cs[j], id).value, r)
    ensures FindFrom(cs, i, id).Some?
    ensures FindFrom(cs, i, id).value == [j] + r || Before(FindFrom(cs, i, id).value, [j] + r)
    decreases j - i
  {
    if i < j {
      if Find(cs[i], id).None? {
        FindFromFirst(cs, i + 1, j, r, id);
      }
    } else {
      BeforeUnder(j, Find(cs[j], id).value, r);
    }
  }

  /** An element that alone carries a non-empty id is what `getElementById` returns. */
  lemma FindByIdUnique(n: Node, p: Path, id: string)
    requires id != "" && HasId(n, p, id)
    requires forall q :: HasId(n, q, id) ==> q == p
    ensures FindById(n, id) == Some(p)
  {
    FindFirst(n, p, id);
    FindSound(n, id);
  }

  // ---------------------------------------------------------------------------
  // Writing ids
  // ---------------------------------------------------------------------------

  /** `a` and `b` are the same tree except possibly for element ids. */
  predicate SameShape(a: Node, b: Node)
    decreases a
  {
    match a
    case Text(_) => b == a
    case Element(t, _, at, cs) =>
      b.Element? && b.tag == t && b.attrs == at && |b.children| == |cs|
      && forall i :: 0 <= i < |cs| ==> SameShape(cs[i], b.children[i])
  }

  lemma {:induction false} SameShapeRefl(a: Node)
    ensures SameShape(a, a)
    decreases a
  {
    if a.Element? {
      forall i | 0 <= i < |a.children|
        ensures SameShape(a.children[i], a.children[i])
      {
        SameShapeRefl(a.children[i]);
      }
    }
  }

  lemma {:induction false} SameShapeSym(a: Node, b: Node)
    requires SameShape(a, b)
    ensures SameShape(b, a)
    decreases a
  {
    if a.Element? {
      forall i | 0 <= i < |a.children|
        ensures SameShape(b.children[i], a.children[i])
      {
        SameShapeSym(a.children[i], b.children[i]);
      }
    }
  }

  lemma {:induction false} SameShapeTrans(a: Node, b: Node, c: Node)
    requires SameShape(a, b) && SameShape(b, c)
    ensures SameShape(a, c)
    decreases a
  {
    if a.Element? {
      forall i | 0 <= i < |a.children|
        ensures SameShape(a.children[i], c.children[i])
      {
        SameShapeTrans(a.children[i], b.children[i], c.children[i]);
      }
    }
  }

  /** Trees of the same shape have the same paths, leading to nodes of the same shape. */
  lemma {:induction false} SameShapeAt(a: Node, b: Node, p: Path)
    requires SameShape(a, b) && ValidPath(a, p)
    ensures ValidPath(b, p) && SameShape(At(a, p), At(b, p))
    decreases |p|
  {
    if p != [] {
      SameShapeAt(a.children[p[0]], b.children[p[0]], p[1..]);
    }
  }

  /** Ids play no part in the selection of primitives. */
  lemma {:induction false} SameShapePrimitives(a: Node, b: Node)
    requires SameShape(a, b)
    ensures Primitives(a) == Primitives(b)
    decreases a
  {
    if a.Element? {
      SameShapePrimitivesFrom(a.children, b.children, 0);
    }
  }

  lemma {:induction false} SameShapePrimitivesFrom(as_: seq<Node>, bs: seq<Node>, i: nat)
    requires |as_| == |bs| && i <= |as_|
    requires forall k :: 0 <= k < |as_| ==> SameShape(as_[k], bs[k])
    ensures PrimitivesFrom(as_, i) == PrimitivesFrom(bs, i)
    decreases as_, |as_| - i
  {
    if i < |as_| {
      SameShapePrimitives(as_[i], bs[i]);
      SameShapePrimitivesFrom(as_, bs, i + 1);
    }
  }

  /** `element.id = x` on the element at `p`; nothing changes when there is none. */
  function SetIdAt(n: Node, p: Path, x: string): Node
    decreases |p|
  {
    if !n.Element? then n
    else if p == [] then n.(id := x)
    else if p[0] < |n.children| then
      n.(children := n.children[p[0] := SetIdAt(n.children[p[0]], p[1..], x)])
    else n
  }

  /** Writing an id changes nothing but that id. */
  lemma {:induction false} SetIdAtShape(n: Node, p: Path, x: string)
    ensures SameShape(n, SetIdAt(n, p, x))
    decreases |p|
  {
    SameShapeRefl(n);
    if n.Element? && p != [] && p[0] < |n.children| {
      SetIdAtShape(n.children[p[0]], p[1..], x);
      forall i | 0 <= i < |n.children|
        ensures SameShape(n.children[i], SetIdAt(n, p, x).children[i])
      {
      }
    }
  }

  lemma {:induction false} SetIdAtId(n: Node, p: Path, x: string, q: Path)
    requires ValidPath(n, q) && At(n, q).Element?
    ensures ValidPath(SetIdAt(n, p, x), q) && At(SetIdAt(n, p, x), q).Element?
    ensures At(SetIdAt(n, p, x), q).id == if q == p then x else At(n, q).id
    decreases |q|
  {
    SetIdAtShape(n, p, x);
    SameShapeAt(n, SetIdAt(n, p, x), q);
    if q != [] && p != [] && p[0] < |n.children| && q[0] == p[0] {
      SetIdAtId(n.children[p[0]], p[1..], x, q[1..]);
      if q[1..] == p[1..] {
        assert q == [p[0]] + p[1..];
      }
    }
  }

  /** Writing back the id an element already has leaves the tree as it is. */
  lemma {:induction false} SetIdAtSame(n: Node, p: Path)
    requires ValidPath(n, p) && At(n, p).Element?
    ensures SetIdAt(n, p, At(n, p).id) == n
    decreases |p|
  {
    if p != [] {
      SetIdAtSame(n.children[p[0]], p[1..]);
    }
  }

  /** Writes `ids[k]` to the element at `ps[k]`, for every k in turn. */
  function WithIds(n: Node, ps: seq<Path>, ids: seq<string>): Node
    requires |ps| == |ids|
    decreases |ps|
  {
    if ps == [] then n
    else SetIdAt(WithIds(n, ps[..|ps| - 1], ids[..|ids| - 1]), ps[|ps| - 1], ids[|ids| - 1])
  }

  lemma {:induction false} WithIdsShape(n: Node, ps: seq<Path>, ids: seq<string>)
    requires |ps| == |ids|
    ensures SameShape(n, WithIds(n, ps, ids))
    decreases |ps|
  {
    if ps == [] {
      SameShapeRefl(n);
    } else {
      var m := WithIds(n, ps[..|ps| - 1], ids[..|ids| - 1]);
      WithIdsShape(n, ps[..|ps| - 1], ids[..|ids| - 1]);
      SetIdAtShape(m, ps[|ps| - 1], ids[|ids| - 1]);
      SameShapeTrans(n, m, WithIds(n, ps, ids));
    }
  }

  /** After writing, the element at `ps[k]` carries `ids[k]`, and every element
    * whose path is not listed keeps its id. */
  lemma {:induction false} WithIdsId(n: Node, ps: seq<Path>, ids: seq<string>, q: Path)
    requires |ps| == |ids|
    requires forall a, b :: 0 <= a < b < |ps| ==> ps[a] != ps[b]
    requires ValidPath(n, q) && At(n, q).Element?
    ensures ValidPath(WithIds(n, ps, ids), q) && At(WithIds(n, ps, ids), q).Element?
    ensures forall k :: 0 <= k < |ps| && ps[k] == q ==> At(WithIds(n, ps, ids), q).id == ids[k]
    ensures q !in ps ==> At(WithIds(n, ps, ids), q).id == At(n, q).id
    decreases |ps|
  {
    WithIdsShape(n, ps, ids);
    SameShapeAt(n, WithIds(n, ps, ids), q);
    if ps != [] {
      var last := |ps| - 1;
      var m := WithIds(n, ps[..last], ids[..last]);
      WithIdsId(n, ps[..last], ids[..last], q);
      SetIdAtId(m, ps[last], ids[last], q);
      forall k | 0 <= k < |ps| && ps[k] == q
        ensures At(WithIds(n, ps, ids), q).id == ids[k]
      {
        if k < last {
          assert ps[..last][k] == q;
        }
      }
      if q !in ps {
        assert q !in ps[..last];
      }
    }
  }

  // ---------------------------------------------------------------------------
  // Ids outside the selection
  // ---------------------------------------------------------------------------

  /** The non-empty ids carried by elements that are not primitives. */
  function NonPrimitiveIds(n: Node): set<string>
    decreases n
  {
    if !n.Element? then {}
    else (if !IsPrimitive(n) && n.id != "" then {n.id} else {}) + NonPrimitiveIdsFrom(n.children, 0)
  }

  function NonPrimitiveIdsFrom(cs: seq<Node>, i: nat): set<string>
    requires i <= |cs|
    decreases cs, |cs| - i
  {
    if i == |cs| then {} else NonPrimitiveIds(cs[i]) + NonPrimitiveIdsFrom(cs, i + 1)
  }

  lemma {:induction false} NonPrimitiveIdsComplete(n: Node, p: Path)
    requires ValidPath(n, p) && At(n, p).Element? && !IsPrimitive(At(n, p)) && At(n, p).id != ""
    ensures At(n, p).id in NonPrimitiveIds(n)
    decreases |p|
  {
    if p != [] {
      NonPrimitiveIdsComplete(n.children[p[0]], p[1..]);
      NonPrimitiveIdsFromComplete(n.children, 0, p[0]);
    }
  }

  lemma {:induction false} NonPrimitiveIdsFromComplete(cs: seq<Node>, i: nat, j: nat)
    requires i <= j < |cs|
    ensures NonPrimitiveIds(cs[j]) <= NonPrimitiveIdsFrom(cs, i)
    decreases j - i
  {
    if i < j {
      NonPrimitiveIdsFromComplete(cs, i + 1, j);
    }
  }
}
