/**
 * The id pass of the layer export: each selected primitive, in document order,
 * keeps a non-empty id no earlier primitive took, and otherwise gets a
 * synthesised one of the form `<tag>_<position>` or `<tag>_<position>_<counter>`.
 */
module LayerIds {
  import opened TextOps
  import opened SvgTree

  /** What the id pass reads from a selected primitive. */
  datatype Shape = Shape(tag: string, id: string)

  function Elems(s: seq<string>): set<string> {
    set x | x in s
  }

  lemma ElemsSnoc(s: seq<string>, x: string)
    ensures Elems(s + [x]) == Elems(s) + {x}
  {
  }

  /** `${baseName}_${index + 1}`, the base name being the lower-cased tag. */
  function Stem(tag: string, index: nat): string {
    ToLower(tag) + "_" + Dec(index + 1)
  }

  /** `${baseName}_${index + 1}_${counter}`. */
  function Suffixed(stem: string, k: nat): string {
    stem + "_" + Dec(k)
  }

  /** The candidates the counter loop has tried once it reaches `k`. */
  function Tried(stem: string, k: nat): set<string> {
    set j | 1 <= j < k :: Suffixed(stem, j)
  }

  lemma SuffixedInjective(stem: string, j: nat, k: nat)
    ensures Suffixed(stem, j) == Suffixed(stem, k) ==> j == k
  {
    if Suffixed(stem, j) == Suffixed(stem, k) {
      assert Dec(j) == Suffixed(stem, j)[|stem| + 1..];
      assert Dec(k) == Suffixed(stem, k)[|stem| + 1..];
      DecInjective(j, k);
    }
  }

  lemma TriedStep(stem: string, k: nat)
    requires k >= 1
    ensures Tried(stem, k + 1) == Tried(stem, k) + {Suffixed(stem, k)}
    ensures Suffixed(stem, k) !in Tried(stem, k)
  {
    forall j | 1 <= j < k
      ensures Suffixed(stem, j) != Suffixed(stem, k)
    {
      SuffixedInjective(stem, j, k);
    }
  }

  lemma TriedShrinks(seen: set<string>, stem: string, k: nat)
    requires k >= 1 && Suffixed(stem, k) in seen
    ensures |seen - Tried(stem, k + 1)| < |seen - Tried(stem, k)|
  {
    TriedStep(stem, k);
    var x := Suffixed(stem, k);
    assert seen - Tried(stem, k) == (seen - Tried(stem, k + 1)) + {x};
    assert x !in seen - Tried(stem, k + 1);
  }

  /** The first counter from `k` on whose candidate is not in `seen`. */
  function FreeCounter(seen: set<string>, stem: string, k: nat): (c: nat)
    requires k >= 1
    ensures k <= c && Suffixed(stem, c) !in seen
    ensures forall j :: k <= j < c ==> Suffixed(stem, j) in seen
    decreases |seen - Tried(stem, k)|
  {
    if Suffixed(stem, k) !in seen then k
    else
      TriedShrinks(seen, stem, k);
      FreeCounter(seen, stem, k + 1)
  }

  /** The id the pass gives the primitive at position `index` once `seen` holds
    * the ids of the earlier ones. */
  function NextId(seen: set<string>, s: Shape, index: nat): (r: string)
    ensures r != "" && r !in seen
  {
    var stem := Stem(s.tag, index);
    if s.id != "" && s.id !in seen then s.id
    else if s.id == "" && stem !in seen then stem
    else Suffixed(stem, FreeCounter(seen, stem, 1))
  }

  function AssignFrom(shapes: seq<Shape>, i: nat, seen: set<string>): (ids: seq<string>)
    requires i <= |shapes|
    ensures |ids| == |shapes| - i
    decreases |shapes| - i
  {
    if i == |shapes| then []
    else
      var x := NextId(seen, shapes[i], i);
      [x] + AssignFrom(shapes, i + 1, seen + {x})
  }

  lemma AssignFromCons(shapes: seq<Shape>, i: nat, seen: set<string>)
    requires i < |shapes|
    ensures var x := NextId(seen, shapes[i], i);
      AssignFrom(shapes, i, seen) == [x] + AssignFrom(shapes, i + 1, seen + {x})
  {
  }

  /** The ids after the pass, the seen-set starting as `seed`. */
  function AssignedIds(shapes: seq<Shape>, seed: set<string>): (ids: seq<string>)
    ensures |ids| == |shapes|
  {
    AssignFrom(shapes, 0, seed)
  }

  lemma {:induction false} AssignFromFresh(shapes: seq<Shape>, i: nat, seen: set<string>)
    requires i <= |shapes|
    ensures var ids := AssignFrom(shapes, i, seen);
      (forall a, b :: 0 <= a < b < |ids| ==> ids[a] != ids[b])
      && forall k :: 0 <= k < |ids| ==> ids[k] != "" && ids[k] !in seen
    decreases |shapes| - i
  {
    if i < |shapes| {
      var x := NextId(seen, shapes[i], i);
      AssignFromFresh(shapes, i + 1, seen + {x});
      var ids := AssignFrom(shapes, i, seen);
      assert forall k :: 1 <= k < |ids| ==> ids[k] == AssignFrom(shapes, i + 1, seen + {x})[k - 1];
    }
  }

  /** After the pass the ids are non-empty, pairwise distinct and outside the seed. */
  lemma AssignedIdsDistinct(shapes: seq<Shape>, seed: set<string>)
    ensures var ids := AssignedIds(shapes, seed);
      (forall a, b :: 0 <= a < b < |ids| ==> ids[a] != ids[b])
      && forall k :: 0 <= k < |ids| ==> ids[k] != "" && ids[k] !in seed
  {
    assert AssignedIds(shapes, seed) == AssignFrom(shapes, 0, seed);
    AssignFromFresh(shapes, 0, seed);
  }

  lemma {:induction false} AssignFromStep(shapes: seq<Shape>, i: nat, seen: set<string>, k: nat)
    requires i <= k < |shapes|
    ensures var ids := AssignFrom(shapes, i, seen);
      ids[k - i] == NextId(seen + Elems(ids[..k - i]), shapes[k], k)
    decreases k - i
  {
    var ids := AssignFrom(shapes, i, seen);
    var x := NextId(seen, shapes[i], i);
    if i < k {
      AssignFromStep(shapes, i + 1, seen + {x}, k);
      var rest := AssignFrom(shapes, i + 1, seen + {x});
      assert ids[k - i] == rest[k - i - 1];
      assert ids[..k - i] == [x] + rest[..k - i - 1];
      assert seen + Elems(ids[..k - i]) == seen + {x} + Elems(rest[..k - i - 1]);
    } else {
      assert ids[..0] == [];
      assert seen + Elems(ids[..0]) == seen;
    }
  }

  /** The id at position `k` is what `NextId` gives once the seed and the ids of
    * the earlier positions are seen. */
  lemma AssignedIdsStep(shapes: seq<Shape>, seed: set<string>, k: nat)
    requires k < |shapes|
    ensures var ids := AssignedIds(shapes, seed);
      ids[k] == NextId(seed + Elems(ids[..k]), shapes[k], k)
  {
    AssignFromStep(shapes, 0, seed, k);
  }

  /** A primitive keeps its id exactly when that id is non-empty and neither in
    * the seed nor taken by an earlier primitive. */
  lemma AssignedIdsKeep(shapes: seq<Shape>, seed: set<string>, k: nat)
    requires k < |shapes|
    ensures var ids := AssignedIds(shapes, seed);
      ids[k] == shapes[k].id <==> shapes[k].id != "" && shapes[k].id !in seed + Elems(ids[..k])
  {
    AssignedIdsStep(shapes, seed, k);
  }

  /** A primitive that does not keep its id gets `<tag>_<k+1>` when it had no id
    * and that is free, and otherwise `<tag>_<k+1>_<c>` for the least free c >= 1. */
  lemma AssignedIdsSynthesised(shapes: seq<Shape>, seed: set<string>, k: nat)
    requires k < |shapes|
    ensures var ids := AssignedIds(shapes, seed);
      var seen := seed + Elems(ids[..k]);
      var stem := Stem(shapes[k].tag, k);
      ids[k] != shapes[k].id ==>
        if shapes[k].id == "" && stem !in seen then ids[k] == stem
        else exists c :: (1 <= c && ids[k] == Suffixed(stem, c) && Suffixed(stem, c) !in seen
          && forall j :: 1 <= j < c ==> Suffixed(stem, j) in seen)
  {
    AssignedIdsStep(shapes, seed, k);
  }

  /** Ids that are already non-empty, distinct and outside the seed are all kept. */
  lemma {:induction false} AssignFromKeeps(shapes: seq<Shape>, i: nat, seen: set<string>)
    requires i <= |shapes|
    requires forall a, b :: i <= a < b < |shapes| ==> shapes[a].id != shapes[b].id
    requires forall k :: i <= k < |shapes| ==> shapes[k].id != "" && shapes[k].id !in seen
    ensures forall k :: 0 <= k < |shapes| - i ==> AssignFrom(shapes, i, seen)[k] == shapes[i + k].id
    decreases |shapes| - i
  {
    if i < |shapes| {
      var x := shapes[i].id;
      assert NextId(seen, shapes[i], i) == x;
      AssignFromKeeps(shapes, i + 1, seen + {x});
    }
  }

  /** The primitives relabelled with `ids`. */
  function Relabel(shapes: seq<Shape>, ids: seq<string>): (r: seq<Shape>)
    requires |ids| == |shapes|
    ensures |r| == |shapes|
    ensures forall k :: 0 <= k < |r| ==> r[k] == Shape(shapes[k].tag, ids[k])
  {
    seq(|shapes|, k requires 0 <= k < |shapes| => Shape(shapes[k].tag, ids[k]))
  }

  /** Running the pass again on its own output changes no id. */
  lemma AssignedIdsIdempotent(shapes: seq<Shape>, seed: set<string>)
    ensures var ids := AssignedIds(shapes, seed);
      AssignedIds(Relabel(shapes, ids), seed) == ids
  {
    var ids := AssignedIds(shapes, seed);
    AssignedIdsDistinct(shapes, seed);
    AssignFromKeeps(Relabel(shapes, ids), 0, seed);
  }

  // ---------------------------------------------------------------------------
  // The pass on the document
  // ---------------------------------------------------------------------------

  predicate ElementsAt(doc: Node, ps: seq<Path>) {
    forall k :: 0 <= k < |ps| ==> ValidPath(doc, ps[k]) && At(doc, ps[k]).Element?
  }

  predicate Distinct<T(==)>(s: seq<T>) {
    forall a, b :: 0 <= a < b < |s| ==> s[a] != s[b]
  }

  /** Tag and id of the elements at `ps`. */
  function Shapes(doc: Node, ps: seq<Path>): (r: seq<Shape>)
    requires ElementsAt(doc, ps)
    ensures |r| == |ps|
    ensures forall k :: 0 <= k < |ps| ==> r[k] == Shape(At(doc, ps[k]).tag, At(doc, ps[k]).id)
  {
    seq(|ps|, k requires 0 <= k < |ps| => Shape(At(doc, ps[k]).tag, At(doc, ps[k]).id))
  }

  /** Writing `x` at `ps[i]` extends the written prefix, and before that the element
    * at `ps[i]` still has its own tag and id. */
  lemma LabelStep(doc: Node, ps: seq<Path>, ids: seq<string>, x: string)
    requires ElementsAt(doc, ps) && Distinct(ps) && |ids| < |ps|
    ensures var i := |ids|;
      var m := WithIds(doc, ps[..i], ids);
      ValidPath(m, ps[i]) && At(m, ps[i]).Element?
      && At(m, ps[i]).tag == At(doc, ps[i]).tag && At(m, ps[i]).id == At(doc, ps[i]).id
      && WithIds(doc, ps[..i + 1], ids + [x]) == SetIdAt(m, ps[i], x)
  {
    var i := |ids|;
    var m := WithIds(doc, ps[..i], ids);
    WithIdsShape(doc, ps[..i], ids);
    SameShapeAt(doc, m, ps[i]);
    WithIdsId(doc, ps[..i], ids, ps[i]);
    assert ps[..i + 1][..i] == ps[..i] && (ids + [x])[..i] == ids;
  }

  /** The counter loop: `first` if it is free, and otherwise
    * `${baseName}_${position}_${counter}` for the least free counter from 1 on. */
  method FreshId(seen: set<string>, first: string, baseName: string, position: nat) returns (newId: string)
    ensures var stem := baseName + "_" + Dec(position);
      newId == if first !in seen then first else Suffixed(stem, FreeCounter(seen, stem, 1))
  {
    var stem := baseName + "_" + Dec(position);
    newId := first;
    var counter := 1;
    while newId in seen
      invariant counter >= 1
      invariant counter == 1 ==> newId == first
      invariant counter > 1 ==> newId == Suffixed(stem, counter - 1) && first in seen
      invariant forall j :: 1 <= j < counter - 1 ==> Suffixed(stem, j) in seen
      decreases |seen - Tried(stem, counter - 1)|, if counter == 1 then 1 else 0
    {
      if counter > 1 {
        TriedShrinks(seen, stem, counter - 1);
      } else {
        assert Tried(stem, 1) == Tried(stem, 0);
      }
      newId := baseName + "_" + Dec(position) + "_" + Dec(counter);
      counter := counter + 1;
    }
  }

  /** The pass's step for the primitive at `p`, position `index`: keep its id or
    * write a fresh one. */
  method LabelOne(labelled: Node, p: Path, seen: set<string>, index: nat) returns (next: Node, id: string)
    requires ValidPath(labelled, p) && At(labelled, p).Element?
    ensures id == NextId(seen, Shape(At(labelled, p).tag, At(labelled, p).id), index)
    ensures next == SetIdAt(labelled, p, id)
  {
    var shape := At(labelled, p);
    id := shape.id;
    if id == "" || id in seen {
      var baseName := ToLower(shape.tag);
      var newId := if id != "" then id else baseName + "_" + Dec(index + 1);
      newId := FreshId(seen, newId, baseName, index + 1);
      next := SetIdAt(labelled, p, newId);
      id := newId;
    } else {
      SetIdAtSame(labelled, p);
      next := labelled;
    }
  }

  /** The id pass over the elements at `ps`, in order, writing each new id into the
    * document; `seen` starts as `seed`. */
  method LabelShapes(doc: Node, ps: seq<Path>, seed: set<string>) returns (labelled: Node, ids: seq<string>)
    requires ElementsAt(doc, ps) && Distinct(ps)
    ensures ids == AssignedIds(Shapes(doc, ps), seed)
    ensures labelled == WithIds(doc, ps, ids)
  {
    ghost var shapes := Shapes(doc, ps);
    var seen := seed;
    ids := [];
    labelled := doc;
    for i := 0 to |ps|
      invariant |ids| == i
      invariant seen == seed + Elems(ids)
      invariant ids + AssignFrom(shapes, i, seen) == AssignedIds(shapes, seed)
      invariant labelled == WithIds(doc, ps[..i], ids)
    {
      LabelStep(doc, ps, ids, "");
      assert shapes[i] == Shape(At(labelled, ps[i]).tag, At(labelled, ps[i]).id);
      var id;
      labelled, id := LabelOne(labelled, ps[i], seen, i);
      assert id == NextId(seen, shapes[i], i);
      AssignFromCons(shapes, i, seen);
      var rest := AssignFrom(shapes, i + 1, seen + {id});
      assert ids + AssignFrom(shapes, i, seen) == (ids + [id]) + rest;
      LabelStep(doc, ps, ids, id);
      ElemsSnoc(ids, id);
      seen := seen + {id};
      ids := ids + [id];
    }
    assert ps[..|ps|] == ps;
  }
}
