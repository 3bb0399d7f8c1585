/**
 * The layer export as a whole: select the primitives, make their ids unique,
 * build one pruned copy of the document per primitive, and store each as
 * `<id>.svg` in an archive.
 */
module LayerExport {
  import opened TextOps
  import opened SvgTree
  import opened LayerIds
  import opened LayerPrune

  /** A file of the archive; serialising a tree is taken to be the tree itself. */
  datatype Entry = Entry(name: string, content: Node)

  /** The three ways the export ends: an alert that there are no shapes, an alert
    * that no layer could be processed, or an archive offered for download. */
  datatype Outcome = NoShapes | NothingProcessed | Archive(entries: seq<Entry>)

  function Names(zip: seq<Entry>): set<string> {
    set e | e in zip :: e.name
  }

  /** `zip.file(name, content)`: an entry of the same name is replaced where it
    * stands; otherwise the new entry goes last. */
  function ZipPut(zip: seq<Entry>, name: string, content: Node): seq<Entry>
    decreases |zip|
  {
    if zip == [] then [Entry(name, content)]
    else if zip[0].name == name then [Entry(name, content)] + zip[1..]
    else [zip[0]] + ZipPut(zip[1..], name, content)
  }

  /** Storing under a new name appends; storing under a taken name keeps the count. */
  lemma {:induction false} ZipPutSize(zip: seq<Entry>, name: string, content: Node)
    ensures name !in Names(zip) ==> ZipPut(zip, name, content) == zip + [Entry(name, content)]
    ensures name in Names(zip) ==> |ZipPut(zip, name, content)| == |zip|
    ensures Names(ZipPut(zip, name, content)) == Names(zip) + {name}
    decreases |zip|
  {
    if zip != [] {
      ZipPutSize(zip[1..], name, content);
      assert zip == [zip[0]] + zip[1..];
      assert Names(zip) == {zip[0].name} + Names(zip[1..]);
      var r := ZipPut(zip, name, content);
      if zip[0].name == name {
        assert Names(r) == {name} + Names(zip[1..]);
      } else {
        assert Names(r) == {zip[0].name} + Names(ZipPut(zip[1..], name, content));
      }
    }
  }

  /** The file for the primitive whose id is `id`, when `getElementById` finds it. */
  function LayerEntry(labelled: Node, id: string): Option<Entry> {
    match FindById(labelled, id)
    case None => None
    case Some(t) => Some(Entry(id + ".svg", Layer(labelled, t, AncestorSet(t))))
  }

  /** The archive and the processed count after the layers of `ids`, in order. */
  function Collect(labelled: Node, ids: seq<string>): (seq<Entry>, nat)
    decreases |ids|
  {
    if ids == [] then ([], 0)
    else
      var (zip, count) := Collect(labelled, ids[..|ids| - 1]);
      match LayerEntry(labelled, ids[|ids| - 1])
      case None => (zip, count)
      case Some(e) => (ZipPut(zip, e.name, e.content), count + 1)
  }

  lemma CollectSnoc(labelled: Node, ids: seq<string>, k: nat)
    requires k < |ids|
    ensures var (zip, count) := Collect(labelled, ids[..k]);
      Collect(labelled, ids[..k + 1]) ==
        match LayerEntry(labelled, ids[k])
        case None => (zip, count)
        case Some(e) => (ZipPut(zip, e.name, e.content), count + 1)
  {
    assert ids[..k + 1][..k] == ids[..k];
  }

  /** What the id pass reads from the selected primitives. */
  function SelectedShapes(doc: Node): (r: seq<Shape>)
    ensures |r| == |Primitives(doc)|
  {
    PrimitivesSound(doc);
    Shapes(doc, Primitives(doc))
  }

  /** The ids of the selected primitives after the id pass. */
  function LayerIdsOf(doc: Node, seed: set<string>): (ids: seq<string>)
    ensures |ids| == |Primitives(doc)|
  {
    AssignedIds(SelectedShapes(doc), seed)
  }

  /** The document once the id pass has written the ids. */
  function Labelled(doc: Node, seed: set<string>): Node {
    WithIds(doc, Primitives(doc), LayerIdsOf(doc, seed))
  }

  /** The export of `doc`, the seen-set of the id pass starting as `seed`. */
  function Export(doc: Node, seed: set<string>): Outcome {
    var shapes := Primitives(doc);
    if |shapes| == 0 then NoShapes
    else
      var (zip, count) := Collect(Labelled(doc, seed), LayerIdsOf(doc, seed));
      if count == 0 then NothingProcessed else Archive(zip)
  }

  method ExportLayers(doc: Node, seed: set<string>) returns (outcome: Outcome)
    ensures outcome == Export(doc, seed)
  {
    var allShapes := Primitives(doc);
    if |allShapes| == 0 {
      return NoShapes;
    }
    PrimitivesSound(doc);
    PrimitivesInOrder(doc);
    InDocumentOrderDistinct(allShapes);
    var labelled, ids := LabelShapes(doc, allShapes, seed);
    var zip, processedCount := CollectLayers(labelled, ids);
    if processedCount == 0 {
      return NothingProcessed;
    }
    return Archive(zip);
  }

  /** The loop of the export: for each id, look the element up, build its layer
    * and store it as `<id>.svg`, counting the layers stored. */
  method CollectLayers(labelled: Node, ids: seq<string>) returns (zip: seq<Entry>, processedCount: nat)
    ensures (zip, processedCount) == Collect(labelled, ids)
  {
    zip := [];
    processedCount := 0;
    for k := 0 to |ids|
      invariant (zip, processedCount) == Collect(labelled, ids[..k])
    {
      CollectSnoc(labelled, ids, k);
      var shapeId := ids[k];
      var targetInClone := FindById(labelled, shapeId);
      if targetInClone.None? {
        continue;
      }
      var target := targetInClone.value;
      var ancestors := CollectAncestors(target);
      var layerDoc := Layer(labelled, target, ancestors);
      zip := ZipPut(zip, shapeId + ".svg", layerDoc);
      processedCount := processedCount + 1;
    }
    assert ids[..|ids|] == ids;
  }

  /** `downloadSvgLayers` as written: the seen-set starts empty. */
  method DownloadSvgLayers(doc: Node) returns (outcome: Outcome)
    ensures outcome == Export(doc, {})
  {
    outcome := ExportLayers(doc, {});
  }

  /** The export with the seen-set seeded with the ids the document's other
    * elements already carry, so that no primitive is given one of them. */
  method DownloadSvgLayersSeeded(doc: Node) returns (outcome: Outcome)
    ensures outcome == Export(doc, NonPrimitiveIds(doc))
  {
    outcome := ExportLayers(doc, NonPrimitiveIds(doc));
  }

  // ---------------------------------------------------------------------------
  // Properties
  // ---------------------------------------------------------------------------

  /** The export reports "no shapes" exactly when the document has no primitive. */
  lemma ExportNoShapes(doc: Node, seed: set<string>)
    ensures Export(doc, seed).NoShapes? <==> forall p :: ValidPath(doc, p) ==> !IsPrimitive(At(doc, p))
  {
    PrimitivesSound(doc);
    if Primitives(doc) != [] {
      var w := Primitives(doc)[0];
      assert w in Primitives(doc);
      assert ValidPath(doc, w) && IsPrimitive(At(doc, w));
      assert exists q :: ValidPath(doc, q) && IsPrimitive(At(doc, q));
      assert Export(doc, seed).NothingProcessed? || Export(doc, seed).Archive?;
    } else {
      forall p | ValidPath(doc, p)
        ensures !IsPrimitive(At(doc, p))
      {
        if IsPrimitive(At(doc, p)) {
          PrimitivesComplete(doc, p);
        }
      }
    }
  }

  /** The facts about the id pass the rest of the properties rely on. */
  lemma Labelling(doc: Node, seed: set<string>)
    requires Primitives(doc) != []
    ensures ElementsAt(doc, Primitives(doc)) && Distinct(Primitives(doc))
    ensures var shapes := Primitives(doc);
      var ids := LayerIdsOf(doc, seed);
      var labelled := Labelled(doc, seed);
      Distinct(ids)
      && forall k :: 0 <= k < |ids| ==> ids[k] != "" && ids[k] !in seed && HasId(labelled, shapes[k], ids[k])
  {
    var shapes := Primitives(doc);
    PrimitivesSound(doc);
    PrimitivesInOrder(doc);
    InDocumentOrderDistinct(shapes);
    var ids := LayerIdsOf(doc, seed);
    AssignedIdsDistinct(SelectedShapes(doc), seed);
    forall k | 0 <= k < |ids|
      ensures HasId(WithIds(doc, shapes, ids), shapes[k], ids[k])
    {
      WithIdsId(doc, shapes, ids, shapes[k]);
    }
  }

  lemma FileNameInjective(a: string, b: string)
    ensures a + ".svg" == b + ".svg" ==> a == b
  {
    if a + ".svg" == b + ".svg" {
      assert a == (a + ".svg")[..|a|];
      assert b == (b + ".svg")[..|b|];
    }
  }

  /** The file names `<id>.svg` of `ids`. */
  function FileNames(ids: seq<string>): set<string> {
    set k | 0 <= k < |ids| :: ids[k] + ".svg"
  }

  lemma FileNamesSnoc(ids: seq<string>)
    requires ids != []
    ensures FileNames(ids) == FileNames(ids[..|ids| - 1]) + {ids[|ids| - 1] + ".svg"}
  {
    var init := ids[..|ids| - 1];
    forall x | x in FileNames(ids)
      ensures x in FileNames(init) + {ids[|ids| - 1] + ".svg"}
    {
      var k :| 0 <= k < |ids| && x == ids[k] + ".svg";
      if k < |init| {
        assert init[k] == ids[k];
      }
    }
    forall x | x in FileNames(init)
      ensures x in FileNames(ids)
    {
      var k :| 0 <= k < |init| && x == init[k] + ".svg";
      assert ids[k] == init[k];
    }
  }

  lemma {:induction false} CollectAll(labelled: Node, ids: seq<string>)
    requires Distinct(ids)
    requires forall k :: 0 <= k < |ids| ==> FindById(labelled, ids[k]).Some?
    ensures var (zip, count) := Collect(labelled, ids);
      count == |ids| == |zip|
      && Names(zip) == FileNames(ids)
      && forall k :: 0 <= k < |ids| ==> zip[k] == LayerEntry(labelled, ids[k]).value
    decreases |ids|
  {
    if ids != [] {
      var last := |ids| - 1;
      var init := ids[..last];
      assert forall k :: 0 <= k < last ==> init[k] == ids[k];
      CollectAll(labelled, init);
      var (zip, count) := Collect(labelled, init);
      var e := LayerEntry(labelled, ids[last]).value;
      assert Collect(labelled, ids) == (ZipPut(zip, e.name, e.content), count + 1);
      assert e.name !in Names(zip) by {
        forall k | 0 <= k < last
          ensures init[k] + ".svg" != e.name
        {
          FileNameInjective(init[k], ids[last]);
        }
      }
      ZipPutSize(zip, e.name, e.content);
      var zip' := zip + [e];
      forall k | 0 <= k < |ids|
        ensures zip'[k] == LayerEntry(labelled, ids[k]).value
      {
        if k < last {
          assert zip'[k] == zip[k];
        }
      }
      FileNamesSnoc(ids);
    }
  }

  /** Every primitive is processed: "nothing processed" never happens, and the
    * archive holds exactly one file `<id>.svg` per primitive, in document order,
    * each the layer of the element `getElementById` returns for that id. */
  lemma ExportArchive(doc: Node, seed: set<string>)
    requires Primitives(doc) != []
    ensures var ids := LayerIdsOf(doc, seed);
      var labelled := Labelled(doc, seed);
      Export(doc, seed).Archive?
      && |Export(doc, seed).entries| == |Primitives(doc)|
      && forall k :: 0 <= k < |ids| ==>
        FindById(labelled, ids[k]).Some?
        && Export(doc, seed).entries[k] ==
          Entry(ids[k] + ".svg", Layer(labelled, FindById(labelled, ids[k]).value, AncestorSet(FindById(labelled, ids[k]).value)))
  {
    var shapes := Primitives(doc);
    var ids := LayerIdsOf(doc, seed);
    var labelled := Labelled(doc, seed);
    Labelling(doc, seed);
    forall k | 0 <= k < |ids|
      ensures FindById(labelled, ids[k]).Some?
    {
      FindFirst(labelled, shapes[k], ids[k]);
    }
    CollectAll(labelled, ids);
  }

  /** When no element other than the primitives carries an id that is in the seed's
    * complement, each file is the layer of its own primitive: this holds with the
    * seeded seen-set, and with the empty one when no other element has an id. */
  lemma ExportFindsOwnShape(doc: Node, seed: set<string>, k: nat)
    requires k < |Primitives(doc)| && NonPrimitiveIds(doc) <= seed
    ensures FindById(Labelled(doc, seed), LayerIdsOf(doc, seed)[k]) == Some(Primitives(doc)[k])
  {
    var shapes := Primitives(doc);
    var ids := LayerIdsOf(doc, seed);
    var labelled := Labelled(doc, seed);
    Labelling(doc, seed);
    WithIdsShape(doc, shapes, ids);
    SameShapeSym(doc, labelled);
    forall q | HasId(labelled, q, ids[k])
      ensures q == shapes[k]
    {
      SameShapeAt(labelled, doc, q);
      WithIdsId(doc, shapes, ids, q);
      if q in shapes {
        var j :| 0 <= j < |shapes| && shapes[j] == q;
        assert ids[j] == ids[k];
      } else {
        if IsPrimitive(At(doc, q)) {
          PrimitivesComplete(doc, q);
        }
        NonPrimitiveIdsComplete(doc, q);
      }
    }
    FindByIdUnique(labelled, shapes[k], ids[k]);
  }

  /** With the seeded seen-set the file of every primitive below the root holds
    * that primitive with its subtree. */
  lemma SeededLayerKeepsShape(doc: Node, k: nat)
    requires k < |Primitives(doc)| && |Primitives(doc)[k]| >= 1
    ensures var seed := NonPrimitiveIds(doc);
      var out := Export(doc, seed);
      out.Archive? && k < |out.entries| && ValidPath(Labelled(doc, seed), Primitives(doc)[k])
      && Contains(out.entries[k].content, At(Labelled(doc, seed), Primitives(doc)[k]))
  {
    var seed := NonPrimitiveIds(doc);
    Labelling(doc, seed);
    ExportArchive(doc, seed);
    ExportFindsOwnShape(doc, seed, k);
    LayerKeepsTarget(Labelled(doc, seed), Primitives(doc)[k]);
  }

  /** With the seeded seen-set, when the elements above a primitive are plain
    * containers, its file draws that primitive first and nothing from outside its
    * subtree. */
  lemma SeededLayerDrawsShape(doc: Node, k: nat)
    requires k < |Primitives(doc)| && |Primitives(doc)[k]| >= 1
    requires PlainChain(Labelled(doc, NonPrimitiveIds(doc)), Primitives(doc)[k])
    ensures var seed := NonPrimitiveIds(doc);
      var out := Export(doc, seed);
      ValidPath(Labelled(doc, seed), Primitives(doc)[k])
      && var shape := At(Labelled(doc, seed), Primitives(doc)[k]);
      out.Archive? && k < |out.entries|
      && Drawn(out.entries[k].content) == Drawn(shape)
      && |Drawn(shape)| > 0 && Drawn(shape)[0] == shape
  {
    var seed := NonPrimitiveIds(doc);
    var labelled := Labelled(doc, seed);
    var p := Primitives(doc)[k];
    Labelling(doc, seed);
    ExportArchive(doc, seed);
    ExportFindsOwnShape(doc, seed, k);
    LayerDrawsTarget(labelled, p);
    WithIdsShape(doc, Primitives(doc), LayerIdsOf(doc, seed));
    SameShapeAt(doc, labelled, p);
    PrimitivesSound(doc);
    assert p in Primitives(doc);
    PrimitiveNotDefinitional(At(labelled, p));
  }

  // ---------------------------------------------------------------------------
  // The export as written can give a file without its primitive
  // ---------------------------------------------------------------------------

  /** `<svg><g id="a"/><rect id="a"/></svg>` */
  const SharedIdDoc: Node := Element("svg", "", [], [SharedG, SharedRect])

  /** The `g` and the `rect` both carry the id `a`. */
  const SharedG: Node := Element("g", "a", [], [])
  const SharedRect: Node := Element("rect", "a", [], [])

  lemma SharedIdPass()
    ensures Primitives(SharedIdDoc) == [[1]]
    ensures LayerIdsOf(SharedIdDoc, {}) == ["a"]
    ensures Labelled(SharedIdDoc, {}) == SharedIdDoc
  {
    var doc := SharedIdDoc;
    assert doc.children == [SharedG, SharedRect];
    assert Primitives(SharedG) == [];
    assert Primitives(SharedRect) == [[]];
    assert [1] + [] == [1];
    assert Under(1, [[]]) == [[1]];
    assert PrimitivesFrom(doc.children, 2) == [];
    assert PrimitivesFrom(doc.children, 1) == [[1]];
    assert Primitives(doc) == [[1]];
    var shapes := SelectedShapes(doc);
    assert shapes == [Shape("rect", "a")];
    assert AssignFrom(shapes, 1, {"a"}) == [];
    assert LayerIdsOf(doc, {}) == ["a"];
    SetIdAtSame(doc, [1]);
    assert WithIds(doc, [[1]], ["a"]) == doc by {
      assert WithIds(doc, [[1]][..0], ["a"][..0]) == doc;
    }
  }

  lemma SharedIdLookup()
    ensures FindById(SharedIdDoc, "a") == Some([0])
  {
    var doc := SharedIdDoc;
    assert doc.children == [SharedG, SharedRect];
    assert Find(SharedG, "a") == Some([]);
    assert [0] + [] == [0];
    assert FindFrom(doc.children, 0, "a") == Some([0]);
  }

  lemma SharedIdLayer()
    ensures Layer(SharedIdDoc, [0], AncestorSet([0])) == Element("svg", "", [], [SharedG])
    ensures Drawn(Element("svg", "", [], [SharedG])) == []
  {
    var doc := SharedIdDoc;
    var anc := AncestorSet([0]);
    assert doc.children == [SharedG, SharedRect];
    AncestorSetIff([0], [1]);
    assert ToLower("g") == "g" && ToLower("rect") == "rect" && ToLower("svg") == "svg";
    assert [] + [0] == [0] && [] + [1] == [1];
    assert Clean(SharedRect, [1], [0], anc) == None;
    assert Clean(SharedG, [0], [0], anc) == Some(SharedG);
    assert CleanChildren(doc.children, 2, [], [0], anc) == [];
    assert CleanChildren(doc.children, 1, [], [0], anc) == [];
    assert CleanChildren(doc.children, 0, [], [0], anc) == [SharedG];
    assert DrawnSeq([SharedG]) == [] by {
      assert [SharedG][1..] == [];
    }
  }

  /** With the empty seen-set the `rect` keeps the id `a`; `getElementById("a")`
    * returns the `g`, so `a.svg` holds the `g` alone and draws nothing. */
  lemma SharedIdLosesShape()
    ensures Export(SharedIdDoc, {}) == Archive([Entry("a.svg", Element("svg", "", [], [SharedG]))])
    ensures Drawn(Export(SharedIdDoc, {}).entries[0].content) == []
  {
    SharedIdPass();
    SharedIdLookup();
    SharedIdLayer();
    var layer := Element("svg", "", [], [SharedG]);
    assert "a" + ".svg" == "a.svg";
    assert LayerEntry(SharedIdDoc, "a") == Some(Entry("a.svg", layer));
    assert Collect(SharedIdDoc, ["a"]) == ([Entry("a.svg", layer)], 1) by {
      assert ["a"][..0] == [];
    }
  }

  /** With the seeded seen-set the same document gives `rect_1_1.svg`, and that
    * file draws the `rect`. */
  lemma SharedIdSeededKeepsShape()
    ensures var out := Export(SharedIdDoc, NonPrimitiveIds(SharedIdDoc));
      out.Archive? && |out.entries| == 1 && Drawn(out.entries[0].content) != []
  {
    var doc := SharedIdDoc;
    var seed := NonPrimitiveIds(doc);
    SharedIdPass();
    var labelled := Labelled(doc, seed);
    WithIdsShape(doc, Primitives(doc), LayerIdsOf(doc, seed));
    assert labelled.Element? && labelled.tag == "svg";
    assert ToLower("svg") == "svg";
    assert [1][..0] == [];
    assert PlainChain(labelled, [1]);
    ExportArchive(doc, seed);
    SeededLayerDrawsShape(doc, 0);
  }
}
