/**
 * The mob library: a list of base mobs, each a shape coloured with three
 * colours, followed by up to four modified variants of the eligible base mobs,
 * added base by base until the library holds 200 mobs or more.
 */
module MobAssets {
  import opened TextOps
  import opened Variants

  datatype MobCategory = Beasts | Undead | Humanoids | Monsters | Insects | Bosses | Critters

  datatype MobDef = MobDef(id: string, name: string, category: MobCategory, svg: string)

  /** The arguments of one `defineMob` call of the library's base list. */
  datatype Recipe = Recipe(baseId: string, name: string, category: MobCategory, c1: string, c2: string, c3: string)

  datatype Modifier = Modifier(suffix: string, c1: string, c2: string)

  const Modifiers: seq<Modifier> := [
    Modifier("Alpha", "#1f2937", "#374151"),
    Modifier("Spectral", "#a5f3fc", "#22d3ee"),
    Modifier("Corrupted", "#4c1d95", "#2e1065"),
    Modifier("Infernal", "#b91c1c", "#fca5a5")
  ]

  /** No new base is expanded once the library holds this many mobs. */
  const Cap: nat := 200

  /** The third colour every variant is painted with. */
  const VariantC3: string := "#fff"

  const Mark1: string := "#C1"
  const Mark2: string := "#C2"
  const Mark3: string := "#C3"

  // ---------------------------------------------------------------------------
  // tpl
  // ---------------------------------------------------------------------------

  /** `svg.replace(/#C1/g, col1).replace(/#C2/g, col2).replace(/#C3/g, col3)` */
  function Tpl(svg: string, col1: string, col2: string, col3: string): string {
    ReplaceAll(ReplaceAll(ReplaceAll(svg, Mark1, col1), Mark2, col2), Mark3, col3)
  }

  predicate InertMobColour(c: string) {
    Inert(c, Mark1) && Inert(c, Mark2) && Inert(c, Mark3)
  }

  lemma MobMarks()
    ensures Placeholder(Mark1) && Placeholder(Mark2) && Placeholder(Mark3)
    ensures Mark1[1] == 'C' && Mark2[1] == 'C' && Mark3[1] == 'C'
  {
    assert Mark1[1..] == "C1" && Mark2[1..] == "C2" && Mark3[1..] == "C3";
  }

  lemma HexMobColour(c: string)
    requires HexColour(c)
    ensures InertMobColour(c)
  {
    MobMarks();
    HexInert(c, Mark1);
    HexInert(c, Mark2);
    HexInert(c, Mark3);
  }

  /** With inert colours, `tpl` leaves no `#C1`, `#C2` or `#C3`; an SVG without
    * them comes back unchanged. */
  lemma TplClears(svg: string, col1: string, col2: string, col3: string)
    ensures InertMobColour(col1) && InertMobColour(col2) && InertMobColour(col3) ==>
      var r := Tpl(svg, col1, col2, col3);
      !Occurs(r, Mark1) && !Occurs(r, Mark2) && !Occurs(r, Mark3)
    ensures !Occurs(svg, Mark1) && !Occurs(svg, Mark2) && !Occurs(svg, Mark3) ==> Tpl(svg, col1, col2, col3) == svg
  {
    MobMarks();
    var s1 := ReplaceAll(svg, Mark1, col1);
    var s2 := ReplaceAll(s1, Mark2, col2);
    if InertMobColour(col1) && InertMobColour(col2) && InertMobColour(col3) {
      PlaceholderGone(svg, Mark1, col1);
      PlaceholderNotCreated(s1, Mark2, col2, Mark1);
      PlaceholderNotCreated(s2, Mark3, col3, Mark1);
      PlaceholderGone(s1, Mark2, col2);
      PlaceholderNotCreated(s2, Mark3, col3, Mark2);
      PlaceholderGone(s2, Mark3, col3);
    }
    if !Occurs(svg, Mark1) && !Occurs(svg, Mark2) && !Occurs(svg, Mark3) {
      ReplaceAbsent(svg, Mark1, col1);
      ReplaceAbsent(svg, Mark2, col2);
      ReplaceAbsent(svg, Mark3, col3);
    }
  }

  // ---------------------------------------------------------------------------
  // defineMob
  // ---------------------------------------------------------------------------

  /** The shape stored under `key`, if there is one that is not empty. */
  predicate HasShape(shapes: map<string, string>, key: string) {
    key in shapes && shapes[key] != ""
  }

  /** `SHAPES[baseId] || SHAPES.slime` */
  function RawSvg(shapes: map<string, string>, baseId: string): string
    requires "slime" in shapes
  {
    if HasShape(shapes, baseId) then shapes[baseId] else shapes["slime"]
  }

  function DefineMob(shapes: map<string, string>, r: Recipe): MobDef
    requires "slime" in shapes
  {
    MobDef(r.baseId + "_" + ToLower(RemoveSpaces(r.name)), r.name, r.category, Tpl(RawSvg(shapes, r.baseId), r.c1, r.c2, r.c3))
  }

  predicate NoUnderscore(s: string) {
    forall i :: 0 <= i < |s| ==> s[i] != '_'
  }

  /** `id.split('_')[0]` */
  function ShapeKey(id: string): string {
    Split(id, "_")[0]
  }

  lemma {:induction false} SplitAtFirst(a: string, b: string)
    requires NoUnderscore(a)
    ensures Split(a + "_" + b, "_")[0] == a
    decreases |a|
  {
    var s := a + "_" + b;
    if a == [] {
      assert s[..1] == "_";
    } else {
      assert s[..1] != "_" by { assert s[..1][0] == a[0]; }
      assert s[1..] == a[1..] + "_" + b;
      SplitAtFirst(a[1..], b);
    }
  }

  /**
   * A base mob's id is its base id, `_`, and its name without white space and in
   * lower case; name and category are carried over; its SVG is its own shape, or
   * the slime shape when its base id has none. Reading the id back up to the
   * first `_` gives the base id, when the base id has no `_` of its own.
   */
  lemma DefineMobShape(shapes: map<string, string>, r: Recipe)
    requires "slime" in shapes
    ensures var m := DefineMob(shapes, r);
      var bare := RemoveSpaces(r.name);
      StartsWith(m.id, r.baseId + "_") && |m.id| == |r.baseId| + 1 + |bare|
      && (forall i :: 0 <= i < |bare| ==> m.id[|r.baseId| + 1 + i] == LowerChar(bare[i]))
      && (forall i :: |r.baseId| < i < |m.id| ==> !IsJsSpace(m.id[i]) && !('A' <= m.id[i] <= 'Z'))
      && m.name == r.name && m.category == r.category
      && (HasShape(shapes, r.baseId) ==> m.svg == Tpl(shapes[r.baseId], r.c1, r.c2, r.c3))
      && (!HasShape(shapes, r.baseId) ==> m.svg == Tpl(shapes["slime"], r.c1, r.c2, r.c3))
    ensures NoUnderscore(r.baseId) ==> ShapeKey(DefineMob(shapes, r).id) == r.baseId
  {
    var m := DefineMob(shapes, r);
    var tail := ToLower(RemoveSpaces(r.name));
    assert m.id == (r.baseId + "_") + tail;
    assert m.id[..|r.baseId + "_"|] == r.baseId + "_";
    forall i | |r.baseId| < i < |m.id|
      ensures !IsJsSpace(m.id[i]) && !('A' <= m.id[i] <= 'Z')
    {
      assert m.id[i] == tail[i - |r.baseId| - 1];
    }
    forall i | 0 <= i < |RemoveSpaces(r.name)|
      ensures m.id[|r.baseId| + 1 + i] == LowerChar(RemoveSpaces(r.name)[i])
    {
      assert m.id[|r.baseId| + 1 + i] == tail[i];
    }
    if NoUnderscore(r.baseId) {
      SplitAtFirst(r.baseId, tail);
    }
  }

  // ---------------------------------------------------------------------------
  // generateMobLibrary
  // ---------------------------------------------------------------------------

  /** The base list: one `defineMob` per recipe, in order. */
  function BaseMobs(shapes: map<string, string>, recipes: seq<Recipe>): (mobs: seq<MobDef>)
    requires "slime" in shapes
    ensures |mobs| == |recipes|
  {
    seq(|recipes|, i requires 0 <= i < |recipes| => DefineMob(shapes, recipes[i]))
  }

  predicate Eligible(mob: MobDef) {
    mob.category != Bosses && mob.category != Critters
  }

  /** The variant of `mob` with modifier `mod`, rebuilt from the shape `raw`. */
  function Variant(mob: MobDef, mod: Modifier, raw: string): MobDef {
    MobDef(mob.id + "_" + ToLower(mod.suffix), mod.suffix + " " + mob.name, mob.category, Tpl(raw, mod.c1, mod.c2, VariantC3))
  }

  /** The variants pushed for `mob`: one per modifier when its id names a shape, else none. */
  function VariantsOf(shapes: map<string, string>, mob: MobDef): seq<MobDef> {
    var key := ShapeKey(mob.id);
    if HasShape(shapes, key) then seq(|Modifiers|, j requires 0 <= j < |Modifiers| => Variant(mob, Modifiers[j], shapes[key]))
    else []
  }

  /** The library after the first `k` mobs of `baseSet` have been visited. */
  function Grow(shapes: map<string, string>, baseSet: seq<MobDef>, k: nat): seq<MobDef>
    requires k <= |baseSet|
    decreases k
  {
    if k == 0 then baseSet
    else
      var prev := Grow(shapes, baseSet, k - 1);
      var mob := baseSet[k - 1];
      if |prev| >= Cap || !Eligible(mob) then prev else prev + VariantsOf(shapes, mob)
  }

  function Library(shapes: map<string, string>, recipes: seq<Recipe>): seq<MobDef>
    requires "slime" in shapes
  {
    var bases := BaseMobs(shapes, recipes);
    Grow(shapes, bases, |bases|)
  }

  method GenerateMobLibrary(shapes: map<string, string>, recipes: seq<Recipe>) returns (mobs: seq<MobDef>)
    requires "slime" in shapes
    ensures mobs == Library(shapes, recipes)
  {
    mobs := BaseMobs(shapes, recipes);
    var baseSet := mobs;
    for k := 0 to |baseSet|
      invariant mobs == Grow(shapes, baseSet, k)
    {
      var mob := baseSet[k];
      if |mobs| >= 200 {
        continue;
      }
      if mob.category == Bosses || mob.category == Critters {
        continue;
      }
      mobs := PushVariants(shapes, mob, mobs);
    }
  }

  /** The modifier loop for one base mob: push one variant per modifier while
    * the shape named by the mob's id is found. */
  method PushVariants(shapes: map<string, string>, mob: MobDef, mobs: seq<MobDef>) returns (out: seq<MobDef>)
    ensures out == mobs + VariantsOf(shapes, mob)
  {
    out := mobs;
    ghost var known := HasShape(shapes, ShapeKey(mob.id));
    for j := 0 to |Modifiers|
      invariant out == mobs + if known then VariantsOf(shapes, mob)[..j] else []
    {
      var mod := Modifiers[j];
      var key := Split(mob.id, "_")[0];
      if key in shapes && shapes[key] != "" {
        out := out + [MobDef(mob.id + "_" + ToLower(mod.suffix), mod.suffix + " " + mob.name, mob.category,
          ReplaceAll(ReplaceAll(ReplaceAll(shapes[key], "#C1", mod.c1), "#C2", mod.c2), "#C3", "#fff"))];
        assert VariantsOf(shapes, mob)[..j + 1] == VariantsOf(shapes, mob)[..j] + [VariantsOf(shapes, mob)[j]];
      }
    }
    assert known ==> VariantsOf(shapes, mob)[..|Modifiers|] == VariantsOf(shapes, mob);
    assert !known ==> VariantsOf(shapes, mob) == [];
  }

  // ---------------------------------------------------------------------------
  // Properties of the library
  // ---------------------------------------------------------------------------

  function Max(a: nat, b: nat): nat {
    if a >= b then a else b
  }

  /**
   * The base mobs stay first, unchanged and in order; the library never shrinks,
   * and since the cap is checked before each base, it ends with at most
   * `Cap + 3` mobs unless the base list alone is longer.
   */
  lemma {:induction false} GrowBounds(shapes: map<string, string>, baseSet: seq<MobDef>, k: nat)
    requires k <= |baseSet|
    ensures |baseSet| <= |Grow(shapes, baseSet, k)| <= Max(|baseSet|, Cap + |Modifiers| - 1)
    ensures Grow(shapes, baseSet, k)[..|baseSet|] == baseSet
    decreases k
  {
    if k > 0 {
      GrowBounds(shapes, baseSet, k - 1);
      var prev := Grow(shapes, baseSet, k - 1);
      var mob := baseSet[k - 1];
      if !(|prev| >= Cap || !Eligible(mob)) {
        assert |VariantsOf(shapes, mob)| <= |Modifiers|;
        assert (prev + VariantsOf(shapes, mob))[..|baseSet|] == prev[..|baseSet|];
      }
    }
  }

  lemma LibraryBounds(shapes: map<string, string>, recipes: seq<Recipe>)
    requires "slime" in shapes
    ensures |recipes| <= |Library(shapes, recipes)| <= Max(|recipes|, 203)
    ensures Library(shapes, recipes)[..|recipes|] == BaseMobs(shapes, recipes)
  {
    GrowBounds(shapes, BaseMobs(shapes, recipes), |recipes|);
  }

  /** Each later stage of the library extends the earlier one. */
  lemma {:induction false} GrowPrefix(shapes: map<string, string>, baseSet: seq<MobDef>, m: nat, n: nat)
    requires m <= n <= |baseSet|
    ensures |Grow(shapes, baseSet, m)| <= |Grow(shapes, baseSet, n)|
    ensures Grow(shapes, baseSet, n)[..|Grow(shapes, baseSet, m)|] == Grow(shapes, baseSet, m)
    decreases n
  {
    if m < n {
      GrowPrefix(shapes, baseSet, m, n - 1);
      var prev := Grow(shapes, baseSet, n - 1);
      var mob := baseSet[n - 1];
      if !(|prev| >= Cap || !Eligible(mob)) {
        PrefixOfConcat(prev, VariantsOf(shapes, mob), Grow(shapes, baseSet, m));
      }
    } else {
      TakeWhole(Grow(shapes, baseSet, m));
    }
  }

  /**
   * A base mob that is neither a boss nor a critter, whose id names a shape, and
   * that is reached while the library holds fewer than `Cap` mobs gets its four
   * variants, in modifier order, right where the library stood when it was reached;
   * every later stage keeps them there.
   */
  lemma GrowPlaces(shapes: map<string, string>, baseSet: seq<MobDef>, k: nat, n: nat)
    requires k < n <= |baseSet| && Eligible(baseSet[k]) && HasShape(shapes, ShapeKey(baseSet[k].id))
    requires |Grow(shapes, baseSet, k)| < Cap
    ensures |Grow(shapes, baseSet, k)| + |Modifiers| <= |Grow(shapes, baseSet, n)|
    ensures forall j :: 0 <= j < |Modifiers| ==>
      Grow(shapes, baseSet, n)[|Grow(shapes, baseSet, k)| + j]
      == Variant(baseSet[k], Modifiers[j], shapes[ShapeKey(baseSet[k].id)])
  {
    GrowStep(shapes, baseSet, k);
    GrowPrefix(shapes, baseSet, k + 1, n);
    VariantsAt(shapes, baseSet[k]);
    PlacesIn(Grow(shapes, baseSet, n), Grow(shapes, baseSet, k), VariantsOf(shapes, baseSet[k]),
      baseSet[k], shapes[ShapeKey(baseSet[k].id)]);
  }

  lemma PlacesIn(all: seq<MobDef>, front: seq<MobDef>, vs: seq<MobDef>, mob: MobDef, raw: string)
    requires |front + vs| <= |all| && all[..|front + vs|] == front + vs
    requires |vs| == |Modifiers| && forall j :: 0 <= j < |Modifiers| ==> vs[j] == Variant(mob, Modifiers[j], raw)
    ensures |front| + |Modifiers| <= |all| && forall j :: 0 <= j < |Modifiers| ==> all[|front| + j] == Variant(mob, Modifiers[j], raw)
  {
    forall j | 0 <= j < |Modifiers|
      ensures all[|front| + j] == Variant(mob, Modifiers[j], raw)
    {
      IndexAfter(all, front, vs, j);
    }
  }

  lemma VariantsAt(shapes: map<string, string>, mob: MobDef)
    requires HasShape(shapes, ShapeKey(mob.id))
    ensures |VariantsOf(shapes, mob)| == |Modifiers|
    ensures forall j :: 0 <= j < |Modifiers| ==> VariantsOf(shapes, mob)[j] == Variant(mob, Modifiers[j], shapes[ShapeKey(mob.id)])
  {
  }

  lemma GrowStep(shapes: map<string, string>, baseSet: seq<MobDef>, k: nat)
    requires k < |baseSet| && Eligible(baseSet[k]) && |Grow(shapes, baseSet, k)| < Cap
    ensures Grow(shapes, baseSet, k + 1) == Grow(shapes, baseSet, k) + VariantsOf(shapes, baseSet[k])
  {
  }

  /** The four variants of `mob` are all in `lib`. */
  predicate HasVariants(shapes: map<string, string>, lib: seq<MobDef>, mob: MobDef)
    requires HasShape(shapes, ShapeKey(mob.id))
  {
    forall j :: 0 <= j < |Modifiers| ==> Variant(mob, Modifiers[j], shapes[ShapeKey(mob.id)]) in lib
  }

  /** The variant entry of a mob: which base mob and which modifier it comes from. */
  predicate VariantOfBase(shapes: map<string, string>, baseSet: seq<MobDef>, m: MobDef) {
    exists k, j :: 0 <= k < |baseSet| && 0 <= j < |Modifiers| && Eligible(baseSet[k])
      && HasShape(shapes, ShapeKey(baseSet[k].id))
      && m == Variant(baseSet[k], Modifiers[j], shapes[ShapeKey(baseSet[k].id)])
  }

  /**
   * Every mob after the base list is a variant of a base mob (never of another
   * variant) that is neither a boss nor a critter, rebuilt from that base's shape;
   * and, unless the library has reached the cap, every such base whose id names a
   * shape has all four of its variants in it.
   */
  lemma {:induction false} GrowOrigin(shapes: map<string, string>, baseSet: seq<MobDef>, k: nat)
    requires k <= |baseSet|
    ensures forall i :: |baseSet| <= i < |Grow(shapes, baseSet, k)| ==> VariantOfBase(shapes, baseSet, Grow(shapes, baseSet, k)[i])
    ensures forall i :: 0 <= i < k && Eligible(baseSet[i]) && HasShape(shapes, ShapeKey(baseSet[i].id)) ==>
      |Grow(shapes, baseSet, k)| >= Cap || HasVariants(shapes, Grow(shapes, baseSet, k), baseSet[i])
    decreases k
  {
    forall i | 0 <= i < k && Eligible(baseSet[i]) && HasShape(shapes, ShapeKey(baseSet[i].id)) && |Grow(shapes, baseSet, k)| < Cap
      ensures HasVariants(shapes, Grow(shapes, baseSet, k), baseSet[i])
    {
      GrowPrefix(shapes, baseSet, i, k);
      GrowPlaces(shapes, baseSet, i, k);
    }
    if k > 0 {
      GrowOrigin(shapes, baseSet, k - 1);
      GrowBounds(shapes, baseSet, k - 1);
      var prev := Grow(shapes, baseSet, k - 1);
      var mob := baseSet[k - 1];
      if !(|prev| >= Cap || !Eligible(mob)) {
        var vs := VariantsOf(shapes, mob);
        forall i | |baseSet| <= i < |prev + vs|
          ensures VariantOfBase(shapes, baseSet, (prev + vs)[i])
        {
          if i >= |prev| {
            var j := i - |prev|;
            assert (prev + vs)[i] == vs[j];
            assert VariantOfBase(shapes, baseSet, vs[j]) by {
              assert baseSet[k - 1] == mob;
            }
          } else {
            assert (prev + vs)[i] == prev[i];
          }
        }
      }
    }
  }

  lemma LibraryOrigin(shapes: map<string, string>, recipes: seq<Recipe>)
    requires "slime" in shapes
    ensures var lib := Library(shapes, recipes);
      forall i :: |recipes| <= i < |lib| ==>
        VariantOfBase(shapes, BaseMobs(shapes, recipes), lib[i]) && Eligible(lib[i])
    ensures var lib := Library(shapes, recipes); var bases := BaseMobs(shapes, recipes);
      forall k :: 0 <= k < |bases| && Eligible(bases[k]) && HasShape(shapes, ShapeKey(bases[k].id)) ==>
        |lib| >= Cap || HasVariants(shapes, lib, bases[k])
  {
    var bases := BaseMobs(shapes, recipes);
    GrowOrigin(shapes, bases, |bases|);
  }

  /**
   * A base mob whose id names a shape gets exactly four variants, in modifier
   * order, each with id `<mob id>_<suffix in lower case>`, named
   * `<suffix> <name>`, in the base's category, and painted from the
   * base's shape with the modifier's colours and white; a base whose id names no
   * shape gets none.
   */
  lemma VariantsOfShape(shapes: map<string, string>, mob: MobDef)
    ensures HasShape(shapes, ShapeKey(mob.id)) ==> (|VariantsOf(shapes, mob)| == 4
      && forall j :: 0 <= j < 4 ==>
        VariantsOf(shapes, mob)[j].name == Modifiers[j].suffix + " " + mob.name
        && VariantsOf(shapes, mob)[j].category == mob.category
        && VariantsOf(shapes, mob)[j].id == mob.id + "_" + LowerSuffixes[j]
        && VariantsOf(shapes, mob)[j].svg == Tpl(shapes[ShapeKey(mob.id)], Modifiers[j].c1, Modifiers[j].c2, VariantC3))
    ensures !HasShape(shapes, ShapeKey(mob.id)) ==> VariantsOf(shapes, mob) == []
  {
    SuffixesLower();
  }

  /** The modifier suffixes lower-cased, as they end the variant ids. */
  const LowerSuffixes: seq<string> := ["alpha", "spectral", "corrupted", "infernal"]

  lemma SuffixesLower()
    ensures forall j :: 0 <= j < |Modifiers| ==> ToLower(Modifiers[j].suffix) == LowerSuffixes[j]
  {
    assert ToLower("Alpha") == "alpha";
    assert ToLower("Spectral") == "spectral";
    assert ToLower("Corrupted") == "corrupted";
    assert ToLower("Infernal") == "infernal";
  }

  /**
   * A base mob whose base id has a shape gets variants rebuilt from that shape,
   * not from its own coloured SVG; a base mob that fell back to the slime shape
   * gets no variants at all.
   */
  lemma BaseVariants(shapes: map<string, string>, r: Recipe)
    requires "slime" in shapes && NoUnderscore(r.baseId)
    ensures var mob := DefineMob(shapes, r);
      (HasShape(shapes, r.baseId) ==> (|VariantsOf(shapes, mob)| == 4
        && forall j :: 0 <= j < 4 ==> VariantsOf(shapes, mob)[j].svg == Tpl(shapes[r.baseId], Modifiers[j].c1, Modifiers[j].c2, VariantC3)))
      && (!HasShape(shapes, r.baseId) ==> mob.svg == Tpl(shapes["slime"], r.c1, r.c2, r.c3) && VariantsOf(shapes, mob) == [])
  {
    DefineMobShape(shapes, r);
    VariantsOfShape(shapes, DefineMob(shapes, r));
  }

  /** None of the modifier colours can form or hide `#C1`, `#C2` or `#C3`. */
  lemma ModifiersInert()
    ensures forall j :: 0 <= j < |Modifiers| ==> InertMobColour(Modifiers[j].c1) && InertMobColour(Modifiers[j].c2)
  {
    AlphaInert();
    SpectralInert();
    CorruptedInert();
    InfernalInert();
  }

  lemma AlphaInert()
    ensures InertMobColour(Modifiers[0].c1) && InertMobColour(Modifiers[0].c2)
  {
    SixDigitHexColour(Modifiers[0].c1);
    SixDigitHexColour(Modifiers[0].c2);
    HexMobColour(Modifiers[0].c1);
    HexMobColour(Modifiers[0].c2);
  }

  lemma SpectralInert()
    ensures InertMobColour(Modifiers[1].c1) && InertMobColour(Modifiers[1].c2)
  {
    SixDigitHexColour(Modifiers[1].c1);
    SixDigitHexColour(Modifiers[1].c2);
    HexMobColour(Modifiers[1].c1);
    HexMobColour(Modifiers[1].c2);
  }

  lemma CorruptedInert()
    ensures InertMobColour(Modifiers[2].c1) && InertMobColour(Modifiers[2].c2)
  {
    SixDigitHexColour(Modifiers[2].c1);
    SixDigitHexColour(Modifiers[2].c2);
    HexMobColour(Modifiers[2].c1);
    HexMobColour(Modifiers[2].c2);
  }

  lemma InfernalInert()
    ensures InertMobColour(Modifiers[3].c1) && InertMobColour(Modifiers[3].c2)
  {
    SixDigitHexColour(Modifiers[3].c1);
    SixDigitHexColour(Modifiers[3].c2);
    HexMobColour(Modifiers[3].c1);
    HexMobColour(Modifiers[3].c2);
  }

  /** The modifier colours and the variants' white are inert, so no variant
    * keeps a `#C1`, `#C2` or `#C3`. */
  lemma VariantsClear(shapes: map<string, string>, mob: MobDef)
    ensures forall v :: v in VariantsOf(shapes, mob) ==> !Occurs(v.svg, Mark1) && !Occurs(v.svg, Mark2) && !Occurs(v.svg, Mark3)
  {
    HexMobColour(VariantC3);
    ModifiersInert();
    forall v | v in VariantsOf(shapes, mob)
      ensures !Occurs(v.svg, Mark1) && !Occurs(v.svg, Mark2) && !Occurs(v.svg, Mark3)
    {
      var key := ShapeKey(mob.id);
      var j :| 0 <= j < |Modifiers| && v == Variant(mob, Modifiers[j], shapes[key]);
      TplClears(shapes[key], Modifiers[j].c1, Modifiers[j].c2, VariantC3);
    }
  }
}
