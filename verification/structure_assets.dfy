/**
 * The building part catalogue: five categories are numbered as they are; every
 * roof base is painted in every roof colour, and its `#ID` marks are filled
 * with a suffix drawn for that (base, colour) pair.
 */
module StructureAssets {
  import opened TextOps
  import opened Variants

  datatype StructureBases = StructureBases(
    ground: seq<Base>, foundation: seq<Base>, walls: seq<Base>, roof: seq<Base>,
    entrance: seq<Base>, decor: seq<Base>)

  datatype Catalogue = Catalogue(
    ground: seq<Part>, foundation: seq<Part>, walls: seq<Part>, roof: seq<Part>,
    entrance: seq<Part>, decor: seq<Part>)

  const RoofColours: seq<Colour> := [
    Colour("Red", "#ef4444", "#991b1b", "#fca5a5"),
    Colour("Blue", "#3b82f6", "#1e3a8a", "#93c5fd"),
    Colour("Slate", "#475569", "#0f172a", "#94a3b8"),
    Colour("Wood", "#78350f", "#451a03", "#d4a373"),
    Colour("Green", "#15803d", "#14532d", "#86efac"),
    Colour("Purple", "#7e22ce", "#581c87", "#d8b4fe")
  ]

  const IdMark: string := "#ID"

  /**
   * The random suffixes, one per (base, colour) pair in the order they are
   * drawn: `suffixes[k][j]` is the value drawn for roof base `k` in colour `j`.
   */
  predicate SuffixTable(suffixes: seq<seq<string>>, bases: nat) {
    |suffixes| == bases && forall k :: 0 <= k < bases ==> |suffixes[k]| == |RoofColours|
  }

  /** The roof part for `base` in colour `col` with gradient suffix `uniqueId`. */
  function RoofPart(base: Base, col: Colour, uniqueId: string): Part {
    Part(Sanitise("roof_" + base.name + "_" + col.name), base.name + " (" + col.name + ")",
      ReplaceAll(Paint(base.svg, col), IdMark, uniqueId))
  }

  /** The six parts of one roof base, in colour order. */
  function RoofRow(base: Base, row: seq<string>): (parts: seq<Part>)
    requires |row| == |RoofColours|
    ensures |parts| == |RoofColours|
  {
    seq(|RoofColours|, j requires 0 <= j < |RoofColours| => RoofPart(base, RoofColours[j], row[j]))
  }

  function Roofs(bases: seq<Base>, suffixes: seq<seq<string>>): seq<Part>
    requires SuffixTable(suffixes, |bases|)
    decreases |bases|
  {
    if bases == [] then []
    else
      var n := |bases| - 1;
      Roofs(bases[..n], suffixes[..n]) + RoofRow(bases[n], suffixes[n])
  }

  /** The catalogue `generateStructureAssets` builds from `bases`. */
  function Generated(bases: StructureBases, suffixes: seq<seq<string>>): Catalogue
    requires SuffixTable(suffixes, |bases.roof|)
  {
    Catalogue(
      Indexed("gr_", bases.ground), Indexed("fd_", bases.foundation), Indexed("wl_", bases.walls),
      Roofs(bases.roof, suffixes),
      Indexed("en_", bases.entrance), Indexed("dc_", bases.decor))
  }

  /** `STRUCTURE_BASES.roof.forEach(base => roofColors.forEach(col => ...))` */
  method RoofVariants(bases: seq<Base>, suffixes: seq<seq<string>>) returns (roof: seq<Part>)
    requires SuffixTable(suffixes, |bases|)
    ensures roof == Roofs(bases, suffixes)
  {
    roof := [];
    for k := 0 to |bases|
      invariant roof == Roofs(bases[..k], suffixes[..k])
    {
      var base := bases[k];
      ghost var before := roof;
      for j := 0 to |RoofColours|
        invariant roof == before + RoofRow(base, suffixes[k])[..j]
      {
        var col := RoofColours[j];
        var uniqueId := suffixes[k][j];
        roof := roof + [Part(
          Sanitise("roof_" + base.name + "_" + col.name),
          base.name + " (" + col.name + ")",
          ReplaceAll(ReplaceAll(ReplaceAll(ReplaceAll(base.svg, CurrentColor, col.main), DarkColor, col.dark), LightColor, col.light), IdMark, uniqueId))];
        assert RoofRow(base, suffixes[k])[..j + 1] == RoofRow(base, suffixes[k])[..j] + [RoofRow(base, suffixes[k])[j]];
      }
      assert RoofRow(base, suffixes[k])[..|RoofColours|] == RoofRow(base, suffixes[k]);
      assert bases[..k + 1][..k] == bases[..k] && suffixes[..k + 1][..k] == suffixes[..k];
    }
    assert bases[..|bases|] == bases && suffixes[..|suffixes|] == suffixes;
  }

  method GenerateStructureAssets(bases: StructureBases, suffixes: seq<seq<string>>) returns (assets: Catalogue)
    requires SuffixTable(suffixes, |bases.roof|)
    ensures assets == Generated(bases, suffixes)
  {
    var roof := RoofVariants(bases.roof, suffixes);
    assets := Catalogue(
      Indexed("gr_", bases.ground), Indexed("fd_", bases.foundation), Indexed("wl_", bases.walls),
      roof, Indexed("en_", bases.entrance), Indexed("dc_", bases.decor));
  }

  // ---------------------------------------------------------------------------
  // Properties
  // ---------------------------------------------------------------------------

  /**
   * Every roof base is expanded in all six colours, whether or not it has a
   * placeholder: the part for base `k` in colour `j` is at `6 * k + j`.
   */
  lemma {:induction false} RoofPlace(bases: seq<Base>, suffixes: seq<seq<string>>, k: nat, j: nat)
    requires SuffixTable(suffixes, |bases|) && k < |bases| && j < 6
    ensures |Roofs(bases, suffixes)| == 6 * |bases|
    ensures Roofs(bases, suffixes)[6 * k + j] == RoofPart(bases[k], RoofColours[j], suffixes[k][j])
    decreases |bases|
  {
    var n := |bases| - 1;
    var front := Roofs(bases[..n], suffixes[..n]);
    var row := RoofRow(bases[n], suffixes[n]);
    assert Roofs(bases, suffixes) == front + row;
    if n == 0 {
      assert bases[..n] == [];
    } else if k < n {
      RoofPlace(bases[..n], suffixes[..n], k, j);
      assert (front + row)[6 * k + j] == front[6 * k + j];
    } else {
      RoofPlace(bases[..n], suffixes[..n], 0, 0);
      assert (front + row)[6 * k + j] == row[j];
    }
  }

  lemma IdMarkPlaceholder()
    ensures Placeholder(IdMark) && 'A' <= IdMark[1] <= 'Z'
  {
    assert IdMark[1..] == "ID";
  }

  predicate InertForId(col: Colour) {
    Inert(col.main, IdMark) && Inert(col.dark, IdMark) && Inert(col.light, IdMark)
  }

  lemma HexColourInertForId(col: Colour)
    requires HexColour(col.main) && HexColour(col.dark) && HexColour(col.light)
    ensures InertColour(col) && InertForId(col)
  {
    IdMarkPlaceholder();
    HexColourInert(col);
    HexInert(col.main, IdMark);
    HexInert(col.dark, IdMark);
    HexInert(col.light, IdMark);
  }

  /** None of the six roof colour values can form or hide a colour placeholder
    * or the `#ID` mark. */
  lemma RoofColoursInert()
    ensures |RoofColours| == 6 && InertColours(RoofColours)
    ensures forall j :: 0 <= j < |RoofColours| ==> InertForId(RoofColours[j])
  {
    RedInert();
    BlueInert();
    SlateInert();
    WoodInert();
    GreenInert();
    PurpleInert();
  }

  lemma RedInert()
    ensures InertColour(RoofColours[0]) && InertForId(RoofColours[0])
  {
    SixDigitColourInert(RoofColours[0]);
    HexColourInertForId(RoofColours[0]);
  }

  lemma BlueInert()
    ensures InertColour(RoofColours[1]) && InertForId(RoofColours[1])
  {
    SixDigitColourInert(RoofColours[1]);
    HexColourInertForId(RoofColours[1]);
  }

  lemma SlateInert()
    ensures InertColour(RoofColours[2]) && InertForId(RoofColours[2])
  {
    SixDigitColourInert(RoofColours[2]);
    HexColourInertForId(RoofColours[2]);
  }

  lemma WoodInert()
    ensures InertColour(RoofColours[3]) && InertForId(RoofColours[3])
  {
    SixDigitColourInert(RoofColours[3]);
    HexColourInertForId(RoofColours[3]);
  }

  lemma GreenInert()
    ensures InertColour(RoofColours[4]) && InertForId(RoofColours[4])
  {
    SixDigitColourInert(RoofColours[4]);
    HexColourInertForId(RoofColours[4]);
  }

  lemma PurpleInert()
    ensures InertColour(RoofColours[5]) && InertForId(RoofColours[5])
  {
    SixDigitColourInert(RoofColours[5]);
    HexColourInertForId(RoofColours[5]);
  }

  /**
   * A roof part: its id is letters and digits only, it is named after its base
   * and colour, every `#ID` mark of the painted SVG gets the same suffix (so a
   * gradient's `id` and its `url(#…)` reference still match), and with an inert
   * suffix no placeholder and no `#ID` is left.
   */
  lemma RoofPartShape(base: Base, j: nat, uniqueId: string)
    requires j < 6
    ensures var p := RoofPart(base, RoofColours[j], uniqueId);
      (forall i :: 0 <= i < |p.id| ==> IsAsciiAlnum(p.id[i]))
      && p.name == base.name + " (" + RoofColours[j].name + ")"
      && p.svg == Join(Split(Paint(base.svg, RoofColours[j]), IdMark), uniqueId)
    ensures Inert(uniqueId, IdMark) && Inert(uniqueId, CurrentColor) && Inert(uniqueId, DarkColor) && Inert(uniqueId, LightColor) ==>
      var svg := RoofPart(base, RoofColours[j], uniqueId).svg;
      !Occurs(svg, IdMark) && !Occurs(svg, CurrentColor) && !Occurs(svg, DarkColor) && !Occurs(svg, LightColor)
  {
    var col := RoofColours[j];
    var painted := Paint(base.svg, col);
    IdMarkPlaceholder();
    ReplaceAllIsJoin(painted, IdMark, uniqueId);
    if Inert(uniqueId, IdMark) && Inert(uniqueId, CurrentColor) && Inert(uniqueId, DarkColor) && Inert(uniqueId, LightColor) {
      RoofColoursInert();
      ColourPlaceholders();
      PaintClears(base.svg, col);
      PlaceholderGone(painted, IdMark, uniqueId);
      PlaceholderNotCreated(painted, IdMark, uniqueId, CurrentColor);
      PlaceholderNotCreated(painted, IdMark, uniqueId, DarkColor);
      PlaceholderNotCreated(painted, IdMark, uniqueId, LightColor);
    }
  }

  /** A base-36 suffix (lower-case letters and digits) is inert for every mark. */
  lemma Base36Inert(uniqueId: string)
    requires |uniqueId| > 0 && forall i :: 0 <= i < |uniqueId| ==> ('0' <= uniqueId[i] <= '9' || 'a' <= uniqueId[i] <= 'z')
    ensures Inert(uniqueId, IdMark) && Inert(uniqueId, CurrentColor) && Inert(uniqueId, DarkColor) && Inert(uniqueId, LightColor)
  {
    IdMarkPlaceholder();
    ColourPlaceholders();
  }
}
