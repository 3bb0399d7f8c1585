/**
 * The character part catalogue: `floor` and `feet` are numbered as they are;
 * `armor`, `helmet`, `weaponRight` and `weaponLeft` are expanded into one part
 * per character colour for every base that uses `#CURRENT_COLOR`.
 */
module CharacterAssets {
  import opened TextOps
  import opened Variants

  /** The base tables, one list per category. */
  datatype CharacterBases = CharacterBases(
    floor: seq<Base>, feet: seq<Base>, armor: seq<Base>, helmet: seq<Base>,
    weaponRight: seq<Base>, weaponLeft: seq<Base>)

  /** The generated catalogue, one list per category. */
  datatype Catalogue = Catalogue(
    floor: seq<Part>, feet: seq<Part>, armor: seq<Part>, helmet: seq<Part>,
    weaponRight: seq<Part>, weaponLeft: seq<Part>)

  const CharacterColours: seq<Colour> := [
    Colour("Red", "#ef4444", "#991b1b", "#fca5a5"),
    Colour("Blue", "#3b82f6", "#1e3a8a", "#93c5fd"),
    Colour("Green", "#15803d", "#14532d", "#86efac"),
    Colour("Purple", "#7e22ce", "#581c87", "#d8b4fe"),
    Colour("Steel", "#94a3b8", "#475569", "#cbd5e1"),
    Colour("Gold", "#eab308", "#a16207", "#fde047"),
    Colour("Black", "#374151", "#111827", "#6b7280")
  ]

  /** The catalogue `generateVariants` builds from `bases`. */
  function Generated(bases: CharacterBases): Catalogue {
    Catalogue(
      Indexed("floor_", bases.floor),
      Indexed("feet_", bases.feet),
      ExpandAll("armor", bases.armor, CharacterColours),
      ExpandAll("helmet", bases.helmet, CharacterColours),
      ExpandAll("weaponRight", bases.weaponRight, CharacterColours),
      ExpandAll("weaponLeft", bases.weaponLeft, CharacterColours))
  }

  method GenerateVariants(bases: CharacterBases) returns (assets: Catalogue)
    ensures assets == Generated(bases)
  {
    var armor := ExpandBases("armor", bases.armor, CharacterColours);
    var helmet := ExpandBases("helmet", bases.helmet, CharacterColours);
    var weaponRight := ExpandBases("weaponRight", bases.weaponRight, CharacterColours);
    var weaponLeft := ExpandBases("weaponLeft", bases.weaponLeft, CharacterColours);
    assets := Catalogue(
      Indexed("floor_", bases.floor), Indexed("feet_", bases.feet),
      armor, helmet, weaponRight, weaponLeft);
  }

  /** None of the seven colour values can form or hide a colour placeholder. */
  lemma CharacterColoursInert()
    ensures |CharacterColours| == 7 && InertColours(CharacterColours)
  {
    RedInert();
    BlueInert();
    GreenInert();
    PurpleInert();
    SteelInert();
    GoldInert();
    BlackInert();
  }

  lemma RedInert()
    ensures InertColour(CharacterColours[0])
  {
    SixDigitColourInert(CharacterColours[0]);
  }

  lemma BlueInert()
    ensures InertColour(CharacterColours[1])
  {
    SixDigitColourInert(CharacterColours[1]);
  }

  lemma GreenInert()
    ensures InertColour(CharacterColours[2])
  {
    SixDigitColourInert(CharacterColours[2]);
  }

  lemma PurpleInert()
    ensures InertColour(CharacterColours[3])
  {
    SixDigitColourInert(CharacterColours[3]);
  }

  lemma SteelInert()
    ensures InertColour(CharacterColours[4])
  {
    SixDigitColourInert(CharacterColours[4]);
  }

  lemma GoldInert()
    ensures InertColour(CharacterColours[5])
  {
    SixDigitColourInert(CharacterColours[5]);
  }

  lemma BlackInert()
    ensures InertColour(CharacterColours[6])
  {
    SixDigitColourInert(CharacterColours[6]);
  }

  /**
   * Per colourable base there are seven parts, one per colour, so a coloured
   * category has `7 * colourable + (bases - colourable)` parts; every id is
   * letters and digits only; no `#CURRENT_COLOR` is left in any part.
   */
  lemma CategoryShape(category: string, bases: seq<Base>)
    ensures var parts := ExpandAll(category, bases, CharacterColours);
      |parts| == 7 * CountColourable(bases) + (|bases| - CountColourable(bases))
      && forall p :: p in parts ==>
        (forall i :: 0 <= i < |p.id| ==> IsAsciiAlnum(p.id[i])) && !Occurs(p.svg, CurrentColor)
  {
    CharacterColoursInert();
    ExpandAllCount(category, bases, CharacterColours);
    ExpandAllParts(category, bases, CharacterColours);
  }

  /** A base with `#CURRENT_COLOR` gives seven consecutive parts right after
    * those of the earlier bases, in colour order; colour `j`'s part is named
    * after the base and the colour and painted with it. */
  lemma VariantPlace(category: string, bases: seq<Base>, k: nat, j: nat)
    requires k < |bases| && j < 7 && Colourable(bases[k])
    ensures |ExpandFirst(category, bases, CharacterColours, k + 1)| == |ExpandFirst(category, bases, CharacterColours, k)| + 7
    ensures var parts := ExpandAll(category, bases, CharacterColours);
      var at := |ExpandFirst(category, bases, CharacterColours, k)| + j;
      at < |parts| && parts[at].name == bases[k].name + " (" + CharacterColours[j].name + ")"
      && parts[at].svg == Paint(bases[k].svg, CharacterColours[j])
      && !Occurs(parts[at].svg, CurrentColor) && !Occurs(parts[at].svg, DarkColor) && !Occurs(parts[at].svg, LightColor)
  {
    CharacterColoursInert();
    VariantAt(category, bases, CharacterColours, k, j);
  }
}
