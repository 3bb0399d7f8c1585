/**
 * The environment part catalogue: `ground`, `detail` and `shadow` are numbered
 * as they are; `main` is expanded into one part per foliage colour for every
 * base that uses `#CURRENT_COLOR`.
 */
module EnvironmentAssets {
  import opened TextOps
  import opened Variants

  datatype EnvironmentBases = EnvironmentBases(ground: seq<Base>, main: seq<Base>, detail: seq<Base>, shadow: seq<Base>)

  datatype Catalogue = Catalogue(ground: seq<Part>, main: seq<Part>, detail: seq<Part>, shadow: seq<Part>)

  const FoliageColours: seq<Colour> := [
    Colour("Green", "#16a34a", "#14532d", "#4ade80"),
    Colour("Autumn", "#ea580c", "#9a3412", "#fdba74"),
    Colour("Cherry", "#db2777", "#831843", "#f9a8d4"),
    Colour("Snow", "#e2e8f0", "#94a3b8", "#f8fafc"),
    Colour("Dead", "#78350f", "#451a03", "#a8a29e")
  ]

  /** The catalogue `generateAssets` builds from `bases`. */
  function Generated(bases: EnvironmentBases): Catalogue {
    Catalogue(
      Indexed("g_", bases.ground),
      ExpandAll("env", bases.main, FoliageColours),
      Indexed("d_", bases.detail),
      Indexed("s_", bases.shadow))
  }

  method GenerateAssets(bases: EnvironmentBases) returns (assets: Catalogue)
    ensures assets == Generated(bases)
  {
    var main := ExpandBases("env", bases.main, FoliageColours);
    assets := Catalogue(Indexed("g_", bases.ground), main, Indexed("d_", bases.detail), Indexed("s_", bases.shadow));
  }

  /** None of the five foliage colour values can form or hide a colour placeholder. */
  lemma FoliageColoursInert()
    ensures |FoliageColours| == 5 && InertColours(FoliageColours)
  {
    GreenInert();
    AutumnInert();
    CherryInert();
    SnowInert();
    DeadInert();
  }

  lemma GreenInert()
    ensures InertColour(FoliageColours[0])
  {
    SixDigitColourInert(FoliageColours[0]);
  }

  lemma AutumnInert()
    ensures InertColour(FoliageColours[1])
  {
    SixDigitColourInert(FoliageColours[1]);
  }

  lemma CherryInert()
    ensures InertColour(FoliageColours[2])
  {
    SixDigitColourInert(FoliageColours[2]);
  }

  lemma SnowInert()
    ensures InertColour(FoliageColours[3])
  {
    SixDigitColourInert(FoliageColours[3]);
  }

  lemma DeadInert()
    ensures InertColour(FoliageColours[4])
  {
    SixDigitColourInert(FoliageColours[4]);
  }

  /**
   * `main` has five parts per colourable base and one per other base, base by
   * base; every `main` id is letters and digits only and no `#CURRENT_COLOR` is
   * left; the plain categories keep their bases and are numbered from 0.
   */
  lemma CatalogueShape(bases: EnvironmentBases)
    ensures var c := Generated(bases);
      |c.main| == 5 * CountColourable(bases.main) + (|bases.main| - CountColourable(bases.main))
      && (forall p :: p in c.main ==>
        (forall i :: 0 <= i < |p.id| ==> IsAsciiAlnum(p.id[i])) && !Occurs(p.svg, CurrentColor))
      && |c.ground| == |bases.ground| && |c.detail| == |bases.detail| && |c.shadow| == |bases.shadow|
      && (forall i :: 0 <= i < |bases.ground| ==> c.ground[i] == Part("g_" + Dec(i), bases.ground[i].name, bases.ground[i].svg))
      && (forall i :: 0 <= i < |bases.detail| ==> c.detail[i] == Part("d_" + Dec(i), bases.detail[i].name, bases.detail[i].svg))
      && (forall i :: 0 <= i < |bases.shadow| ==> c.shadow[i] == Part("s_" + Dec(i), bases.shadow[i].name, bases.shadow[i].svg))
  {
    FoliageColoursInert();
    ExpandAllCount("env", bases.main, FoliageColours);
    ExpandAllParts("env", bases.main, FoliageColours);
  }

  /** A `main` base with `#CURRENT_COLOR` gives five consecutive parts, in
    * foliage-colour order; colour `j`'s part is named after the base and the
    * colour and painted with it. */
  lemma MainPlace(bases: seq<Base>, k: nat, j: nat)
    requires k < |bases| && j < 5 && Colourable(bases[k])
    ensures |ExpandFirst("env", bases, FoliageColours, k + 1)| == |ExpandFirst("env", bases, FoliageColours, k)| + 5
    ensures var parts := ExpandAll("env", bases, FoliageColours);
      var at := |ExpandFirst("env", bases, FoliageColours, k)| + j;
      at < |parts| && parts[at].name == bases[k].name + " (" + FoliageColours[j].name + ")"
      && parts[at].svg == Paint(bases[k].svg, FoliageColours[j])
      && !Occurs(parts[at].svg, CurrentColor) && !Occurs(parts[at].svg, DarkColor) && !Occurs(parts[at].svg, LightColor)
  {
    FoliageColoursInert();
    VariantAt("env", bases, FoliageColours, k, j);
  }
}
