/**
 * What the asset tables share: a base part (name and inner SVG), the generated
 * part (id, name, SVG), a colour scheme with the three colour placeholders it
 * fills, numbering of plain categories, and expansion of a base list into one
 * part per colour for every base that asks for a colour.
 */
module Variants {
  import opened TextOps

  datatype Base = Base(name: string, svg: string)

  datatype Part = Part(id: string, name: string, svg: string)

  datatype Colour = Colour(name: string, main: string, dark: string, light: string)

  const CurrentColor: string := "#CURRENT_COLOR"
  const DarkColor: string := "#DARK_COLOR"
  const LightColor: string := "#LIGHT_COLOR"

  // ---------------------------------------------------------------------------
  // Filling the colour placeholders
  // ---------------------------------------------------------------------------

  /** `svg.replace(/#CURRENT_COLOR/g, main).replace(/#DARK_COLOR/g, dark).replace(/#LIGHT_COLOR/g, light)` */
  function Paint(svg: string, col: Colour): string {
    ReplaceAll(ReplaceAll(ReplaceAll(svg, CurrentColor, col.main), DarkColor, col.dark), LightColor, col.light)
  }

  /** A colour value that can neither form nor hide any of the three placeholders. */
  predicate InertValue(v: string) {
    Inert(v, CurrentColor) && Inert(v, DarkColor) && Inert(v, LightColor)
  }

  predicate InertColour(col: Colour) {
    InertValue(col.main) && InertValue(col.dark) && InertValue(col.light)
  }

  predicate InertColours(cols: seq<Colour>) {
    forall j :: 0 <= j < |cols| ==> InertColour(cols[j])
  }

  /** A CSS colour as the tables write it: `#` then lower-case hex digits. */
  predicate HexColour(v: string) {
    |v| >= 2 && v[0] == '#' && forall i :: 1 <= i < |v| ==> HexDigit(v[i])
  }

  predicate HexDigit(c: char) {
    '0' <= c <= '9' || 'a' <= c <= 'f'
  }

  /** `#rrggbb`, the form every palette entry has, spelled out digit by digit. */
  predicate SixDigitHex(v: string) {
    |v| == 7 && v[0] == '#' && HexDigit(v[1]) && HexDigit(v[2]) && HexDigit(v[3])
    && HexDigit(v[4]) && HexDigit(v[5]) && HexDigit(v[6])
  }

  /** A placeholder whose name starts with a capital letter cannot meet a hex colour. */
  lemma HexInert(v: string, p: string)
    requires HexColour(v) && Placeholder(p) && 'A' <= p[1] <= 'Z'
    ensures Inert(v, p)
  {
    assert v[0] !in p[1..];
  }

  lemma ColourPlaceholders()
    ensures Placeholder(CurrentColor) && 'A' <= CurrentColor[1] <= 'Z'
    ensures Placeholder(DarkColor) && 'A' <= DarkColor[1] <= 'Z'
    ensures Placeholder(LightColor) && 'A' <= LightColor[1] <= 'Z'
  {
    assert CurrentColor[1..] == "CURRENT_COLOR";
    assert DarkColor[1..] == "DARK_COLOR";
    assert LightColor[1..] == "LIGHT_COLOR";
  }

  lemma HexValueInert(v: string)
    requires HexColour(v)
    ensures InertValue(v)
  {
    ColourPlaceholders();
    HexInert(v, CurrentColor);
    HexInert(v, DarkColor);
    HexInert(v, LightColor);
  }

  lemma HexColourInert(col: Colour)
    requires HexColour(col.main) && HexColour(col.dark) && HexColour(col.light)
    ensures InertColour(col)
  {
    HexValueInert(col.main);
    HexValueInert(col.dark);
    HexValueInert(col.light);
  }

  lemma SixDigitHexColour(v: string)
    requires SixDigitHex(v)
    ensures HexColour(v)
  {
  }

  /** A palette entry of three `#rrggbb` values is inert. */
  lemma SixDigitColourInert(col: Colour)
    requires SixDigitHex(col.main) && SixDigitHex(col.dark) && SixDigitHex(col.light)
    ensures HexColour(col.main) && HexColour(col.dark) && HexColour(col.light)
    ensures InertColour(col)
  {
    SixDigitHexColour(col.main);
    SixDigitHexColour(col.dark);
    SixDigitHexColour(col.light);
    HexColourInert(col);
  }

  /** After painting with an inert colour, no placeholder is left. */
  lemma PaintClears(svg: string, col: Colour)
    requires InertColour(col)
    ensures !Occurs(Paint(svg, col), CurrentColor)
    ensures !Occurs(Paint(svg, col), DarkColor)
    ensures !Occurs(Paint(svg, col), LightColor)
  {
    var s1 := ReplaceAll(svg, CurrentColor, col.main);
    var s2 := ReplaceAll(s1, DarkColor, col.dark);
    PlaceholderGone(svg, CurrentColor, col.main);
    PlaceholderNotCreated(s1, DarkColor, col.dark, CurrentColor);
    PlaceholderNotCreated(s2, LightColor, col.light, CurrentColor);
    PlaceholderGone(s1, DarkColor, col.dark);
    PlaceholderNotCreated(s2, LightColor, col.light, DarkColor);
    PlaceholderGone(s2, LightColor, col.light);
  }

  /** An SVG without placeholders is painted into itself. */
  lemma PaintKeepsPlain(svg: string, col: Colour)
    requires !Occurs(svg, CurrentColor) && !Occurs(svg, DarkColor) && !Occurs(svg, LightColor)
    ensures Paint(svg, col) == svg
  {
    ReplaceAbsent(svg, CurrentColor, col.main);
    ReplaceAbsent(svg, DarkColor, col.dark);
    ReplaceAbsent(svg, LightColor, col.light);
  }

  // ---------------------------------------------------------------------------
  // Plain categories: `bases.map((b, i) => ({...b, id: `${prefix}${i}`}))`
  // ---------------------------------------------------------------------------

  function Indexed(prefix: string, bases: seq<Base>): (parts: seq<Part>)
    ensures |parts| == |bases|
  {
    seq(|bases|, i requires 0 <= i < |bases| => Part(prefix + Dec(i), bases[i].name, bases[i].svg))
  }

  /** A numbered part keeps its base's name and SVG, its id is the prefix and a
    * numeral that reads back as its position, so the ids are pairwise distinct. */
  lemma IndexedIds(prefix: string, bases: seq<Base>)
    ensures forall i :: 0 <= i < |bases| ==>
      Indexed(prefix, bases)[i].name == bases[i].name && Indexed(prefix, bases)[i].svg == bases[i].svg
      && StartsWith(Indexed(prefix, bases)[i].id, prefix)
      && (forall k :: |prefix| <= k < |Indexed(prefix, bases)[i].id| ==> IsDigit(Indexed(prefix, bases)[i].id[k]))
      && ParseDec(Indexed(prefix, bases)[i].id[|prefix|..]) == i
    ensures forall i, j :: 0 <= i < j < |bases| ==> Indexed(prefix, bases)[i].id != Indexed(prefix, bases)[j].id
  {
    var parts := Indexed(prefix, bases);
    forall i | 0 <= i < |bases|
      ensures StartsWith(parts[i].id, prefix)
      ensures forall k :: |prefix| <= k < |parts[i].id| ==> IsDigit(parts[i].id[k])
      ensures ParseDec(parts[i].id[|prefix|..]) == i
    {
      assert parts[i].id[..|prefix|] == prefix;
      assert parts[i].id[|prefix|..] == Dec(i);
      ParseDecOfDec(i);
    }
  }

  // ---------------------------------------------------------------------------
  // Colour expansion of a base list
  // ---------------------------------------------------------------------------

  predicate Colourable(base: Base) {
    Occurs(base.svg, CurrentColor)
  }

  /** The part for `base` in colour `col`. */
  function ColourVariant(prefix: string, base: Base, col: Colour): Part {
    Part(Sanitise(prefix + "_" + base.name + "_" + col.name), base.name + " (" + col.name + ")", Paint(base.svg, col))
  }

  /** What one base contributes: a part per colour, in colour order, or the base itself. */
  function Expand(prefix: string, base: Base, cols: seq<Colour>): seq<Part>
    decreases |cols|
  {
    if !Colourable(base) then [Part(Sanitise(prefix + "_" + base.name), base.name, base.svg)]
    else if cols == [] then []
    else Expand(prefix, base, cols[..|cols| - 1]) + [ColourVariant(prefix, base, cols[|cols| - 1])]
  }

  /** The parts of the first `n` bases, in base order. */
  function ExpandFirst(prefix: string, bases: seq<Base>, cols: seq<Colour>, n: nat): seq<Part>
    requires n <= |bases|
    decreases n
  {
    if n == 0 then []
    else ExpandFirst(prefix, bases, cols, n - 1) + Expand(prefix, bases[n - 1], cols)
  }

  /** The parts of a whole base list. */
  function ExpandAll(prefix: string, bases: seq<Base>, cols: seq<Colour>): seq<Part> {
    ExpandFirst(prefix, bases, cols, |bases|)
  }

  /**
   * `baseList.forEach(base => ...)`: a colourable base pushes one part per
   * colour, in colour order; any other base pushes itself once.
   */
  method ExpandBases(prefix: string, baseList: seq<Base>, cols: seq<Colour>) returns (pushed: seq<Part>)
    ensures pushed == ExpandAll(prefix, baseList, cols)
  {
    pushed := [];
    for i := 0 to |baseList|
      invariant pushed == ExpandFirst(prefix, baseList, cols, i)
    {
      var base := baseList[i];
      if Occurs(base.svg, CurrentColor) {
        pushed := PushColourVariants(prefix, base, cols, pushed);
      } else {
        pushed := pushed + [Part(Sanitise(prefix + "_" + base.name), base.name, base.svg)];
      }
    }
  }

  /** The colour loop for one colourable base: one part per colour, in colour order. */
  method PushColourVariants(prefix: string, base: Base, cols: seq<Colour>, pushed: seq<Part>) returns (out: seq<Part>)
    requires Colourable(base)
    ensures out == pushed + Expand(prefix, base, cols)
  {
    out := pushed;
    for j := 0 to |cols|
      invariant out == pushed + Expand(prefix, base, cols[..j])
    {
      var col := cols[j];
      out := out + [Part(
        Sanitise(prefix + "_" + base.name + "_" + col.name),
        base.name + " (" + col.name + ")",
        ReplaceAll(ReplaceAll(ReplaceAll(base.svg, CurrentColor, col.main), DarkColor, col.dark), LightColor, col.light))];
      assert cols[..j + 1][..j] == cols[..j];
    }
    assert cols[..|cols|] == cols;
  }

  /** The number of colourable bases among the first `n`. */
  function CountFirst(bases: seq<Base>, n: nat): (c: nat)
    requires n <= |bases|
    ensures c <= n
    decreases n
  {
    if n == 0 then 0 else CountFirst(bases, n - 1) + if Colourable(bases[n - 1]) then 1 else 0
  }

  /** The number of colourable bases. */
  function CountColourable(bases: seq<Base>): (c: nat)
    ensures c <= |bases|
  {
    CountFirst(bases, |bases|)
  }

  /** The count formula after one more base, colourable or not. */
  lemma CountStep(n: nat, m: nat, c: nat, c': nat, front: nat, total: nat, colourable: bool)
    requires c <= m
    requires c' == c + (if colourable then 1 else 0)
    requires front == n * c + (m - c)
    requires total == front + (if colourable then n else 1)
    ensures total == n * c' + (m + 1 - c')
  {
  }

  lemma {:induction false} ExpandSize(prefix: string, base: Base, cols: seq<Colour>)
    ensures |Expand(prefix, base, cols)| == if Colourable(base) then |cols| else 1
    decreases |cols|
  {
    if Colourable(base) && cols != [] {
      ExpandSize(prefix, base, cols[..|cols| - 1]);
    }
  }

  lemma {:induction false} ExpandFirstCount(prefix: string, bases: seq<Base>, cols: seq<Colour>, n: nat)
    requires n <= |bases|
    ensures |ExpandFirst(prefix, bases, cols, n)| == |cols| * CountFirst(bases, n) + (n - CountFirst(bases, n))
    decreases n
  {
    if n > 0 {
      ExpandSize(prefix, bases[n - 1], cols);
      ExpandFirstCount(prefix, bases, cols, n - 1);
      CountStep(|cols|, n - 1, CountFirst(bases, n - 1), CountFirst(bases, n),
        |ExpandFirst(prefix, bases, cols, n - 1)|, |ExpandFirst(prefix, bases, cols, n)|, Colourable(bases[n - 1]));
    }
  }

  /** Each colourable base gives one part per colour, any other base one part. */
  lemma ExpandAllCount(prefix: string, bases: seq<Base>, cols: seq<Colour>)
    ensures |ExpandAll(prefix, bases, cols)| == |cols| * CountColourable(bases) + (|bases| - CountColourable(bases))
  {
    ExpandFirstCount(prefix, bases, cols, |bases|);
  }

  /** The parts of the first `m` bases come first among those of the first `n`. */
  lemma {:induction false} ExpandFirstPrefix(prefix: string, bases: seq<Base>, cols: seq<Colour>, m: nat, n: nat)
    requires m <= n <= |bases|
    ensures |ExpandFirst(prefix, bases, cols, m)| <= |ExpandFirst(prefix, bases, cols, n)|
    ensures ExpandFirst(prefix, bases, cols, n)[..|ExpandFirst(prefix, bases, cols, m)|] == ExpandFirst(prefix, bases, cols, m)
    decreases n
  {
    if m == n {
      TakeWhole(ExpandFirst(prefix, bases, cols, n));
    } else {
      ExpandFirstPrefix(prefix, bases, cols, m, n - 1);
      PrefixOfConcat(ExpandFirst(prefix, bases, cols, n - 1), Expand(prefix, bases[n - 1], cols), ExpandFirst(prefix, bases, cols, m));
    }
  }

  lemma TakeWhole<T>(a: seq<T>)
    ensures a[..|a|] == a
  {
  }

  lemma PrefixOfConcat<T>(a: seq<T>, b: seq<T>, c: seq<T>)
    requires |c| <= |a| && a[..|c|] == c
    ensures |c| <= |a + b| && (a + b)[..|c|] == c
  {
    assert (a + b)[..|c|] == a[..|c|];
  }

  /**
   * Base-major order: the parts of base `k` form one block that starts right
   * after the parts of the bases before it.
   */
  lemma ExpandAllOrder(prefix: string, bases: seq<Base>, cols: seq<Colour>, k: nat)
    requires k < |bases|
    ensures var at := |ExpandFirst(prefix, bases, cols, k)|;
      var block := Expand(prefix, bases[k], cols);
      at + |block| <= |ExpandAll(prefix, bases, cols)|
      && ExpandAll(prefix, bases, cols)[at..at + |block|] == block
  {
    ExpandFirstPrefix(prefix, bases, cols, k + 1, |bases|);
    BlockAfterPrefix(ExpandAll(prefix, bases, cols), ExpandFirst(prefix, bases, cols, k), Expand(prefix, bases[k], cols));
  }

  lemma BlockAfterPrefix<T>(all: seq<T>, front: seq<T>, block: seq<T>)
    requires |front| + |block| <= |all| && all[..|front| + |block|] == front + block
    ensures all[|front|..|front| + |block|] == block
  {
    forall i | 0 <= i < |block|
      ensures all[|front|..|front| + |block|][i] == block[i]
    {
      assert all[|front| + i] == (front + block)[|front| + i];
    }
  }

  lemma BlockIndex<T>(all: seq<T>, at: nat, block: seq<T>, j: nat)
    requires at + |block| <= |all| && all[at..at + |block|] == block && j < |block|
    ensures all[at + j] == block[j]
  {
    assert all[at..at + |block|][j] == all[at + j];
  }

  lemma {:induction false} ColourBlock(prefix: string, base: Base, cols: seq<Colour>, j: nat)
    requires Colourable(base) && j < |cols|
    ensures |Expand(prefix, base, cols)| == |cols|
    ensures Expand(prefix, base, cols)[j] == ColourVariant(prefix, base, cols[j])
    decreases |cols|
  {
    ExpandSize(prefix, base, cols);
    var init := cols[..|cols| - 1];
    ExpandSize(prefix, base, init);
    if j < |init| {
      ColourBlock(prefix, base, init, j);
    }
  }

  /** A part of a colourable base is its variant for one of the colours. */
  lemma {:induction false} ColourMember(prefix: string, base: Base, cols: seq<Colour>, p: Part)
    requires Colourable(base) && p in Expand(prefix, base, cols)
    ensures exists j :: 0 <= j < |cols| && p == ColourVariant(prefix, base, cols[j])
    decreases |cols|
  {
    var n := |cols|;
    if p != ColourVariant(prefix, base, cols[n - 1]) {
      ColourMember(prefix, base, cols[..n - 1], p);
      var j :| 0 <= j < n - 1 && p == ColourVariant(prefix, base, cols[..n - 1][j]);
      assert cols[..n - 1][j] == cols[j];
    }
  }

  /** Entry `j` of the block of base `k`, found in the whole list. */
  lemma BlockEntry(prefix: string, bases: seq<Base>, cols: seq<Colour>, k: nat, j: nat)
    requires k < |bases| && j < |Expand(prefix, bases[k], cols)|
    ensures |ExpandFirst(prefix, bases, cols, k + 1)| == |ExpandFirst(prefix, bases, cols, k)| + |Expand(prefix, bases[k], cols)|
    ensures |ExpandFirst(prefix, bases, cols, k)| + j < |ExpandAll(prefix, bases, cols)|
    ensures ExpandAll(prefix, bases, cols)[|ExpandFirst(prefix, bases, cols, k)| + j] == Expand(prefix, bases[k], cols)[j]
  {
    BlockSplit(prefix, bases, cols, k);
    IndexAfter(ExpandAll(prefix, bases, cols), ExpandFirst(prefix, bases, cols, k), Expand(prefix, bases[k], cols), j);
  }

  /** The whole list starts with the parts of the bases before `k`, then those of base `k`. */
  lemma BlockSplit(prefix: string, bases: seq<Base>, cols: seq<Colour>, k: nat)
    requires k < |bases|
    ensures var front := ExpandFirst(prefix, bases, cols, k); var block := Expand(prefix, bases[k], cols);
      |front| + |block| <= |ExpandAll(prefix, bases, cols)|
      && ExpandAll(prefix, bases, cols)[..|front| + |block|] == front + block
  {
    ExpandFirstPrefix(prefix, bases, cols, k + 1, |bases|);
  }

  lemma IndexAfter<T>(all: seq<T>, front: seq<T>, block: seq<T>, j: nat)
    requires |front| + |block| <= |all| && all[..|front| + |block|] == front + block && j < |block|
    ensures |front| + j < |all| && all[|front| + j] == block[j]
  {
    assert all[|front| + j] == (front + block)[|front| + j];
  }

  /** Colour `j` of colourable base `k` sits `j` places into the block of base `k`. */
  lemma VariantPart(prefix: string, bases: seq<Base>, cols: seq<Colour>, k: nat, j: nat)
    requires k < |bases| && Colourable(bases[k]) && j < |cols|
    ensures |ExpandFirst(prefix, bases, cols, k + 1)| == |ExpandFirst(prefix, bases, cols, k)| + |cols|
    ensures |ExpandFirst(prefix, bases, cols, k)| + j < |ExpandAll(prefix, bases, cols)|
    ensures ExpandAll(prefix, bases, cols)[|ExpandFirst(prefix, bases, cols, k)| + j] == ColourVariant(prefix, bases[k], cols[j])
  {
    ColourBlock(prefix, bases[k], cols, j);
    BlockEntry(prefix, bases, cols, k, j);
  }

  /** The part for colour `j` of colourable base `k`: named after base and
    * colour, painted with the colour, with no placeholder left. */
  lemma VariantAt(prefix: string, bases: seq<Base>, cols: seq<Colour>, k: nat, j: nat)
    requires InertColours(cols) && k < |bases| && Colourable(bases[k]) && j < |cols|
    ensures |ExpandFirst(prefix, bases, cols, k + 1)| == |ExpandFirst(prefix, bases, cols, k)| + |cols|
    ensures |ExpandFirst(prefix, bases, cols, k)| + j < |ExpandAll(prefix, bases, cols)|
    ensures var part := ExpandAll(prefix, bases, cols)[|ExpandFirst(prefix, bases, cols, k)| + j];
      part.name == bases[k].name + " (" + cols[j].name + ")"
      && part.svg == Paint(bases[k].svg, cols[j])
      && !Occurs(part.svg, CurrentColor) && !Occurs(part.svg, DarkColor) && !Occurs(part.svg, LightColor)
  {
    VariantPart(prefix, bases, cols, k, j);
    PaintClears(bases[k].svg, cols[j]);
  }

  /** The single part of a base without `#CURRENT_COLOR`: its own name and SVG. */
  lemma PlainAt(prefix: string, bases: seq<Base>, cols: seq<Colour>, k: nat)
    requires k < |bases| && !Colourable(bases[k])
    ensures var parts := ExpandAll(prefix, bases, cols);
      var at := |ExpandFirst(prefix, bases, cols, k)|;
      at < |parts| && parts[at] == Part(Sanitise(prefix + "_" + bases[k].name), bases[k].name, bases[k].svg)
      && |ExpandFirst(prefix, bases, cols, k + 1)| == at + 1
  {
    BlockEntry(prefix, bases, cols, k, 0);
  }

  /**
   * A part generated from a base: its id is letters and digits only; no
   * `#CURRENT_COLOR` is left; a colour variant has no placeholder left at all and
   * is named after its base and colour; a base without `#CURRENT_COLOR` passes
   * through with its name and SVG.
   */
  lemma ExpandedPart(prefix: string, base: Base, cols: seq<Colour>, p: Part)
    requires InertColours(cols) && p in Expand(prefix, base, cols)
    ensures forall i :: 0 <= i < |p.id| ==> IsAsciiAlnum(p.id[i])
    ensures !Occurs(p.svg, CurrentColor)
    ensures Colourable(base) ==> (!Occurs(p.svg, DarkColor) && !Occurs(p.svg, LightColor)
      && exists j :: 0 <= j < |cols| && p.name == base.name + " (" + cols[j].name + ")" && p.svg == Paint(base.svg, cols[j]))
    ensures !Colourable(base) ==> p.name == base.name && p.svg == base.svg
  {
    if Colourable(base) {
      ColourMember(prefix, base, cols, p);
      var j :| 0 <= j < |cols| && p == ColourVariant(prefix, base, cols[j]);
      PaintClears(base.svg, cols[j]);
    }
  }

  /** An id of letters and digits only, and no `#CURRENT_COLOR` left. */
  predicate GoodPart(p: Part) {
    (forall i :: 0 <= i < |p.id| ==> IsAsciiAlnum(p.id[i])) && !Occurs(p.svg, CurrentColor)
  }

  lemma ExpandGood(prefix: string, base: Base, cols: seq<Colour>)
    requires InertColours(cols)
    ensures forall p :: p in Expand(prefix, base, cols) ==> GoodPart(p)
  {
    forall p | p in Expand(prefix, base, cols)
      ensures GoodPart(p)
    {
      ExpandedPart(prefix, base, cols, p);
    }
  }

  lemma GoodConcat(a: seq<Part>, b: seq<Part>)
    requires forall p :: p in a ==> GoodPart(p)
    requires forall p :: p in b ==> GoodPart(p)
    ensures forall p :: p in a + b ==> GoodPart(p)
  {
  }

  lemma {:induction false} ExpandFirstGood(prefix: string, bases: seq<Base>, cols: seq<Colour>, n: nat)
    requires InertColours(cols) && n <= |bases|
    ensures forall p :: p in ExpandFirst(prefix, bases, cols, n) ==> GoodPart(p)
    decreases n
  {
    if n > 0 {
      ExpandFirstGood(prefix, bases, cols, n - 1);
      ExpandGood(prefix, bases[n - 1], cols);
      GoodConcat(ExpandFirst(prefix, bases, cols, n - 1), Expand(prefix, bases[n - 1], cols));
    }
  }

  /** The properties of `ExpandedPart` for every part of a whole category. */
  lemma ExpandAllParts(prefix: string, bases: seq<Base>, cols: seq<Colour>)
    requires InertColours(cols)
    ensures forall p :: p in ExpandAll(prefix, bases, cols) ==>
      (forall i :: 0 <= i < |p.id| ==> IsAsciiAlnum(p.id[i])) && !Occurs(p.svg, CurrentColor)
  {
    ExpandFirstGood(prefix, bases, cols, |bases|);
  }
}
