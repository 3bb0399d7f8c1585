# SVG-Studio core, modelled in Dafny

SVG-Studio is a browser SVG editor with asset constructors. This project models the parts of it
that transform data:

- **Layer export** (`downloadSvgLayers`). The editor parses the current SVG. It selects every
  graphical primitive (`path`, `rect`, `circle`, `ellipse`, `line`, `polyline`, `polygon`, `text`,
  `image`, `use`) in document order. It gives each primitive a unique `id`, synthesising one where
  needed. For every primitive it then builds a copy of the document that keeps only the ancestors
  of that primitive, its own subtree, and the definition elements (`defs`, `style`, `metadata`,
  `title`, `desc`). Each copy goes into a zip archive as `<id>.svg`.
- **XML pretty-printing** (`formatXml`). Runs of white space between tags are collapsed. The text
  is cut into tag and text tokens. Each non-blank token is written on its own line, indented two
  spaces per open element.
- **Catalogue generation** for the character, environment and structure constructors. Bases whose
  SVG uses `#CURRENT_COLOR` are expanded into one part per palette colour. The `#CURRENT_COLOR`,
  `#DARK_COLOR` and `#LIGHT_COLOR` placeholders are substituted, and roof gradients get an
  `#ID` suffix. Other bases are numbered or copied through with a sanitised id.
- **The mob library** (`tpl`, `defineMob`, `generateMobLibrary`). Base mobs are built from shape
  templates by `#C1`/`#C2`/`#C3` substitution. Four modifier variants (Alpha, Spectral, Corrupted,
  Infernal) are then added for each eligible base while the library holds fewer than 200 mobs.

A document is an immutable tree (`SvgTree.Node`), and a node is identified by its path of child
indices. The imperative loops of the source are Dafny methods (`LayerIds.LabelShapes`,
`LayerPrune.CollectAncestors`, `LayerExport.ExportLayers`, `FormatXml.RenderTokens`,
`Variants.ExpandBases`, `StructureAssets.RoofVariants`, `MobAssets.GenerateMobLibrary`). Each
method is proved equal to a specification function, and the properties are proved as lemmas about
those functions. JavaScript string operations are written out:

- a global literal `replace` works left to right and does not rescan (`TextOps.ReplaceAll`);
- `replace(/[^a-zA-Z0-9]/g, '')` is `TextOps.Sanitise`;
- `\s` and `trim()` use the ECMAScript white-space set (`TextOps.IsJsSpace`, `TextOps.Trim`);
- `split('_')[0]` is `TextOps.Split`;
- the `x || fallback` idiom treats a missing key and `""` alike (`MobAssets.HasShape`).

The modules are `TextOps`, `SvgTree`, `LayerIds`, `LayerPrune`, `LayerChain`, `LayerExport`, `FormatXml`,
`Variants`, `CharacterAssets`, `EnvironmentAssets`, `StructureAssets` and `MobAssets`.

The id pass starts with an empty seen-set (`new Set<string>()`, utils/exportUtils.ts:42), so the ids
of elements that are not primitives are never consulted. `LayerExport.DownloadSvgLayers` models that
as written; the consequence is recorded under Findings.

## Model

| member | source | states |
|---|---|---|
| TextOps.ReplaceAllIsJoin | characterAssets.ts:90-93 | a global literal replacement is splitting at every occurrence and joining with the replacement |
| TextOps.JoinSplit | characterAssets.ts:90-93 | splitting at a pattern and joining with the same pattern gives back the text |
| TextOps.PiecesAreFree | mobAssets.ts:165 | no piece produced by `split` contains the separator |
| TextOps.ReplaceAbsent | mobAssets.ts:11-16 | replacing a pattern that does not occur changes nothing |
| TextOps.PlaceholderGone | characterAssets.ts:90-93 | after replacing a `#NAME` placeholder by a value that cannot form it, the placeholder no longer occurs |
| TextOps.PlaceholderNotCreated | characterAssets.ts:90-93 | replacing some other pattern by such a value never creates the placeholder |
| TextOps.Sanitise | characterAssets.ts:88 | the id sanitiser keeps only ASCII letters and digits and never lengthens |
| TextOps.SanitiseFixes | characterAssets.ts:88 | sanitising leaves a text unchanged exactly when it is already letters and digits |
| TextOps.RemoveSpaces | mobAssets.ts:66 | removing `\s` leaves no white-space character and never lengthens |
| TextOps.ParseDecOfDec | characterAssets.ts:65 | the decimal index written into an id reads back as the index |
| TextOps.DecInjective | characterAssets.ts:65-66 | different indexes give different decimal strings |
| TextOps.Trim | utils/formatUtils.ts:13 | `trim()` returns a slice with white-space borders cut off and no white space at either end |
| SvgTree.PrimitivesSound | utils/exportUtils.ts:33-35 | every selected path leads to a graphical primitive |
| SvgTree.PrimitivesComplete | utils/exportUtils.ts:33-35 | every graphical primitive of the document is selected |
| SvgTree.PrimitivesInOrder | utils/exportUtils.ts:35 | the selection is in document order without repeats |
| SvgTree.FindSound | utils/exportUtils.ts:74 | `getElementById` returns an element carrying that id |
| SvgTree.FindFirst | utils/exportUtils.ts:74 | `getElementById` returns the first element in document order with that id |
| SvgTree.FindByIdUnique | utils/exportUtils.ts:74 | when exactly one element has a non-empty id, the lookup finds that element |
| SvgTree.SetIdAtId | utils/exportUtils.ts:57 | writing `shape.id` changes that element's id and no other |
| SvgTree.WithIdsShape | utils/exportUtils.ts:44-60 | writing ids leaves the tree's tags, attributes, text and structure unchanged |
| SvgTree.WithIdsId | utils/exportUtils.ts:44-60 | after the id pass each selected element carries its assigned id; other elements keep theirs |
| SvgTree.NonPrimitiveIdsComplete | utils/exportUtils.ts:43 | the corrected seed holds the id of every non-primitive element that has one |
| LayerIds.FreeCounter | utils/exportUtils.ts:52-56 | the counter loop stops at the first counter `k` whose `${base}_${i+1}_${k}` is unused |
| LayerIds.NextId | utils/exportUtils.ts:45-58 | the id given to one shape is non-empty and not yet seen |
| LayerIds.FreshId | utils/exportUtils.ts:48-56 | the collision loop returns the first candidate if unused, else the first unused suffixed candidate |
| LayerIds.LabelOne | utils/exportUtils.ts:45-59 | one step of the id pass writes the next id into the shape and returns it |
| LayerIds.LabelShapes | utils/exportUtils.ts:43-60 | the id pass computes the specified ids and writes each one into its shape |
| LayerIds.AssignedIdsDistinct | utils/exportUtils.ts:43-60 | the ids after the pass are pairwise distinct, non-empty and outside the seed |
| LayerIds.AssignedIdsStep | utils/exportUtils.ts:44-59 | each shape's id is computed against the seed plus the ids of the earlier shapes |
| LayerIds.AssignedIdsKeep | utils/exportUtils.ts:46 | a shape keeps its id exactly when the id is non-empty and not yet seen |
| LayerIds.AssignedIdsSynthesised | utils/exportUtils.ts:48-56 | a replaced id is `${tag}_${i+1}` if that is free and the shape had none; otherwise it is the first free `${tag}_${i+1}_${k}` |
| LayerIds.AssignedIdsIdempotent | utils/exportUtils.ts:43-60 | running the pass again on its own output changes no id |
| LayerPrune.AncestorSetIff | utils/exportUtils.ts:77-83 | the ancestor set holds exactly the prefixes of the target's path, the target included |
| LayerPrune.CollectAncestors | utils/exportUtils.ts:78-83 | the parent walk collects exactly the ancestor set |
| LayerPrune.PrimitiveNotDefinitional | utils/exportUtils.ts:90 | no graphical primitive is one of the always-kept definition tags |
| LayerPrune.LayerKeepsTarget | utils/exportUtils.ts:86-107 | the pruned copy still contains the target element with its whole subtree |
| LayerPrune.LayerKeepsDefinitions | utils/exportUtils.ts:90 | whatever the target, even one not in the document, a `defs`/`style`/`metadata`/`title`/`desc` directly under the root survives pruning unchanged |
| LayerChain.LayerKeepsChain | utils/exportUtils.ts:86-104 | the layer holds a path as long as the target's; at each level it meets the ancestor at that level, nested as in the document, with its tag, id and attributes unchanged and only its element children pruned, keeping every definition element and non-element child of that ancestor; the path ends at the target with its whole subtree unchanged |
| LayerPrune.CleanOffChain | utils/exportUtils.ts:101-103 | an element that is neither an ancestor nor the target draws nothing after pruning |
| LayerPrune.LayerDrawsTarget | utils/exportUtils.ts:86-107 | when the target's ancestors are plain containers, the layer draws exactly what the target draws |
| LayerPrune.LayerOfDefinitionDrawsNothing | utils/exportUtils.ts:90 | a target inside a definition element gives a layer that draws nothing |
| LayerExport.ZipPutSize | utils/exportUtils.ts:113 | `zip.file` appends a new name and replaces an existing one; the name set gains the name |
| LayerExport.CollectLayers | utils/exportUtils.ts:66-115 | the per-layer loop writes the specified entries and counts the layers it found |
| LayerExport.ExportLayers | utils/exportUtils.ts:37-120 | the export loop computes the specified outcome: no shapes, nothing processed, or the archive |
| LayerExport.DownloadSvgLayers | utils/exportUtils.ts:29-124 | the exporter as written, with the id seen-set starting empty |
| LayerExport.ExportNoShapes | utils/exportUtils.ts:37-40 | the export stops with "no shapes" exactly when the document has no graphical primitive |
| LayerExport.Labelling | utils/exportUtils.ts:43-60 | after the id pass the layer ids are distinct, non-empty, outside the seed, and carried by their shapes |
| LayerExport.CollectAll | utils/exportUtils.ts:66-115 | when every id is found, one entry per id is written, named `<id>.svg`, in selection order |
| LayerExport.ExportArchive | utils/exportUtils.ts:62-120 | a document with primitives yields an archive with one layer per primitive, entry k being the pruned copy around the element found for id k |
| LayerExport.ExportFindsOwnShape | utils/exportUtils.ts:74 | when no non-primitive id can be reused, the lookup for each layer id finds that layer's own primitive |
| LayerExport.DownloadSvgLayersSeeded | utils/exportUtils.ts:43 | the corrected exporter, whose id pass starts from the ids of the non-primitive elements |
| LayerExport.SeededLayerKeepsShape | utils/exportUtils.ts:66-114 | with the corrected seed, each layer contains its own primitive |
| LayerExport.SeededLayerDrawsShape | utils/exportUtils.ts:66-114 | with the corrected seed and plain containers, each layer draws exactly its own primitive |
| LayerExport.SharedIdLosesShape | utils/exportUtils.ts:43-75 | a `<g id="a">` before `<rect id="a">` makes the exporter as written emit `a.svg` drawing nothing |
| LayerExport.SharedIdSeededKeepsShape | utils/exportUtils.ts:43-75 | on the same document the corrected exporter's layer draws the rectangle |
| FormatXml.CollapseKeepsText | utils/formatUtils.ts:13 | collapsing `>\s*<` removes white space only |
| FormatXml.TokenShapes | utils/formatUtils.ts:17 | each token is a `<…>` tag without an inner `>` or a text run without `<` |
| FormatXml.TokensRebuild | utils/formatUtils.ts:17 | when every `<` opens a tag, the tokens concatenate back to the cleaned text |
| FormatXml.Indent | utils/formatUtils.ts:10 | the indentation for depth `pad` is exactly `2·pad` spaces |
| FormatXml.EmitToken | utils/formatUtils.ts:25-42 | a non-blank token is printed one level back when it is a closing tag, never below 0, and the level goes up after an opening tag |
| FormatXml.RenderTokens | utils/formatUtils.ts:22-43 | the token loop renders the specified layout: one indented line per non-blank token |
| FormatXml.FormatXml | utils/formatUtils.ts:4-50 | empty input gives `""`; otherwise the result is the trimmed rendering, or the raw input when there are no tokens |
| FormatXml.LayoutTokens | utils/formatUtils.ts:23 | the lines hold exactly the non-blank tokens, in order |
| FormatXml.PadTracksDepth | utils/formatUtils.ts:33-42 | the final indent is at least the start plus the opened-minus-closed depth, and equal to it when no closing tag hits zero |
| FormatXml.LayoutConcat | utils/formatUtils.ts:22-43 | laying out two token runs is laying out the second from where the first left the indent |
| FormatXml.MatchingTagsAlign | utils/formatUtils.ts:26-42 | an opening tag and its matching closing tag are printed at the same indentation |
| FormatXml.FormatKeepsText | utils/formatUtils.ts:4-50 | when every `<` opens a tag, formatting changes white space only |
| Variants.PaintClears | characterAssets.ts:90-93 | painting with hex colours leaves no `#CURRENT_COLOR`, `#DARK_COLOR` or `#LIGHT_COLOR` |
| Variants.PaintKeepsPlain | characterAssets.ts:90-93 | painting an SVG without placeholders leaves it unchanged |
| Variants.HexColourInert | characterAssets.ts:73-81 | a colour written `#` plus lower-case hex digits can neither form nor hide a placeholder |
| Variants.IndexedIds | characterAssets.ts:65-66 | numbered parts keep name and SVG, get id prefix then the decimal index, and the ids are distinct |
| Variants.ExpandBases | characterAssets.ts:83-104 | the category loop pushes the specified parts in base order |
| Variants.ExpandAllCount | characterAssets.ts:83-104 | a category holds one part per colour for each colourable base and one per other base |
| Variants.PushColourVariants | characterAssets.ts:85-95 | the colour loop for one base appends exactly that base's parts, one per colour in colour order |
| Variants.ColourBlock | characterAssets.ts:85-95 | a colourable base yields one part per colour, and its part j is the variant in colour j |
| Variants.ExpandAllOrder | characterAssets.ts:84-103 | the parts of base k form one block, equal to what base k yields on its own, right after the parts of the bases before it |
| Variants.VariantAt | characterAssets.ts:85-95 | a colourable base gives one part per colour, in colour order, named `name (colour)`, painted, with no placeholder left |
| Variants.PlainAt | characterAssets.ts:96-101 | a base without `#CURRENT_COLOR` gives exactly one part with a sanitised id, its name and its SVG |
| Variants.ExpandedPart | characterAssets.ts:84-103 | every part comes from one base, as a painted colour variant or as the base itself |
| Variants.ExpandAllParts | characterAssets.ts:88-98 | every generated id is letters and digits only, and no part keeps `#CURRENT_COLOR` |
| CharacterAssets.GenerateVariants | characterAssets.ts:63-112 | the catalogue numbers `floor_i`/`feet_i` and expands armor, helmet and both weapon slots |
| CharacterAssets.CharacterColoursInert | characterAssets.ts:73-81 | the seven character colours are safe substitution values |
| CharacterAssets.CategoryShape | characterAssets.ts:83-109 | a coloured category has `7·colourable + plain` parts, alphanumeric ids, no `#CURRENT_COLOR` |
| CharacterAssets.VariantPlace | characterAssets.ts:85-95 | a colourable base gives seven consecutive parts, one per colour, named and painted |
| EnvironmentAssets.GenerateAssets | environmentAssets.ts:39-77 | ground/detail/shadow are numbered `g_`/`d_`/`s_`; main is expanded over the foliage colours |
| EnvironmentAssets.FoliageColoursInert | environmentAssets.ts:47-53 | the five foliage colours are safe substitution values |
| EnvironmentAssets.CatalogueShape | environmentAssets.ts:39-77 | main has `5·colourable + plain` parts with alphanumeric ids and no `#CURRENT_COLOR`; the other categories are the bases with ids `g_i`, `d_i`, `s_i` |
| EnvironmentAssets.MainPlace | environmentAssets.ts:55-66 | a colourable main base gives five consecutive parts, named and painted per foliage colour |
| StructureAssets.RoofVariants | structureAssets.ts:74-89 | the nested roof loop pushes the specified parts, base-major and colour-minor |
| StructureAssets.GenerateStructureAssets | structureAssets.ts:55-92 | five categories are numbered `gr_`/`fd_`/`wl_`/`en_`/`dc_`; roof gets six parts per base |
| StructureAssets.RoofPlace | structureAssets.ts:74-89 | there are six roof parts per base, and part `6k+j` is base k in roof colour j with suffix `(k,j)` |
| StructureAssets.RoofColoursInert | structureAssets.ts:65-72 | the six roof colours can neither form nor hide a colour placeholder or `#ID` |
| StructureAssets.RoofPartShape | structureAssets.ts:79-87 | a roof part has an alphanumeric id and name `name (colour)`; with a safe suffix no placeholder or `#ID` remains |
| StructureAssets.Base36Inert | structureAssets.ts:77 | a non-empty base-36 suffix is a safe substitution value |
| MobAssets.TplClears | mobAssets.ts:11-16 | `tpl` with hex colours leaves no `#C1`/`#C2`/`#C3`; without marks it changes nothing |
| MobAssets.HexMobColour | mobAssets.ts:11-16 | a hex colour can neither form nor hide a `#C` mark |
| MobAssets.DefineMobShape | mobAssets.ts:62-71 | a mob's id is `baseId_` followed, character by character, by the name's non-white-space characters lower-cased, so it holds no white space or upper-case letter after `baseId`; reading it up to the first `_` gives back a base id without `_`; it keeps name and category; its SVG comes from its shape, or from the slime shape when there is none |
| MobAssets.GenerateMobLibrary | mobAssets.ts:73-178 | the generator returns the base mobs followed by the variants |
| MobAssets.GrowBounds | mobAssets.ts:158-175 | the base mobs stay first and unchanged; with the cap checked per base the library ends at most 3 over 200 |
| MobAssets.LibraryBounds | mobAssets.ts:73-178 | the library has between `|recipes|` and `max(|recipes|, 203)` mobs and starts with the base mobs |
| MobAssets.GrowPlaces | mobAssets.ts:159-174 | an eligible base whose id names a shape, reached while the library holds fewer than 200 mobs, gets its four variants in modifier order at the end of the library as it stood, and every later stage keeps them there |
| MobAssets.GrowOrigin | mobAssets.ts:158-175 | both directions: every added mob is a modifier variant of an eligible base mob, built from that base's shape; and unless the library has reached 200 mobs, every eligible base whose id names a shape has all four variants in it |
| MobAssets.LibraryOrigin | mobAssets.ts:158-175 | both directions for the whole library: every mob after the bases is a variant of a non-boss, non-critter base mob, and unless the library holds 200 or more, every such base with a shape has all four variants in it |
| MobAssets.PushVariants | mobAssets.ts:164-174 | the modifier loop for one base appends exactly that base's variants, in modifier order |
| MobAssets.VariantsOfShape | mobAssets.ts:164-173 | a base whose id names a shape gets four variants in modifier order, with ids `<mob id>_alpha`, `_spectral`, `_corrupted`, `_infernal`, names `<suffix> <name>`, the base's category and the modifier's colours; otherwise none |
| MobAssets.BaseVariants | mobAssets.ts:62-71 | a base mob whose shape exists gets four variants rebuilt from that shape; one that fell back to the slime shape gets none |
| MobAssets.VariantsClear | mobAssets.ts:151-172 | no variant SVG keeps a `#C1`, `#C2` or `#C3` mark |

## Left out

- Parsing and serialising (`DOMParser`, `XMLSerializer`) are not modelled. The exporter takes
  the parsed tree as input, and a layer is the pruned tree rather than its text.
- DOM identity and in-place mutation are modelled on values. `cloneNode` is the identity on an
  immutable tree. `node.remove()` is leaving a child out of the rebuilt children. An ancestor
  node is its path.
- The `Blob`, the zip compression (`generateAsync`), `saveBlob` and the `alert` messages are left
  out. The archive is the list of its entries, and the outcome says which alert would be shown.
- `downloadSvgFile`, `downloadPng`, `validateXML` and the UI components are not part of this model.
- The `try`/`catch` in `formatXml` is left out, because nothing in the modelled body throws.
- FormatXml.FormatXml: the result is trimmed only when the tokenizer finds tokens. When it finds
  none (input that is white space only, or only `<` characters that open no tag), the raw input
  is returned, as the source does.
- Lower-casing (`toLowerCase`) maps ASCII letters only. The white-space class is the ECMAScript
  set up to U+FEFF. No other Unicode case folding is modelled.
- The base tables (`BASES`, `ENV_BASES`, `STRUCTURE_BASES`, `SHAPES` and the sixty `defineMob`
  calls) are inputs. The palettes and the mob modifiers are constants copied exactly.
- StructureAssets.GenerateStructureAssets: `Math.random().toString(36).substr(2, 9)` becomes a
  table of suffixes given per base and colour. Their being random and distinct is not modelled.
  `StructureAssets.Base36Inert` covers what the lemmas need from their alphabet.
- The default third colour of `tpl`, `'#000'`, is not modelled, because every call in the
  source passes a third colour.
- A lookup in `SHAPES` is a map lookup, so keys inherited from
  `Object.prototype` (such as `constructor`) are not modelled.
- LayerKeepsDefinitions: stated for the definition elements directly under the root, for any
  target. Those under deeper ancestors of a target in the document are covered by
  `LayerChain.LayerKeepsChain`.
- LayerPrune.LayerKeepsTarget: stated for targets below the root element. When the root is itself
  a primitive, the source prunes only its children.
- How a layer renders in a browser (CSS, `use` references into pruned branches) is not modelled.
  `Drawn` only lists the primitive elements that a layer still contains outside definition
  elements.

## Findings

| source | as written | input that shows it | evidently intended | confidence | as-written member | corrected member |
|---|---|---|---|---|---|---|
| utils/exportUtils.ts:43-75 | the id pass's seen-set starts empty, so a primitive may keep an id that a non-primitive element also has; `getElementById` then returns the earlier, non-primitive element, and that layer keeps the wrong subtree | `<svg><g id="a"/><rect id="a"/></svg>`: the only layer, `a.svg`, keeps the empty group and drops the rectangle | each layer contains and draws its own primitive; seeding the seen-set with the ids of the non-primitive elements makes every layer id unique in the document | not executed | LayerExport.SharedIdLosesShape | LayerExport.SeededLayerDrawsShape |
