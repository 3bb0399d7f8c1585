/**
 * `formatXml`: collapse the white space between tags, cut the text into tag and
 * text tokens, and print one token per line, indented two spaces per level of
 * open tags.
 */
module FormatXml {
  import opened TextOps

  // ---------------------------------------------------------------------------
  // Scanning helpers
  // ---------------------------------------------------------------------------

  /** The first index from `i` on that holds `c`, or `|s|`. */
  function FirstFrom(s: string, c: char, i: nat): (j: nat)
    requires i <= |s|
    ensures i <= j <= |s| && (j < |s| ==> s[j] == c)
    ensures forall k :: i <= k < j ==> s[k] != c
    decreases |s| - i
  {
    if i == |s| || s[i] == c then i else FirstFrom(s, c, i + 1)
  }

  /** The first index from `i` on that is not white space, or `|s|`. */
  function SpaceRunEnd(s: string, i: nat): (j: nat)
    requires i <= |s|
    ensures i <= j <= |s| && (j < |s| ==> !IsJsSpace(s[j]))
    ensures forall k :: i <= k < j ==> IsJsSpace(s[k])
    decreases |s| - i
  {
    if i == |s| || !IsJsSpace(s[i]) then i else SpaceRunEnd(s, i + 1)
  }

  // ---------------------------------------------------------------------------
  // xml.replace(/>\s*</g, '><')
  // ---------------------------------------------------------------------------

  function CollapseGaps(s: string): string
    decreases |s|
  {
    if s == [] then []
    else
      var j := SpaceRunEnd(s, 1);
      if s[0] == '>' && j < |s| && s[j] == '<' then "><" + CollapseGaps(s[j + 1..])
      else [s[0]] + CollapseGaps(s[1..])
  }

  lemma {:induction false} RemoveSpacesConcat(a: string, b: string)
    ensures RemoveSpaces(a + b) == RemoveSpaces(a) + RemoveSpaces(b)
    decreases |a|
  {
    if a != [] {
      assert (a + b)[0] == a[0];
      assert (a + b)[1..] == a[1..] + b;
      RemoveSpacesConcat(a[1..], b);
      var h: string := if IsJsSpace(a[0]) then [] else [a[0]];
      calc {
        RemoveSpaces(a + b);
        h + RemoveSpaces(a[1..] + b);
        h + (RemoveSpaces(a[1..]) + RemoveSpaces(b));
        (h + RemoveSpaces(a[1..])) + RemoveSpaces(b);
      }
    } else {
      assert a + b == b;
    }
  }

  lemma {:induction false} RemoveSpacesOfSpace(a: string)
    requires AllSpace(a)
    ensures RemoveSpaces(a) == []
    decreases |a|
  {
    if a != [] {
      RemoveSpacesOfSpace(a[1..]);
    }
  }

  /** A run of white space contributes nothing once white space is removed. */
  lemma {:induction false} SkipSpaces(s: string, i: nat, j: nat)
    requires i <= j <= |s| && forall k :: i <= k < j ==> IsJsSpace(s[k])
    ensures RemoveSpaces(s[i..]) == RemoveSpaces(s[j..])
    decreases j - i
  {
    if i < j {
      var t := s[i..];
      assert t[0] == s[i] && t[1..] == s[i + 1..];
      SkipSpaces(s, i + 1, j);
    }
  }

  lemma RemoveSpacesCons(c: char, t: string)
    ensures RemoveSpaces([c] + t) == (if IsJsSpace(c) then [] else [c]) + RemoveSpaces(t)
  {
    assert ([c] + t)[0] == c && ([c] + t)[1..] == t;
  }

  lemma RemoveSpacesHead(s: string)
    requires s != [] && !IsJsSpace(s[0])
    ensures RemoveSpaces(s) == [s[0]] + RemoveSpaces(s[1..])
  {
  }

  /** `>`, a run of white space, `<`: only the two brackets remain. */
  lemma GapText(s: string, j: nat)
    requires 1 <= j < |s| && s[0] == '>' && s[j] == '<'
    requires forall k :: 1 <= k < j ==> IsJsSpace(s[k])
    ensures RemoveSpaces(s) == "><" + RemoveSpaces(s[j + 1..])
  {
    RemoveSpacesHead(s);
    SkipSpaces(s, 1, j);
    var u := s[j..];
    RemoveSpacesHead(u);
    assert u[1..] == s[j + 1..];
  }

  lemma BracketsText(c: string)
    ensures RemoveSpaces("><" + c) == "><" + RemoveSpaces(c)
  {
    RemoveSpacesCons('<', c);
    RemoveSpacesCons('>', "<" + c);
    assert "><" + c == ['>'] + ("<" + c);
  }

  /** Collapsing removes white space only: every other character stays, in order. */
  lemma {:induction false} CollapseKeepsText(s: string)
    ensures RemoveSpaces(CollapseGaps(s)) == RemoveSpaces(s)
    decreases |s|
  {
    if s != [] {
      var j := SpaceRunEnd(s, 1);
      if s[0] == '>' && j < |s| && s[j] == '<' {
        var tail := s[j + 1..];
        var c := CollapseGaps(tail);
        assert CollapseGaps(s) == "><" + c;
        CollapseKeepsText(tail);
        BracketsText(c);
        GapText(s, j);
        assert RemoveSpaces("><" + c) == RemoveSpaces(s);
      } else {
        var tail := s[1..];
        var c := CollapseGaps(tail);
        assert CollapseGaps(s) == [s[0]] + c;
        CollapseKeepsText(tail);
        RemoveSpacesCons(s[0], c);
        var h: string := if IsJsSpace(s[0]) then [] else [s[0]];
        assert RemoveSpaces(s) == h + RemoveSpaces(tail);
        assert RemoveSpaces([s[0]] + c) == RemoveSpaces(s);
      }
    }
  }

  // ---------------------------------------------------------------------------
  // cleanXml.match(/<[^>]+>|[^<]+/g)
  // ---------------------------------------------------------------------------

  /** The global matches of `<[^>]+>|[^<]+`, left to right; a `<` that starts no
    * tag (no `>` after it, or `<>`) is matched by neither alternative and skipped. */
  function Tokenize(s: string): seq<string>
    decreases |s|
  {
    if s == [] then []
    else if s[0] == '<' then
      var j := FirstFrom(s, '>', 1);
      if 1 < j < |s| then [s[..j + 1]] + Tokenize(s[j + 1..]) else Tokenize(s[1..])
    else
      var j := FirstFrom(s, '<', 0);
      [s[..j]] + Tokenize(s[j..])
  }

  predicate IsTagToken(t: string) {
    |t| >= 3 && t[0] == '<' && t[|t| - 1] == '>' && forall k :: 0 < k < |t| - 1 ==> t[k] != '>'
  }

  predicate IsTextToken(t: string) {
    |t| >= 1 && forall k :: 0 <= k < |t| ==> t[k] != '<'
  }

  /** Every token is a tag `<…>` with no `>` inside, or a run of text without `<`. */
  lemma {:induction false} TokenShapes(s: string)
    ensures forall t :: t in Tokenize(s) ==> IsTagToken(t) || IsTextToken(t)
    decreases |s|
  {
    if s != [] {
      if s[0] == '<' {
        var j := FirstFrom(s, '>', 1);
        if 1 < j < |s| {
          TokenShapes(s[j + 1..]);
        } else {
          TokenShapes(s[1..]);
        }
      } else {
        var j := FirstFrom(s, '<', 0);
        TokenShapes(s[j..]);
      }
    }
  }

  function Concat(ts: seq<string>): string
    decreases |ts|
  {
    if ts == [] then [] else ts[0] + Concat(ts[1..])
  }

  /** Every `<` opens a tag: another character follows that is not `>`, and a `>` comes later. */
  predicate NoStrayOpen(s: string) {
    forall i :: 0 <= i < |s| && s[i] == '<' ==>
      i + 1 < |s| && s[i + 1] != '>' && exists j :: i + 1 < j < |s| && s[j] == '>'
  }

  lemma NoStrayOpenSuffix(s: string, m: nat)
    requires m <= |s| && NoStrayOpen(s)
    ensures NoStrayOpen(s[m..])
  {
    var t := s[m..];
    forall i | 0 <= i < |t| && t[i] == '<'
      ensures i + 1 < |t| && t[i + 1] != '>' && exists j :: i + 1 < j < |t| && t[j] == '>'
    {
      assert s[m + i] == '<';
      var j :| m + i + 1 < j < |s| && s[j] == '>';
      assert t[j - m] == '>';
    }
  }

  /** When every `<` opens a tag, the one at the start is closed by the first later `>`. */
  lemma TagEnd(s: string) returns (j: nat)
    requires NoStrayOpen(s) && s != [] && s[0] == '<'
    ensures j == FirstFrom(s, '>', 1) && 1 < j < |s|
    ensures Tokenize(s) == [s[..j + 1]] + Tokenize(s[j + 1..])
  {
    j := FirstFrom(s, '>', 1);
    var w :| 1 < w < |s| && s[w] == '>';
  }

  /** When every `<` opens a tag, no character is lost: the tokens concatenate
    * back to the text. */
  lemma {:induction false} TokensRebuild(s: string)
    requires NoStrayOpen(s)
    ensures Concat(Tokenize(s)) == s
    decreases |s|
  {
    if s != [] {
      if s[0] == '<' {
        var j := TagEnd(s);
        NoStrayOpenSuffix(s, j + 1);
        TokensRebuild(s[j + 1..]);
        assert s == s[..j + 1] + s[j + 1..];
      } else {
        var j := FirstFrom(s, '<', 0);
        NoStrayOpenSuffix(s, j);
        TokensRebuild(s[j..]);
        assert s == s[..j] + s[j..];
      }
    }
  }

  // ---------------------------------------------------------------------------
  // Token kinds and the indentation rule
  // ---------------------------------------------------------------------------

  /** `!token.trim()`: the token is white space only (see `TextOps.TrimEmpty`). */
  predicate IsBlank(t: string) {
    AllSpace(t)
  }

  /** `/^<\//` */
  predicate IsClosing(t: string) {
    |t| >= 2 && t[0] == '<' && t[1] == '/'
  }

  /** `/\/>$/` */
  predicate IsSelfClosing(t: string) {
    |t| >= 2 && t[|t| - 2] == '/' && t[|t| - 1] == '>'
  }

  predicate IsAsciiLetter(c: char) {
    ('a' <= c <= 'z') || ('A' <= c <= 'Z')
  }

  /** `/^<[a-zA-Z]/`, not self-closing and not closing. */
  predicate IsOpening(t: string) {
    |t| >= 2 && t[0] == '<' && IsAsciiLetter(t[1]) && !IsSelfClosing(t) && !IsClosing(t)
  }

  /** The level a token is printed at: one less for a closing tag, never below 0. */
  function PadBefore(pad: nat, t: string): nat {
    if IsClosing(t) then (if pad > 0 then pad - 1 else 0) else pad
  }

  /** The level after a token: one more after an opening tag. */
  function PadAfter(pad: nat, t: string): nat {
    PadBefore(pad, t) + if IsOpening(t) then 1 else 0
  }

  datatype Line = Line(pad: nat, token: string)

  /** The lines printed for `ts` starting at level `pad`; blank tokens print nothing. */
  function Layout(ts: seq<string>, pad: nat): seq<Line>
    decreases |ts|
  {
    if ts == [] then []
    else if IsBlank(ts[0]) then Layout(ts[1..], pad)
    else [Line(PadBefore(pad, ts[0]), ts[0])] + Layout(ts[1..], PadAfter(pad, ts[0]))
  }

  /** The level after `ts`. */
  function FinalPad(ts: seq<string>, pad: nat): nat
    decreases |ts|
  {
    if ts == [] then pad
    else FinalPad(ts[1..], if IsBlank(ts[0]) then pad else PadAfter(pad, ts[0]))
  }

  /** `indent.repeat(pad)` with `indent` two spaces. */
  function Indent(pad: nat): (r: string)
    ensures |r| == 2 * pad && forall k :: 0 <= k < |r| ==> r[k] == ' '
  {
    if pad == 0 then [] else "  " + Indent(pad - 1)
  }

  function Render(lines: seq<Line>): string
    decreases |lines|
  {
    if lines == [] then []
    else Indent(lines[0].pad) + lines[0].token + "\n" + Render(lines[1..])
  }

  function CleanXml(xml: string): string {
    Trim(CollapseGaps(xml))
  }

  /** What `formatXml` returns; the `catch` branch is unreachable in this model. */
  function Formatted(xml: string): string {
    if xml == [] then []
    else
      var tokens := Tokenize(CleanXml(xml));
      if tokens == [] then xml else Trim(Render(Layout(tokens, 0)))
  }

  method FormatXml(xml: string) returns (result: string)
    ensures result == Formatted(xml)
    ensures xml == [] ==> result == []
    ensures Tokenize(CleanXml(xml)) != [] ==> result == [] || (!IsJsSpace(result[0]) && !IsJsSpace(result[|result| - 1]))
  {
    if xml == [] {
      return [];
    }
    var cleanXml := Trim(CollapseGaps(xml));
    var tokens := Tokenize(cleanXml);
    if |tokens| == 0 {
      return xml;
    }
    var formatted := RenderTokens(tokens);
    result := Trim(formatted);
  }

  /** The `forEach` over the tokens, accumulating `formatted` and `pad`. */
  method RenderTokens(tokens: seq<string>) returns (formatted: string)
    ensures formatted == Render(Layout(tokens, 0))
  {
    formatted := [];
    var pad: nat := 0;
    for i := 0 to |tokens|
      invariant formatted + Render(Layout(tokens[i..], pad)) == Render(Layout(tokens, 0))
    {
      var token := tokens[i];
      LayoutStep(tokens, i, pad);
      TrimEmpty(token);
      if Trim(token) == [] {
        continue;
      }
      ghost var rest := Render(Layout(tokens[i + 1..], PadAfter(pad, token)));
      ghost var previous := formatted;
      ghost var line := Indent(PadBefore(pad, token)) + token + "\n";
      formatted, pad := EmitToken(formatted, pad, token);
      ConcatShift(previous, line, rest);
    }
    assert tokens[|tokens|..] == [];
  }

  /** One non-blank token: step back before a closing tag, print the line,
    * step in after an opening tag. */
  method EmitToken(formatted: string, pad: nat, token: string) returns (formatted': string, pad': nat)
    ensures formatted' == formatted + (Indent(PadBefore(pad, token)) + token + "\n")
    ensures pad' == PadAfter(pad, token)
  {
    var isClosing := |token| >= 2 && token[0] == '<' && token[1] == '/';
    var isSelfClosing := |token| >= 2 && token[|token| - 2] == '/' && token[|token| - 1] == '>';
    var isOpening := |token| >= 2 && token[0] == '<' && IsAsciiLetter(token[1]) && !isSelfClosing && !isClosing;
    pad' := pad;
    if isClosing {
      pad' := if pad' - 1 > 0 then pad' - 1 else 0;
    }
    formatted' := formatted + (Indent(pad') + token + "\n");
    if isOpening {
      pad' := pad' + 1;
    }
  }

  lemma ConcatShift(a: string, b: string, c: string)
    ensures a + (b + c) == (a + b) + c
  {
  }

  lemma LayoutStep(ts: seq<string>, i: nat, pad: nat)
    requires i < |ts|
    ensures Render(Layout(ts[i..], pad)) ==
      if IsBlank(ts[i]) then Render(Layout(ts[i + 1..], pad))
      else Indent(PadBefore(pad, ts[i])) + ts[i] + "\n" + Render(Layout(ts[i + 1..], PadAfter(pad, ts[i])))
  {
    assert ts[i..][0] == ts[i] && ts[i..][1..] == ts[i + 1..];
  }

  // ---------------------------------------------------------------------------
  // Properties of the layout
  // ---------------------------------------------------------------------------

  function Tokens(lines: seq<Line>): (ts: seq<string>)
    ensures |ts| == |lines|
    ensures forall k :: 0 <= k < |lines| ==> ts[k] == lines[k].token
  {
    seq(|lines|, k requires 0 <= k < |lines| => lines[k].token)
  }

  function NonBlank(ts: seq<string>): seq<string>
    decreases |ts|
  {
    if ts == [] then [] else (if IsBlank(ts[0]) then [] else [ts[0]]) + NonBlank(ts[1..])
  }

  /** One line per non-blank token, in input order, whatever the levels. */
  lemma {:induction false} LayoutTokens(ts: seq<string>, pad: nat)
    ensures Tokens(Layout(ts, pad)) == NonBlank(ts)
    decreases |ts|
  {
    if ts != [] {
      if IsBlank(ts[0]) {
        LayoutTokens(ts[1..], pad);
      } else {
        var rest := Layout(ts[1..], PadAfter(pad, ts[0]));
        LayoutTokens(ts[1..], PadAfter(pad, ts[0]));
        TokensCons(Line(PadBefore(pad, ts[0]), ts[0]), rest);
      }
    }
  }

  lemma TokensCons(l: Line, rest: seq<Line>)
    ensures Tokens([l] + rest) == [l.token] + Tokens(rest)
  {
    var a := Tokens([l] + rest);
    var b := [l.token] + Tokens(rest);
    forall k | 0 <= k < |a|
      ensures a[k] == b[k]
    {
      if k > 0 {
        assert ([l] + rest)[k] == rest[k - 1];
      }
    }
  }

  /** +1 for an opening tag, -1 for a closing tag, 0 for anything else. */
  function Weight(t: string): int {
    if IsBlank(t) then 0 else if IsOpening(t) then 1 else if IsClosing(t) then -1 else 0
  }

  /** Opening minus closing tags in `ts`. */
  function Depth(ts: seq<string>): int
    decreases |ts|
  {
    if ts == [] then 0 else Weight(ts[0]) + Depth(ts[1..])
  }

  /** No closing tag arrives when, counting from `pad`, no tag is open. */
  predicate NoUnderflow(ts: seq<string>, pad: nat) {
    forall k :: 0 <= k < |ts| && Weight(ts[k]) == -1 ==> pad + Depth(ts[..k]) > 0
  }

  /** The level never falls below the count of open tags, and equals it when no
    * closing tag arrives with nothing open. */
  lemma {:induction false} PadTracksDepth(ts: seq<string>, pad: nat)
    ensures FinalPad(ts, pad) >= pad + Depth(ts)
    ensures NoUnderflow(ts, pad) ==> FinalPad(ts, pad) == pad + Depth(ts)
    decreases |ts|
  {
    if ts != [] {
      var t := ts[0];
      var next := if IsBlank(t) then pad else PadAfter(pad, t);
      PadTracksDepth(ts[1..], next);
      if NoUnderflow(ts, pad) {
        assert ts[..0] == [];
        assert next == pad + Weight(t);
        forall k | 0 <= k < |ts[1..]| && Weight(ts[1..][k]) == -1
          ensures next + Depth(ts[1..][..k]) > 0
        {
          assert ts[..k + 1] == [t] + ts[1..][..k];
          assert ts[..k + 1][1..] == ts[1..][..k];
        }
      }
    }
  }

  lemma {:induction false} LayoutConcat(ts: seq<string>, us: seq<string>, pad: nat)
    ensures Layout(ts + us, pad) == Layout(ts, pad) + Layout(us, FinalPad(ts, pad))
    decreases |ts|
  {
    if ts == [] {
      assert ts + us == us;
    } else {
      assert (ts + us)[1..] == ts[1..] + us;
      LayoutConcat(ts[1..], us, if IsBlank(ts[0]) then pad else PadAfter(pad, ts[0]));
    }
  }

  /** A closing tag that closes an opening tag, with balanced content between
    * them, is printed at the opening tag's level. */
  lemma MatchingTagsAlign(open: string, inner: seq<string>, close: string, pad: nat)
    requires IsOpening(open) && IsClosing(close) && !IsBlank(open) && !IsBlank(close)
    requires Depth(inner) == 0 && NoUnderflow(inner, pad + 1)
    ensures var lines := Layout([open] + inner + [close], pad);
      |lines| >= 2 && lines[0] == Line(pad, open) && lines[|lines| - 1] == Line(pad, close)
  {
    var ts := [open] + inner + [close];
    assert ts[0] == open && ts[1..] == inner + [close];
    assert PadBefore(pad, open) == pad && PadAfter(pad, open) == pad + 1;
    assert Layout(ts, pad) == [Line(pad, open)] + Layout(inner + [close], pad + 1);
    PadTracksDepth(inner, pad + 1);
    assert FinalPad(inner, pad + 1) == pad + 1;
    LayoutConcat(inner, [close], pad + 1);
    assert [close][0] == close && [close][1..] == [];
    assert Layout([close], pad + 1) == [Line(pad, close)];
  }

  // ---------------------------------------------------------------------------
  // Formatting changes white space only
  // ---------------------------------------------------------------------------

  lemma TrimText(s: string)
    ensures RemoveSpaces(Trim(s)) == RemoveSpaces(s)
  {
    var i, j :| 0 <= i <= j <= |s| && Trim(s) == s[i..j] && AllSpace(s[..i]) && AllSpace(s[j..]);
    assert s == s[..i] + s[i..j] + s[j..];
    RemoveSpacesConcat(s[..i] + s[i..j], s[j..]);
    RemoveSpacesConcat(s[..i], s[i..j]);
    RemoveSpacesOfSpace(s[..i]);
    RemoveSpacesOfSpace(s[j..]);
  }

  lemma {:induction false} ConcatText(ts: seq<string>)
    ensures RemoveSpaces(Concat(NonBlank(ts))) == RemoveSpaces(Concat(ts))
    decreases |ts|
  {
    if ts != [] {
      ConcatText(ts[1..]);
      RemoveSpacesConcat(ts[0], Concat(ts[1..]));
      if IsBlank(ts[0]) {
        RemoveSpacesOfSpace(ts[0]);
        assert NonBlank(ts) == NonBlank(ts[1..]);
      } else {
        assert NonBlank(ts) == [ts[0]] + NonBlank(ts[1..]);
        assert ([ts[0]] + NonBlank(ts[1..]))[1..] == NonBlank(ts[1..]);
        RemoveSpacesConcat(ts[0], Concat(NonBlank(ts[1..])));
      }
    }
  }

  /** An indented line keeps only its token's text. */
  lemma LineText(pad: nat, token: string, rest: string)
    ensures RemoveSpaces(Indent(pad) + token + "\n" + rest) == RemoveSpaces(token) + RemoveSpaces(rest)
  {
    var indent := Indent(pad);
    var nl := ['\n'] + rest;
    var body := token + nl;
    ConcatShift(indent + token, ['\n'], rest);
    ConcatShift(indent, token, nl);
    assert indent + token + "\n" + rest == indent + body;
    RemoveSpacesConcat(indent, body);
    assert AllSpace(indent);
    RemoveSpacesOfSpace(indent);
    RemoveSpacesConcat(token, nl);
    RemoveSpacesCons('\n', rest);
  }

  lemma {:induction false} RenderText(lines: seq<Line>)
    ensures RemoveSpaces(Render(lines)) == RemoveSpaces(Concat(Tokens(lines)))
    decreases |lines|
  {
    if lines != [] {
      var l := lines[0];
      var rest := lines[1..];
      assert Render(lines) == Indent(l.pad) + l.token + "\n" + Render(rest);
      var ts := Tokens(lines);
      assert ts[0] == l.token && ts[1..] == Tokens(rest);
      assert Concat(ts) == l.token + Concat(Tokens(rest));
      RenderText(rest);
      LineText(l.pad, l.token, Render(rest));
      RemoveSpacesConcat(l.token, Concat(Tokens(rest)));
    }
  }

  /**
   * When every `<` of the cleaned text opens a tag, formatting only moves white
   * space around: with all white space removed, the result and the input agree.
   */
  lemma FormatKeepsText(xml: string)
    requires NoStrayOpen(CleanXml(xml))
    ensures RemoveSpaces(Formatted(xml)) == RemoveSpaces(xml)
  {
    var clean := CleanXml(xml);
    var tokens := Tokenize(clean);
    if xml != [] && tokens != [] {
      var lines := Layout(tokens, 0);
      TrimText(Render(lines));
      RenderText(lines);
      LayoutTokens(tokens, 0);
      ConcatText(tokens);
      TokensRebuild(clean);
      TrimText(CollapseGaps(xml));
      CollapseKeepsText(xml);
    }
  }
}
