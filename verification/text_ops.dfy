/**
 * String operations shared by the asset generators, the XML formatter and the
 * layer exporter: JavaScript's global `String.prototype.replace` with a literal
 * pattern, the character-class filters used to build ids, decimal rendering of
 * indices, ASCII lower-casing and `String.prototype.trim`.
 */
module TextOps {

  // ---------------------------------------------------------------------------
  // Occurrences
  // ---------------------------------------------------------------------------

  /** `s` begins with `p`. */
  predicate StartsWith(s: string, p: string) {
    |p| <= |s| && s[..|p|] == p
  }

  /**
   * `s` begins with `p`, compared one character at a time; the scans below test
   * their matches this way.
   */
  predicate HasPrefix(s: string, p: string)
    decreases |p|
  {
    |p| <= |s| && (p == [] || (s[0] == p[0] && HasPrefix(s[1..], p[1..])))
  }

  lemma {:induction false} HasPrefixStartsWith(s: string, p: string)
    ensures HasPrefix(s, p) <==> StartsWith(s, p)
    decreases |p|
  {
    if p != [] && |p| <= |s| {
      HasPrefixStartsWith(s[1..], p[1..]);
      StartsWithHead(s[0], s[1..], p);
      assert [s[0]] + s[1..] == s;
    }
  }

  /** `p` starts at position `i` of `s`. */
  predicate OccursAt(s: string, p: string, i: nat) {
    i <= |s| && StartsWith(s[i..], p)
  }

  /** `p` occurs somewhere in `s` (what `s.includes(p)` answers). */
  predicate Occurs(s: string, p: string) {
    exists i: nat :: i <= |s| && OccursAt(s, p, i)
  }

  /** An occurrence is at the start or in the rest of the string. */
  lemma OccursStep(s: string, p: string)
    ensures Occurs(s, p) <==> StartsWith(s, p) || (|s| > 0 && Occurs(s[1..], p))
  {
    if StartsWith(s, p) {
      assert s[0..] == s;
      assert OccursAt(s, p, 0);
    }
    if Occurs(s, p) && !StartsWith(s, p) {
      var i: nat :| i <= |s| && OccursAt(s, p, i);
      assert i > 0 && s[1..][i - 1..] == s[i..];
      assert OccursAt(s[1..], p, i - 1);
    }
    if |s| > 0 && Occurs(s[1..], p) {
      var i: nat :| i <= |s[1..]| && OccursAt(s[1..], p, i);
      assert s[i + 1..] == s[1..][i..];
      assert OccursAt(s, p, i + 1);
    }
  }

  lemma ShortHasNoOccurrence(s: string, p: string)
    requires |s| < |p|
    ensures !Occurs(s, p)
  {
  }

  /** An occurrence in a suffix is an occurrence in the whole string. */
  lemma OccursInSuffix(s: string, k: nat, p: string)
    requires k <= |s|
    ensures Occurs(s[k..], p) ==> Occurs(s, p)
  {
    if Occurs(s[k..], p) {
      var i: nat :| i <= |s[k..]| && OccursAt(s[k..], p, i);
      assert s[k + i..] == s[k..][i..];
      assert OccursAt(s, p, k + i);
    }
  }

  /** An occurrence in `a + b` lies in `b` or starts inside `a`. */
  lemma OccursInConcat(a: string, b: string, p: string)
    ensures Occurs(a + b, p) ==>
              Occurs(b, p) || exists j :: 0 <= j < |a| && StartsWith((a + b)[j..], p)
  {
    if Occurs(a + b, p) {
      var i: nat :| i <= |a + b| && OccursAt(a + b, p, i);
      if i >= |a| {
        assert b[i - |a|..] == (a + b)[i..];
        assert OccursAt(b, p, i - |a|);
      }
    }
  }

  // ---------------------------------------------------------------------------
  // Global replacement of a literal pattern
  // ---------------------------------------------------------------------------

  /**
   * `s.replace(/pat/g, rep)` for a pattern made of literal characters: scan left
   * to right, replace every match, resume after it. The replacement strings used
   * by the generators contain no `$`, so no substitution pattern applies.
   */
  function ReplaceAll(s: string, pat: string, rep: string): string
    requires |pat| > 0
    decreases |s|
  {
    if |s| < |pat| then s
    else if HasPrefix(s, pat) then rep + ReplaceAll(s[|pat|..], pat, rep)
    else [s[0]] + ReplaceAll(s[1..], pat, rep)
  }

  /** The pieces of `s` between the matches that `ReplaceAll` finds. */
  function Split(s: string, pat: string): (parts: seq<string>)
    requires |pat| > 0
    ensures |parts| > 0
    decreases |s|
  {
    if |s| < |pat| then [s]
    else if HasPrefix(s, pat) then [""] + Split(s[|pat|..], pat)
    else
      var rest := Split(s[1..], pat);
      [[s[0]] + rest[0]] + rest[1..]
  }

  /** The pieces glued back together with `sep` between neighbours. */
  function Join(parts: seq<string>, sep: string): string
    requires |parts| > 0
    decreases |parts|
  {
    if |parts| == 1 then parts[0] else parts[0] + sep + Join(parts[1..], sep)
  }

  lemma JoinHead(c: char, p: string, ps: seq<string>, sep: string)
    ensures Join([[c] + p] + ps, sep) == [c] + Join([p] + ps, sep)
  {
    if ps != [] {
      assert ([[c] + p] + ps)[1..] == ps;
      assert ([p] + ps)[1..] == ps;
    }
  }

  /** Splitting at the matches and joining with the pattern gives back `s`. */
  lemma {:induction false} JoinSplit(s: string, pat: string)
    requires |pat| > 0
    ensures Join(Split(s, pat), pat) == s
    decreases |s|
  {
    if |s| < |pat| {
    } else if HasPrefix(s, pat) {
      var tail := s[|pat|..];
      var rest := Split(tail, pat);
      var parts := [""] + rest;
      assert Split(s, pat) == parts;
      assert parts[0] == "" && parts[1..] == rest;
      JoinSplit(tail, pat);
      assert Join(parts, pat) == "" + pat + tail;
      HasPrefixStartsWith(s, pat);
      assert s == pat + tail;
    } else {
      var tail := s[1..];
      var rest := Split(tail, pat);
      assert Split(s, pat) == [[s[0]] + rest[0]] + rest[1..];
      JoinSplit(tail, pat);
      assert rest == [rest[0]] + rest[1..];
      JoinHead(s[0], rest[0], rest[1..], pat);
      assert s == [s[0]] + tail;
    }
  }

  /**
   * Replacing every match is joining the same pieces with the replacement: each
   * match becomes `rep`, and the text between matches is left as it was.
   */
  lemma {:induction false} ReplaceAllIsJoin(s: string, pat: string, rep: string)
    requires |pat| > 0
    ensures ReplaceAll(s, pat, rep) == Join(Split(s, pat), rep)
    decreases |s|
  {
    if |s| < |pat| {
    } else if HasPrefix(s, pat) {
      var tail := s[|pat|..];
      var rest := Split(tail, pat);
      var parts := [""] + rest;
      assert Split(s, pat) == parts;
      assert parts[0] == "" && parts[1..] == rest;
      ReplaceAllIsJoin(tail, pat, rep);
      assert ReplaceAll(s, pat, rep) == rep + ReplaceAll(tail, pat, rep);
      assert Join(parts, rep) == "" + rep + Join(rest, rep);
    } else {
      var tail := s[1..];
      var rest := Split(tail, pat);
      assert Split(s, pat) == [[s[0]] + rest[0]] + rest[1..];
      assert ReplaceAll(s, pat, rep) == [s[0]] + ReplaceAll(tail, pat, rep);
      ReplaceAllIsJoin(tail, pat, rep);
      assert rest == [rest[0]] + rest[1..];
      JoinHead(s[0], rest[0], rest[1..], rep);
    }
  }

  lemma {:induction false} FirstPieceIsPrefix(s: string, pat: string)
    requires |pat| > 0
    ensures |Split(s, pat)[0]| <= |s| && s[..|Split(s, pat)[0]|] == Split(s, pat)[0]
    decreases |s|
  {
    if |s| >= |pat| && !HasPrefix(s, pat) {
      FirstPieceIsPrefix(s[1..], pat);
    }
  }

  /** No piece between two matches contains the pattern. */
  lemma {:induction false} PiecesAreFree(s: string, pat: string)
    requires |pat| > 0
    ensures forall i :: 0 <= i < |Split(s, pat)| ==> !Occurs(Split(s, pat)[i], pat)
    decreases |s|
  {
    if |s| < |pat| {
      ShortHasNoOccurrence(s, pat);
    } else if HasPrefix(s, pat) {
      var tail := s[|pat|..];
      var rest := Split(tail, pat);
      var parts := [""] + rest;
      assert Split(s, pat) == parts;
      PiecesAreFree(tail, pat);
      ShortHasNoOccurrence("", pat);
      forall i | 0 <= i < |parts|
        ensures !Occurs(parts[i], pat)
      {
        if i > 0 {
          assert parts[i] == rest[i - 1];
        }
      }
    } else {
      var tail := s[1..];
      var rest := Split(tail, pat);
      var head := [s[0]] + rest[0];
      var parts := [head] + rest[1..];
      assert Split(s, pat) == parts;
      PiecesAreFree(tail, pat);
      FirstPieceIsPrefix(tail, pat);
      assert head[1..] == rest[0];
      assert head == s[..|head|];
      assert |pat| <= |head| ==> head[..|pat|] == s[..|pat|];
      HasPrefixStartsWith(s, pat);
      OccursStep(head, pat);
      forall i | 0 <= i < |parts|
        ensures !Occurs(parts[i], pat)
      {
        if i > 0 {
          assert parts[i] == rest[i];
        }
      }
    }
  }

  /** A string without the pattern is left unchanged. */
  lemma {:induction false} ReplaceAbsent(s: string, pat: string, rep: string)
    requires |pat| > 0
    requires !Occurs(s, pat)
    ensures ReplaceAll(s, pat, rep) == s
    decreases |s|
  {
    if |s| >= |pat| {
      OccursStep(s, pat);
      HasPrefixStartsWith(s, pat);
      ReplaceAbsent(s[1..], pat, rep);
    }
  }

  // ---------------------------------------------------------------------------
  // Colour placeholders (`#CURRENT_COLOR`, `#C1`, `#ID`, ...)
  // ---------------------------------------------------------------------------

  /** A placeholder: `#` followed by at least one character, no other `#`. */
  predicate Placeholder(p: string) {
    |p| >= 2 && p[0] == '#' && '#' !in p[1..]
  }

  /**
   * A value that cannot form placeholder `p` with its neighbours: it is not
   * empty, does not start with a character of `p` after the `#`, does not
   * contain the character right after the `#`, and does not end in `#`. Every
   * colour value (`#` then lower-case hex digits) and every base-36 suffix is
   * inert for every placeholder of the generators.
   */
  predicate Inert(rep: string, p: string) {
    |p| >= 2 && |rep| > 0 && rep[0] !in p[1..] && p[1] !in rep && rep[|rep| - 1] != '#'
  }

  /** If the result of a replacement starts with `u`, so did its input. */
  lemma {:induction false} PrefixSurvivesReplace(t: string, q: string, rep: string, u: string)
    requires |q| > 0 && |rep| > 0 && rep[0] !in u
    ensures StartsWith(ReplaceAll(t, q, rep), u) ==> StartsWith(t, u)
    decreases |t|
  {
    if u == [] || |t| < |q| {
    } else if HasPrefix(t, q) {
      assert ReplaceAll(t, q, rep)[0] == rep[0];
    } else if StartsWith(ReplaceAll(t, q, rep), u) {
      var r' := ReplaceAll(t[1..], q, rep);
      assert ReplaceAll(t, q, rep) == [t[0]] + r';
      assert t[0] == u[0];
      assert StartsWith(r', u[1..]) by {
        assert ([t[0]] + r')[..|u|] == u;
        assert r'[..|u| - 1] == ([t[0]] + r')[1..|u|];
      }
      PrefixSurvivesReplace(t[1..], q, rep, u[1..]);
      assert t[..|u|] == [t[0]] + t[1..][..|u| - 1];
    }
  }

  lemma StartsWithHead(c: char, b: string, p: string)
    requires |p| > 0
    ensures StartsWith([c] + b, p) <==> c == p[0] && StartsWith(b, p[1..])
  {
    if |p| <= |b| + 1 {
      assert ([c] + b)[..|p|] == [c] + b[..|p| - 1];
      assert p == [p[0]] + p[1..];
    }
  }

  /** An occurrence of `p` cannot start inside an inert value glued before `b`. */
  lemma NoOccurrenceStartsInInert(rep: string, b: string, p: string)
    requires Placeholder(p) && Inert(rep, p)
    ensures forall j :: 0 <= j < |rep| ==> !StartsWith((rep + b)[j..], p)
  {
    forall j | 0 <= j < |rep|
      ensures !StartsWith((rep + b)[j..], p)
    {
      var x := (rep + b)[j..];
      if j + 1 < |rep| {
        assert x[1] == rep[j + 1] && rep[j + 1] in rep;
      } else {
        assert x[0] == rep[|rep| - 1];
      }
    }
  }

  /** After `ReplaceAll(s, p, rep)` with an inert `rep`, no `p` is left. */
  lemma {:induction false} PlaceholderGone(s: string, p: string, rep: string)
    requires Placeholder(p) && Inert(rep, p)
    ensures !Occurs(ReplaceAll(s, p, rep), p)
    decreases |s|
  {
    if |s| < |p| {
      ShortHasNoOccurrence(s, p);
    } else if HasPrefix(s, p) {
      var b := ReplaceAll(s[|p|..], p, rep);
      PlaceholderGone(s[|p|..], p, rep);
      OccursInConcat(rep, b, p);
      NoOccurrenceStartsInInert(rep, b, p);
    } else {
      var b := ReplaceAll(s[1..], p, rep);
      PlaceholderGone(s[1..], p, rep);
      HasPrefixStartsWith(s, p);
      assert ([s[0]] + b)[1..] == b;
      OccursStep([s[0]] + b, p);
      StartsWithHead(s[0], b, p);
      PrefixSurvivesReplace(s[1..], p, rep, p[1..]);
      StartsWithHead(s[0], s[1..], p);
      assert [s[0]] + s[1..] == s;
    }
  }

  /** Replacing another pattern by an inert value creates no new `p`. */
  lemma {:induction false} PlaceholderNotCreated(s: string, q: string, rep: string, p: string)
    requires |q| > 0 && Placeholder(p) && Inert(rep, p)
    ensures !Occurs(s, p) ==> !Occurs(ReplaceAll(s, q, rep), p)
    decreases |s|
  {
    if |s| < |q| || Occurs(s, p) {
    } else if HasPrefix(s, q) {
      var b := ReplaceAll(s[|q|..], q, rep);
      OccursInSuffix(s, |q|, p);
      PlaceholderNotCreated(s[|q|..], q, rep, p);
      OccursInConcat(rep, b, p);
      NoOccurrenceStartsInInert(rep, b, p);
    } else {
      var b := ReplaceAll(s[1..], q, rep);
      OccursStep(s, p);
      PlaceholderNotCreated(s[1..], q, rep, p);
      assert ([s[0]] + b)[1..] == b;
      OccursStep([s[0]] + b, p);
      StartsWithHead(s[0], b, p);
      PrefixSurvivesReplace(s[1..], q, rep, p[1..]);
      StartsWithHead(s[0], s[1..], p);
      assert [s[0]] + s[1..] == s;
    }
  }

  // ---------------------------------------------------------------------------
  // Character classes
  // ---------------------------------------------------------------------------

  predicate IsAsciiAlnum(c: char) {
    ('a' <= c <= 'z') || ('A' <= c <= 'Z') || ('0' <= c <= '9')
  }

  predicate IsDigit(c: char) {
    '0' <= c <= '9'
  }

  /** The characters JavaScript's `\s` and `trim` treat as white space. */
  predicate IsJsSpace(c: char) {
    c == ' ' || c == '\t' || c == '\n' || c == '\r'
    || c as int == 0x0B || c as int == 0x0C || c as int == 0xA0 || c as int == 0x1680
    || (0x2000 <= c as int <= 0x200A) || c as int == 0x2028 || c as int == 0x2029
    || c as int == 0x202F || c as int == 0x205F || c as int == 0x3000 || c as int == 0xFEFF
  }

  /** `s.replace(/[^a-zA-Z0-9]/g, '')`: keep ASCII letters and digits only. */
  function Sanitise(s: string): (r: string)
    ensures |r| <= |s|
    ensures forall i :: 0 <= i < |r| ==> IsAsciiAlnum(r[i])
    decreases |s|
  {
    if s == [] then []
    else (if IsAsciiAlnum(s[0]) then [s[0]] else []) + Sanitise(s[1..])
  }

  lemma {:induction false} SanitiseConcat(a: string, b: string)
    ensures Sanitise(a + b) == Sanitise(a) + Sanitise(b)
    decreases |a|
  {
    if a == [] {
      assert a + b == b;
    } else {
      assert (a + b)[1..] == a[1..] + b;
      SanitiseConcat(a[1..], b);
    }
  }

  /** Sanitising keeps exactly the strings that are already letters and digits. */
  lemma {:induction false} SanitiseFixes(s: string)
    ensures Sanitise(s) == s <==> forall i :: 0 <= i < |s| ==> IsAsciiAlnum(s[i])
    decreases |s|
  {
    if s != [] {
      SanitiseFixes(s[1..]);
      if !IsAsciiAlnum(s[0]) {
        assert |Sanitise(s)| < |s|;
      }
    }
  }

  /** `s.replace(/\s/g, '')`. */
  function RemoveSpaces(s: string): (r: string)
    ensures |r| <= |s|
    ensures forall i :: 0 <= i < |r| ==> !IsJsSpace(r[i])
    decreases |s|
  {
    if s == [] then []
    else (if IsJsSpace(s[0]) then [] else [s[0]]) + RemoveSpaces(s[1..])
  }

  function LowerChar(c: char): char {
    if 'A' <= c <= 'Z' then (c as int - 'A' as int + 'a' as int) as char else c
  }

  /** `toLowerCase` on the ASCII letters (the only upper-case letters in the tables). */
  function ToLower(s: string): string {
    seq(|s|, i requires 0 <= i < |s| => LowerChar(s[i]))
  }

  // ---------------------------------------------------------------------------
  // Decimal rendering of indices (`${i}` for a non-negative integer)
  // ---------------------------------------------------------------------------

  function Digit(d: nat): char
    requires d < 10
  {
    (d + '0' as int) as char
  }

  /** The decimal numeral of `n`, without leading zeros. */
  function Dec(n: nat): (r: string)
    ensures |r| > 0
    ensures forall i :: 0 <= i < |r| ==> IsDigit(r[i])
    decreases n
  {
    if n < 10 then [Digit(n)] else Dec(n / 10) + [Digit(n % 10)]
  }

  /** The value of a string of decimal digits. */
  function ParseDec(s: string): nat
    requires forall i :: 0 <= i < |s| ==> IsDigit(s[i])
    decreases |s|
  {
    if s == [] then 0
    else
      assert IsDigit(s[|s| - 1]);
      10 * ParseDec(s[..|s| - 1]) + (s[|s| - 1] as int - '0' as int)
  }

  /** Reading the numeral back gives the number: `Dec` loses nothing. */
  lemma {:induction false} ParseDecOfDec(n: nat)
    ensures ParseDec(Dec(n)) == n
    decreases n
  {
    if n >= 10 {
      ParseDecOfDec(n / 10);
      var s := Dec(n);
      assert s[..|s| - 1] == Dec(n / 10);
    }
  }

  lemma DecInjective(m: nat, n: nat)
    ensures Dec(m) == Dec(n) ==> m == n
  {
    ParseDecOfDec(m);
    ParseDecOfDec(n);
  }

  // ---------------------------------------------------------------------------
  // trim
  // ---------------------------------------------------------------------------

  predicate AllSpace(s: string) {
    forall i :: 0 <= i < |s| ==> IsJsSpace(s[i])
  }

  /** Length of the white-space run that starts `s`. */
  function LeadingSpace(s: string): (n: nat)
    ensures n <= |s| && AllSpace(s[..n]) && (n < |s| ==> !IsJsSpace(s[n]))
    decreases |s|
  {
    if s != [] && IsJsSpace(s[0]) then
      var n := LeadingSpace(s[1..]);
      assert s[..n + 1] == [s[0]] + s[1..][..n];
      n + 1
    else 0
  }

  /** Where the white-space run that ends `s` begins. */
  function TrailingSpace(s: string): (m: nat)
    ensures m <= |s| && AllSpace(s[m..]) && (m > 0 ==> !IsJsSpace(s[m - 1]))
    decreases |s|
  {
    if s != [] && IsJsSpace(s[|s| - 1]) then
      var t := s[..|s| - 1];
      var m := TrailingSpace(t);
      assert s[m..] == t[m..] + [s[|s| - 1]];
      m
    else |s|
  }

  /** `s.trim()`: `s` with its leading and trailing white space removed. */
  function Trim(s: string): (r: string)
    ensures r == [] || (!IsJsSpace(r[0]) && !IsJsSpace(r[|r| - 1]))
    ensures exists i, j :: 0 <= i <= j <= |s| && r == s[i..j] && AllSpace(s[..i]) && AllSpace(s[j..])
  {
    var i := LeadingSpace(s);
    var t := s[i..];
    var j := TrailingSpace(t);
    assert t[..j] == s[i..i + j];
    assert s[i + j..] == t[j..];
    assert j > 0 ==> t[..j][0] == s[i];
    t[..j]
  }

  lemma AllSpaceConcat(a: string, b: string)
    requires AllSpace(a) && AllSpace(b)
    ensures AllSpace(a + b)
  {
    forall k | 0 <= k < |a + b|
      ensures IsJsSpace((a + b)[k])
    {
      if k < |a| { assert (a + b)[k] == a[k]; } else { assert (a + b)[k] == b[k - |a|]; }
    }
  }

  /** `s.trim()` is empty exactly when `s` is white space only. */
  lemma TrimEmpty(s: string)
    ensures Trim(s) == [] <==> AllSpace(s)
  {
    var i := LeadingSpace(s);
    var t := s[i..];
    var j := TrailingSpace(t);
    assert Trim(s) == t[..j];
    if j == 0 {
      assert t[j..] == s[i..] && s == s[..i] + s[i..];
      AllSpaceConcat(s[..i], s[i..]);
    }
    if AllSpace(s) {
      assert i == |s|;
    }
  }
}
