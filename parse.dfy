/** The line-splitting helpers of main.c: `trim`, `is_number`,
    `parse_three`, `parse_assign` and `parse_op`.

    Each helper that loops is a method proved equal to a pure function on
    strings; the functions are what the dispatcher's specification uses.
    `strstr` and `strtok` are library calls and are modelled by the
    functions `IndexOf` and `Tokens`. */
module Parse {
  import opened Wrappers
  import opened Vectors

  /** `isspace` in the C locale: space, tab, newline, vertical tab, form
      feed, carriage return. */
  predicate IsSpace(c: char)
  {
    c == ' ' || c == '\t' || c == '\n' || c == '\U{000B}' || c == '\U{000C}' || c == '\r'
  }

  ghost predicate AllSpace(s: string)
  {
    forall i :: 0 <= i < |s| ==> IsSpace(s[i])
  }

  /** The first index at or after `i` that is not whitespace (or `|s|`):
      how far `trim`'s first loop walks. */
  function SkipSpaces(s: string, i: nat): (j: nat)
    requires i <= |s|
    decreases |s| - i
    ensures i <= j <= |s|
  {
    if i < |s| && IsSpace(s[i]) then SkipSpaces(s, i + 1) else i
  }

  /** `SkipSpaces` passes over whitespace only, and stops at a non-space
      or at the end. */
  lemma {:induction false} SkipSpacesSpec(s: string, i: nat)
    requires i <= |s|
    decreases |s| - i
    ensures forall k :: i <= k < SkipSpaces(s, i) ==> IsSpace(s[k])
    ensures SkipSpaces(s, i) < |s| ==> !IsSpace(s[SkipSpaces(s, i)])
  {
    if i < |s| && IsSpace(s[i]) {
      SkipSpacesSpec(s, i + 1);
    }
  }

  /** Walking back from the end `e` over whitespace, but never below `lo`:
      where `trim`'s second loop writes the terminator. */
  function BackSpaces(s: string, lo: nat, e: nat): (r: nat)
    requires lo <= e <= |s|
    decreases e
    ensures lo <= r <= e
  {
    if e > lo && IsSpace(s[e - 1]) then BackSpaces(s, lo, e - 1) else e
  }

  /** `BackSpaces` passes over whitespace only, and stops after a non-space
      or at `lo`. */
  lemma {:induction false} BackSpacesSpec(s: string, lo: nat, e: nat)
    requires lo <= e <= |s|
    decreases e
    ensures forall k :: BackSpaces(s, lo, e) <= k < e ==> IsSpace(s[k])
    ensures BackSpaces(s, lo, e) > lo ==> !IsSpace(s[BackSpaces(s, lo, e) - 1])
  {
    if e > lo && IsSpace(s[e - 1]) {
      BackSpacesSpec(s, lo, e - 1);
    }
  }

  /** Number of leading whitespace characters. */
  function Lead(s: string): nat
  {
    SkipSpaces(s, 0)
  }

  /** What `trim` leaves: skip the leading whitespace; if nothing is left,
      that is the result; otherwise drop the trailing whitespace, never
      looking at the first character kept. */
  function Trimmed(s: string): string
  {
    var lo := Lead(s);
    if lo == |s| then [] else s[lo..BackSpaces(s, lo + 1, |s|)]
  }

  /** `trim` removes exactly the whitespace at both ends: the result is the
      stretch of `s` after its `Lead(s)` leading blanks, everything around it
      is whitespace, its ends are not, and it is empty exactly when `s` is
      all whitespace. */
  lemma TrimmedSpec(s: string)
    ensures var r := Trimmed(s);
      && Lead(s) + |r| <= |s| && r == s[Lead(s)..Lead(s) + |r|]
      && AllSpace(s[..Lead(s)]) && AllSpace(s[Lead(s) + |r|..])
      && (r != [] ==> !IsSpace(r[0]) && !IsSpace(r[|r| - 1]))
      && (r == [] <==> AllSpace(s))
  {
    var lo := Lead(s);
    var r := Trimmed(s);
    SkipSpacesSpec(s, 0);
    if lo < |s| {
      BackSpacesSpec(s, lo + 1, |s|);
    }
    assert AllSpace(s[..lo]) by {
      forall k | 0 <= k < lo ensures IsSpace(s[..lo][k]) { assert s[..lo][k] == s[k]; }
    }
    if lo == |s| {
      assert s[..lo] == s;
    } else {
      var hi := BackSpaces(s, lo + 1, |s|);
      assert r[0] == s[lo];
      assert r[|r| - 1] == s[hi - 1];
      assert AllSpace(s[hi..]) by {
        forall k | 0 <= k < |s| - hi ensures IsSpace(s[hi..][k]) { assert s[hi..][k] == s[hi + k]; }
      }
      assert !AllSpace(s) by { assert !IsSpace(s[lo]); }
    }
  }

  /** `trim` leaves nothing exactly when the line is all whitespace. */
  lemma TrimmedEmptyIff(s: string)
    ensures Trimmed(s) == [] <==> AllSpace(s)
  {
    TrimmedSpec(s);
  }

  /** `trim`: skip leading whitespace from the front; if anything is left,
      walk a second index back from the last character over trailing
      whitespace, writing the terminator as it goes. */
  method Trim(s: string) returns (r: string)
    ensures r == Trimmed(s)
  {
    var lo := 0;
    while lo < |s| && IsSpace(s[lo])
      invariant 0 <= lo <= |s|
      invariant SkipSpaces(s, lo) == Lead(s)
    {
      lo := lo + 1;
    }
    if lo == |s| {
      return [];
    }
    var e := |s| - 1;
    while e > lo && IsSpace(s[e])
      invariant lo <= e < |s|
      invariant BackSpaces(s, lo + 1, e + 1) == BackSpaces(s, lo + 1, |s|)
    {
      e := e - 1;
    }
    r := s[lo..e + 1];
  }

  /** `strstr` from index `i` on: where `pat` first occurs in `s`, or -1. */
  function IndexOfFrom(s: string, pat: string, i: nat): (r: int)
    requires i <= |s|
    decreases |s| - i
    ensures r == -1 || (i <= r && OccursAt(s, pat, r))
    ensures forall j :: i <= j && (r == -1 || j < r) ==> !OccursAt(s, pat, j)
  {
    if i + |pat| > |s| then -1
    else if s[i..i + |pat|] == pat then i
    else IndexOfFrom(s, pat, i + 1)
  }

  /** `pat` occurs in `s` at position `j`. */
  predicate OccursAt(s: string, pat: string, j: int)
  {
    0 <= j && j + |pat| <= |s| && s[j..j + |pat|] == pat
  }

  /** `strstr`: the first position of `pat` in `s`, or -1. */
  function IndexOf(s: string, pat: string): (r: int)
    ensures r == -1 || OccursAt(s, pat, r)
    ensures forall j :: 0 <= j && (r == -1 || j < r) ==> !OccursAt(s, pat, j)
  {
    IndexOfFrom(s, pat, 0)
  }

  // ---------------------------------------------------------------------
  // is_number

  /** `is_number`: `strtod` converts a prefix of `s` and `trim` finds only
      whitespace after it (`*trim(end) == '\0'`). A conversion that claims
      more characters than `s` has counts as no conversion. */
  predicate IsNumber<N>(strtod: string -> Conversion<N>, s: string)
  {
    var c := strtod(s).consumed;
    c <= |s| && SkipSpaces(s, c) == |s|
  }

  /** The value `is_number` stores through `out` when it succeeds. */
  function NumberValue<N>(strtod: string -> Conversion<N>, s: string): N
  {
    strtod(s).value
  }

  /** `is_number` accepts exactly when everything after the converted prefix
      is whitespace. */
  lemma IsNumberIff<N>(strtod: string -> Conversion<N>, s: string)
    ensures IsNumber(strtod, s) <==>
      strtod(s).consumed <= |s| && forall i :: strtod(s).consumed <= i < |s| ==> IsSpace(s[i])
  {
    var c := strtod(s).consumed;
    if c <= |s| {
      SkipSpacesSpec(s, c);
      if forall i :: c <= i < |s| ==> IsSpace(s[i]) {
        AllSpaceSkipped(s, c);
      }
    }
  }

  /** Over a run of whitespace reaching the end, `SkipSpaces` reaches the end. */
  lemma {:induction false} AllSpaceSkipped(s: string, c: nat)
    requires c <= |s| && forall i :: c <= i < |s| ==> IsSpace(s[i])
    ensures SkipSpaces(s, c) == |s|
    decreases |s| - c
  {
    if c < |s| {
      AllSpaceSkipped(s, c + 1);
    }
  }

  // ---------------------------------------------------------------------
  // parse_three

  /** The delimiters `strtok` is given: space and tab. */
  predicate IsDelim(c: char)
  {
    c == ' ' || c == '\t'
  }

  /** A token as `strtok` returns it: non-empty, without delimiters. */
  ghost predicate IsToken(t: string)
  {
    t != [] && forall i :: 0 <= i < |t| ==> !IsDelim(t[i])
  }

  /** Length of the run of non-delimiters at the start of `s`. */
  function WordLength(s: string): (n: nat)
    ensures n <= |s|
    ensures forall i :: 0 <= i < n ==> !IsDelim(s[i])
    ensures n < |s| ==> IsDelim(s[n])
  {
    if s == [] || IsDelim(s[0]) then 0 else 1 + WordLength(s[1..])
  }

  /** The successive results of `strtok(buf, " \t")`, `strtok(NULL, " \t")`,
      …: the maximal runs of non-delimiters, in order. */
  function Tokens(s: string): (toks: seq<string>)
    ensures forall k :: 0 <= k < |toks| ==> IsToken(toks[k])
    decreases |s|
  {
    if s == [] then []
    else if IsDelim(s[0]) then Tokens(s[1..])
    else
      var n := WordLength(s);
      [s[..n]] + Tokens(s[n..])
  }

  /** `s` with every comma replaced by a space. */
  function Decomma(s: string): string
  {
    seq(|s|, i requires 0 <= i < |s| => if s[i] == ',' then ' ' else s[i])
  }

  /** What `parse_three` yields: the values of the first three tokens when
      there are at least three and those three are numbers. */
  function Components<N>(strtod: string -> Conversion<N>, right: string): Option<Triple<N>>
  {
    var toks := Tokens(Decomma(right));
    if |toks| >= 3 && IsNumber(strtod, toks[0]) && IsNumber(strtod, toks[1]) && IsNumber(strtod, toks[2])
    then Some(Triple(NumberValue(strtod, toks[0]), NumberValue(strtod, toks[1]), NumberValue(strtod, toks[2])))
    else None
  }

  /** `parse_three`: copy `right` into a buffer, turn its commas into spaces
      in place, then read tokens until three are read, failing at the first
      one that is not a number. A fourth token is never looked at. */
  method ParseThree<N>(strtod: string -> Conversion<N>, right: string) returns (r: Option<Triple<N>>)
    ensures r == Components(strtod, right)
  {
    var buf := new char[|right|](i requires 0 <= i < |right| => right[i]);
    for p := 0 to buf.Length
      invariant forall j :: 0 <= j < p ==> buf[j] == if right[j] == ',' then ' ' else right[j]
      invariant forall j :: p <= j < buf.Length ==> buf[j] == right[j]
    {
      if buf[p] == ',' {
        buf[p] := ' ';
      }
    }
    assert buf[..] == Decomma(right);
    var toks := Tokens(buf[..]);
    var i := 0;
    var out: seq<N> := [];
    while i < |toks| && i < 3
      invariant 0 <= i <= 3 && i <= |toks| && |out| == i
      invariant forall k :: 0 <= k < i ==> IsNumber(strtod, toks[k]) && out[k] == NumberValue(strtod, toks[k])
    {
      if !IsNumber(strtod, toks[i]) {
        return None;
      }
      out := out + [NumberValue(strtod, toks[i])];
      i := i + 1;
    }
    if i == 3 {
      r := Some(Triple(out[0], out[1], out[2]));
    } else {
      r := None;
    }
  }

  /** Commas and spaces are interchangeable separators: two right-hand
      sides that agree once their commas are spaces give the same triple. */
  lemma ComponentsIgnoreCommas<N>(strtod: string -> Conversion<N>, r1: string, r2: string)
    requires Decomma(r1) == Decomma(r2)
    ensures Components(strtod, r1) == Components(strtod, r2)
  {
  }

  /** The three spellings the help text offers agree: `x y z`, `x, y, z`
      and `x,y,z` give the same answer for any three comma-free words. */
  lemma CommaFormsAgree<N>(strtod: string -> Conversion<N>, x: string, y: string, z: string)
    requires IsToken(x) && IsToken(y) && IsToken(z)
    requires forall i :: 0 <= i < |x| ==> x[i] != ','
    requires forall i :: 0 <= i < |y| ==> y[i] != ','
    requires forall i :: 0 <= i < |z| ==> z[i] != ','
    ensures Components(strtod, x + "," + y + "," + z) == Components(strtod, x + " " + y + " " + z)
    ensures Components(strtod, x + ", " + y + ", " + z) == Components(strtod, x + " " + y + " " + z)
  {
    DecommaOfForms(x, y, z);
    WordsTokens(x, y, z, " ");
    WordsTokens(x, y, z, "  ");
    ComponentsByTokens(strtod, x + "," + y + "," + z, x + " " + y + " " + z);
    ComponentsByTokens(strtod, x + ", " + y + ", " + z, x + " " + y + " " + z);
  }

  /** Commas turn into spaces in the three spellings. */
  lemma DecommaOfForms(x: string, y: string, z: string)
    requires forall i :: 0 <= i < |x| ==> x[i] != ','
    requires forall i :: 0 <= i < |y| ==> y[i] != ','
    requires forall i :: 0 <= i < |z| ==> z[i] != ','
    ensures Decomma(x + " " + y + " " + z) == x + " " + y + " " + z
    ensures Decomma(x + "," + y + "," + z) == x + " " + y + " " + z
    ensures Decomma(x + ", " + y + ", " + z) == x + "  " + y + "  " + z
  {
    DecommaNoComma(x + " " + y + " " + z);
    DecommaSep(x, y, z, ",", " ");
    DecommaSep(x, y, z, ", ", "  ");
  }

  /** Replacing the separators between three comma-free words. */
  lemma DecommaSep(x: string, y: string, z: string, sep: string, spaced: string)
    requires forall i :: 0 <= i < |x| ==> x[i] != ','
    requires forall i :: 0 <= i < |y| ==> y[i] != ','
    requires forall i :: 0 <= i < |z| ==> z[i] != ','
    requires Decomma(sep) == spaced
    ensures Decomma(x + sep + y + sep + z) == x + spaced + y + spaced + z
  {
    DecommaNoComma(x);
    DecommaNoComma(y);
    DecommaNoComma(z);
    DecommaConcat(x + sep + y + sep, z);
    DecommaConcat(x + sep + y, sep);
    DecommaConcat(x + sep, y);
    DecommaConcat(x, sep);
  }

  /** Three words kept apart by the same non-empty gap are three tokens. */
  lemma WordsTokens(x: string, y: string, z: string, gap: string)
    requires IsToken(x) && IsToken(y) && IsToken(z)
    requires gap != [] && IsGap(gap)
    ensures Tokens(x + gap + y + gap + z) == [x, y, z]
  {
    var words, gaps := [x, y, z], [[], gap, gap, []];
    LayoutOfThree(x, y, z, gap);
    ThreeWellSpaced(x, y, z, gap);
    TokensOfLayout(gaps, words);
  }

  /** The layout of three words with the same gap between them. */
  lemma LayoutOfThree(x: string, y: string, z: string, gap: string)
    ensures Layout([[], gap, gap, []], [x, y, z]) == x + gap + y + gap + z
  {
    var words, gaps := [x, y, z], [[], gap, gap, []];
    assert gaps[1..] == [gap, gap, []] && words[1..] == [y, z];
    assert gaps[2..] == [gap, []] && words[2..] == [z];
    assert gaps[3..] == [[]] && words[3..] == [];
    assert Layout([[]], []) == [];
    assert Layout([gap, []], [z]) == gap + z + [];
    assert Layout([gap, gap, []], [y, z]) == gap + y + (gap + z + []);
    assert Layout(gaps, words) == [] + x + (gap + y + (gap + z + []));
  }

  /** Three tokens with the same non-empty gap between them are well spaced. */
  lemma ThreeWellSpaced(x: string, y: string, z: string, gap: string)
    requires IsToken(x) && IsToken(y) && IsToken(z)
    requires gap != [] && IsGap(gap)
    ensures WellSpaced([[], gap, gap, []], [x, y, z])
  {
  }

  /** The triple depends on the right-hand side only through its tokens. */
  lemma ComponentsByTokens<N>(strtod: string -> Conversion<N>, r1: string, r2: string)
    requires Tokens(Decomma(r1)) == Tokens(Decomma(r2))
    ensures Components(strtod, r1) == Components(strtod, r2)
  {
  }

  /** Only the first three tokens matter: two right-hand sides whose first
      three tokens agree give the same answer, however many tokens follow. */
  lemma ComponentsIgnoreTail<N>(strtod: string -> Conversion<N>, r1: string, r2: string)
    requires |Tokens(Decomma(r1))| >= 3 && |Tokens(Decomma(r2))| >= 3
    requires Tokens(Decomma(r1))[..3] == Tokens(Decomma(r2))[..3]
    ensures Components(strtod, r1) == Components(strtod, r2)
  {
    var t1, t2 := Tokens(Decomma(r1)), Tokens(Decomma(r2));
    assert t1[0] == t1[..3][0] && t1[1] == t1[..3][1] && t1[2] == t1[..3][2];
    assert t2[0] == t2[..3][0] && t2[1] == t2[..3][1] && t2[2] == t2[..3][2];
  }

  /** The tokens of a delimiter followed by `s` are those of `s`. */
  lemma TokensSkipDelim(c: char, s: string)
    requires IsDelim(c)
    ensures Tokens([c] + s) == Tokens(s)
  {
    assert ([c] + s)[1..] == s;
  }

  /** The tokens of a word, then a delimiter, then `s`. */
  lemma TokensWord(w: string, c: char, s: string)
    requires IsToken(w) && IsDelim(c)
    ensures Tokens(w + [c] + s) == [w] + Tokens(s)
  {
    var x := w + [c] + s;
    WordLengthOf(w, [c] + s);
    assert x[..|w|] == w;
    assert x[|w|..] == [c] + s;
    TokensSkipDelim(c, s);
  }

  /** The run at the start of a word followed by a delimiter is the word. */
  lemma {:induction false} WordLengthOf(w: string, rest: string)
    requires IsToken(w) && rest != [] && IsDelim(rest[0])
    ensures WordLength(w + rest) == |w|
    decreases |w|
  {
    assert (w + rest)[1..] == w[1..] + rest;
    if |w| > 1 {
      WordLengthOf(w[1..], rest);
    } else {
      assert w[1..] + rest == rest;
    }
  }

  /** A single word is a single token. */
  lemma {:induction false} TokensOfWord(w: string)
    requires IsToken(w)
    ensures Tokens(w) == [w]
  {
    assert WordLength(w) == |w| by { WordLengthAll(w); }
    assert w[..|w|] == w;
    assert w[|w|..] == [];
  }

  /** Over a word, the run of non-delimiters is the whole word. */
  lemma {:induction false} WordLengthAll(w: string)
    requires forall i :: 0 <= i < |w| ==> !IsDelim(w[i])
    ensures WordLength(w) == |w|
    decreases |w|
  {
    if w != [] {
      WordLengthAll(w[1..]);
    }
  }

  /** A run of delimiters, possibly empty. */
  ghost predicate IsGap(g: string)
  {
    forall i :: 0 <= i < |g| ==> IsDelim(g[i])
  }

  /** The words `ts` laid out with the gaps `gaps` around and between them:
      `gaps[0] + ts[0] + gaps[1] + ... + ts[n-1] + gaps[n]`. */
  function Layout(gaps: seq<string>, ts: seq<string>): string
    requires |gaps| == |ts| + 1
    decreases |ts|
  {
    if ts == [] then gaps[0] else gaps[0] + ts[0] + Layout(gaps[1..], ts[1..])
  }

  /** A layout fit for `strtok`: every gap is delimiters only, every word is
      a token, and words are kept apart by at least one delimiter. */
  ghost predicate WellSpaced(gaps: seq<string>, ts: seq<string>)
  {
    && |gaps| == |ts| + 1
    && (forall k :: 0 <= k < |ts| ==> IsToken(ts[k]))
    && (forall k :: 0 <= k < |gaps| ==> IsGap(gaps[k]))
    && (forall k :: 0 < k < |ts| ==> gaps[k] != [])
  }

  /** The delimiters in front of a string give no token. */
  lemma {:induction false} TokensSkipGap(g: string, s: string)
    requires IsGap(g)
    ensures Tokens(g + s) == Tokens(s)
    decreases |g|
  {
    if g == [] {
      assert g + s == s;
    } else {
      assert g + s == [g[0]] + (g[1..] + s);
      TokensSkipDelim(g[0], g[1..] + s);
      TokensSkipGap(g[1..], s);
    }
  }

  /** `strtok` returns exactly the words of a well-spaced layout, in order,
      however many delimiters separate them. */
  lemma {:induction false} TokensOfLayout(gaps: seq<string>, ts: seq<string>)
    requires WellSpaced(gaps, ts)
    ensures Tokens(Layout(gaps, ts)) == ts
    decreases |ts|
  {
    if ts == [] {
      TokensSkipGap(gaps[0], []);
      assert gaps[0] + [] == gaps[0];
    } else {
      var w, rest := ts[0], Layout(gaps[1..], ts[1..]);
      assert WellSpaced(gaps[1..], ts[1..]);
      TokensOfLayout(gaps[1..], ts[1..]);
      LayoutStart(gaps[1..], ts[1..]);
      assert Layout(gaps, ts) == gaps[0] + (w + rest);
      TokensSkipGap(gaps[0], w + rest);
      WordThenRest(w, rest);
    }
  }

  /** A token followed by nothing or by a delimiter is the first token. */
  lemma WordThenRest(w: string, rest: string)
    requires IsToken(w) && (rest == [] || IsDelim(rest[0]))
    ensures Tokens(w + rest) == [w] + Tokens(rest)
  {
    if rest == [] {
      assert w + rest == w;
      TokensOfWord(w);
    } else {
      assert w + rest == w + [rest[0]] + rest[1..];
      TokensWord(w, rest[0], rest[1..]);
      TokensSkipDelim(rest[0], rest[1..]);
      assert [rest[0]] + rest[1..] == rest;
    }
  }

  /** A well-spaced layout starts with its first gap: when that gap is
      empty it is the first word, or nothing. */
  lemma LayoutStart(gaps: seq<string>, ts: seq<string>)
    requires WellSpaced(gaps, ts)
    ensures var l := Layout(gaps, ts);
      && (gaps[0] != [] ==> l != [] && IsDelim(l[0]))
      && (gaps[0] == [] && ts != [] ==> l != [] && l[0] == ts[0][0])
      && (l == [] <==> gaps[0] == [] && ts == [])
  {
    if ts != [] {
      var l := Layout(gaps, ts);
      assert l == gaps[0] + (ts[0] + Layout(gaps[1..], ts[1..]));
    }
  }

  /** The gaps of `s` around its tokens. */
  function GapsOf(s: string): (gaps: seq<string>)
    ensures |gaps| == |Tokens(s)| + 1
    decreases |s|
  {
    if s == [] then [[]]
    else if IsDelim(s[0]) then
      var g := GapsOf(s[1..]);
      [[s[0]] + g[0]] + g[1..]
    else
      [[]] + GapsOf(s[WordLength(s)..])
  }

  /** `strtok` loses only the delimiters: every string is the well-spaced
      layout of its own tokens and its gaps. */
  lemma {:induction false} LayoutOfTokens(s: string)
    ensures WellSpaced(GapsOf(s), Tokens(s))
    ensures Layout(GapsOf(s), Tokens(s)) == s
    ensures s != [] && IsDelim(s[0]) ==> GapsOf(s)[0] != []
    decreases |s|
  {
    if s == [] {
    } else if IsDelim(s[0]) {
      var g, ts := GapsOf(s[1..]), Tokens(s[1..]);
      LayoutOfTokens(s[1..]);
      assert GapsOf(s) == [[s[0]] + g[0]] + g[1..];
      assert Tokens(s) == ts;
      WidenFirstGap(s[0], g, ts);
      assert s == [s[0]] + s[1..];
    } else {
      var n := WordLength(s);
      var g, ts := GapsOf(s[n..]), Tokens(s[n..]);
      LayoutOfTokens(s[n..]);
      assert GapsOf(s) == [[]] + g;
      assert Tokens(s) == [s[..n]] + ts;
      assert ts != [] ==> s[n..] != [] && IsDelim(s[n..][0]);
      PrependWord(s[..n], g, ts);
      assert s == s[..n] + s[n..];
    }
  }

  /** One more delimiter in front of a layout widens its first gap. */
  lemma WidenFirstGap(c: char, g: seq<string>, ts: seq<string>)
    requires IsDelim(c) && WellSpaced(g, ts)
    ensures WellSpaced([[c] + g[0]] + g[1..], ts)
    ensures Layout([[c] + g[0]] + g[1..], ts) == [c] + Layout(g, ts)
  {
    var h := [c] + g[0];
    var gaps := [h] + g[1..];
    assert IsGap(h) by {
      assert forall i :: 0 < i < |h| ==> h[i] == g[0][i - 1];
    }
    assert gaps[0] == h && gaps[1..] == g[1..];
    assert forall k :: 0 < k < |gaps| ==> gaps[k] == g[k];
    if ts != [] {
      var rest := Layout(g[1..], ts[1..]);
      assert Layout(g, ts) == g[0] + ts[0] + rest;
      assert Layout(gaps, ts) == h + ts[0] + rest;
      assert h + ts[0] + rest == [c] + (g[0] + ts[0] + rest);
    }
  }

  /** A word in front of a layout whose first gap keeps it apart is a new
      first word behind an empty gap. */
  lemma PrependWord(w: string, g: seq<string>, ts: seq<string>)
    requires IsToken(w) && WellSpaced(g, ts)
    requires ts != [] ==> g[0] != []
    ensures WellSpaced([[]] + g, [w] + ts)
    ensures Layout([[]] + g, [w] + ts) == w + Layout(g, ts)
  {
    var gaps, ws := [[]] + g, [w] + ts;
    assert gaps[1..] == g && ws[1..] == ts;
    assert forall k :: 0 < k < |gaps| ==> gaps[k] == g[k - 1];
    assert forall k :: 0 < k < |ws| ==> ws[k] == ts[k - 1];
  }

  /** `Decomma` works character by character. */
  lemma DecommaConcat(a: string, b: string)
    ensures Decomma(a + b) == Decomma(a) + Decomma(b)
  {
  }

  /** A string without commas is left alone. */
  lemma DecommaNoComma(s: string)
    requires forall i :: 0 <= i < |s| ==> s[i] != ','
    ensures Decomma(s) == s
  {
  }

  /** Three words separated by spaces, then a space and a tail: the three
      words come first. */
  lemma ThreeWordsTokens(x: string, y: string, z: string, d: string)
    requires IsToken(x) && IsToken(y) && IsToken(z)
    ensures Tokens(x + " " + y + " " + z + " " + d) == [x, y, z] + Tokens(d)
  {
    var s3 := z + [' '] + d;
    var s2 := y + [' '] + s3;
    var s1 := x + [' '] + s2;
    assert s1 == x + " " + y + " " + z + " " + d;
    TokensWord(x, ' ', s2);
    assert Tokens(s2) == [y] + Tokens(s3) by { TokensWord(y, ' ', s3); }
    assert Tokens(s3) == [z] + Tokens(d) by { TokensWord(z, ' ', d); }
    assert [x] + ([y] + ([z] + Tokens(d))) == [x, y, z] + Tokens(d);
  }

  /** Three words separated by spaces are three tokens. */
  lemma ThreeWordsOnly(x: string, y: string, z: string)
    requires IsToken(x) && IsToken(y) && IsToken(z)
    ensures Tokens(x + " " + y + " " + z) == [x, y, z]
  {
    var s2 := y + [' '] + z;
    var s1 := x + [' '] + s2;
    TokensOfWord(z);
    TokensWord(y, ' ', z);
    TokensWord(x, ' ', s2);
    assert s1 == x + " " + y + " " + z;
  }

  /** Turning commas into spaces leaves comma-free words and the spaces
      between them alone. */
  lemma DecommaThreeWords(x: string, y: string, z: string, rest: string)
    requires forall i :: 0 <= i < |x| ==> x[i] != ','
    requires forall i :: 0 <= i < |y| ==> y[i] != ','
    requires forall i :: 0 <= i < |z| ==> z[i] != ','
    ensures Decomma(x + " " + y + " " + z) == x + " " + y + " " + z
    ensures Decomma(x + " " + y + " " + z + " " + rest) == x + " " + y + " " + z + " " + Decomma(rest)
  {
    var short := x + " " + y + " " + z;
    DecommaNoComma(short);
    DecommaNoComma(short + " ");
    DecommaConcat(short + " ", rest);
  }

  /** The tokens after the third are never looked at: three comma-free
      words followed by a space and anything at all give the same answer
      as the three words alone, and those succeed exactly when all three
      are numbers. */
  lemma ExtraTokensIgnored<N>(strtod: string -> Conversion<N>, x: string, y: string, z: string, rest: string)
    requires IsToken(x) && IsToken(y) && IsToken(z)
    requires forall i :: 0 <= i < |x| ==> x[i] != ','
    requires forall i :: 0 <= i < |y| ==> y[i] != ','
    requires forall i :: 0 <= i < |z| ==> z[i] != ','
    ensures Components(strtod, x + " " + y + " " + z + " " + rest) == Components(strtod, x + " " + y + " " + z)
    ensures Components(strtod, x + " " + y + " " + z).Some? <==>
      IsNumber(strtod, x) && IsNumber(strtod, y) && IsNumber(strtod, z)
  {
    DecommaThreeWords(x, y, z, rest);
    ThreeWordsTokens(x, y, z, Decomma(rest));
    ThreeWordsOnly(x, y, z);
    var tl := Tokens(Decomma(x + " " + y + " " + z + " " + rest));
    assert tl[0] == x && tl[1] == y && tl[2] == z;
  }

  // ---------------------------------------------------------------------
  // parse_assign

  /** The assignment pattern. */
  const ASSIGN: string := " = "

  datatype Assignment = Assignment(left: string, right: string)

  /** What `parse_assign` yields: split at the first `" = "`; both trimmed
      sides must be non-empty. */
  function SplitAssign(s: string): Option<Assignment>
  {
    var i := IndexOf(s, ASSIGN);
    if i < 0 then None
    else
      var left := Trimmed(s[..i]);
      var right := Trimmed(s[i + 3..]);
      if left != [] && right != [] then Some(Assignment(left, right)) else None
  }

  /** `parse_assign`: find `" = "`, cut the line there and trim both sides. */
  method ParseAssign(line: string) returns (r: Option<Assignment>)
    ensures r == SplitAssign(line)
  {
    var eq := IndexOf(line, ASSIGN);
    if eq < 0 {
      return None;
    }
    assert OccursAt(line, ASSIGN, eq);
    var left := Trim(line[..eq]);
    var right := Trim(line[eq + 3..]);
    r := if left != [] && right != [] then Some(Assignment(left, right)) else None;
  }

  /** The pieces `parse_assign` returns are already trimmed, and the name on
      the left never contains `" = "` (the split is at the first one). */
  lemma SplitAssignParts(s: string)
    requires SplitAssign(s).Some?
    ensures var a := SplitAssign(s).value;
      && a.left != [] && a.right != []
      && Trimmed(a.left) == a.left && Trimmed(a.right) == a.right
      && IndexOf(a.left, ASSIGN) == -1
  {
    var i := IndexOf(s, ASSIGN);
    var left, right := Trimmed(s[..i]), Trimmed(s[i + 3..]);
    assert SplitAssign(s).value == Assignment(left, right);
    TrimmedIsTrimmed(s[..i]);
    TrimmedIsTrimmed(s[i + 3..]);
    TrimmedPrefixAvoids(s, ASSIGN, i);
    NotFound(left, ASSIGN);
  }

  /** Where `strstr` finds a non-empty pattern, the pattern's first
      character is. */
  lemma FoundStartsWith(s: string, pat: string)
    requires |pat| > 0 && IndexOf(s, pat) >= 0
    ensures IndexOf(s, pat) < |s| && s[IndexOf(s, pat)] == pat[0]
  {
    var i := IndexOf(s, pat);
    assert s[i..i + |pat|][0] == s[i];
  }

  /** `strstr` fails when the pattern occurs nowhere. */
  lemma NotFound(s: string, pat: string)
    requires forall j :: 0 <= j ==> !OccursAt(s, pat, j)
    ensures IndexOf(s, pat) == -1
  {
  }

  /** The trimmed text before the first occurrence of `pat` holds no
      occurrence of `pat`. */
  lemma TrimmedPrefixAvoids(s: string, pat: string, i: nat)
    requires |pat| > 0 && i <= |s|
    requires forall j :: 0 <= j < i ==> !OccursAt(s, pat, j)
    ensures forall j :: 0 <= j ==> !OccursAt(Trimmed(s[..i]), pat, j)
  {
    var pre := s[..i];
    var left := Trimmed(pre);
    TrimmedSpec(pre);
    assert pre == s[0..i];
    forall j | 0 <= j ensures !OccursAt(left, pat, j) {
      OccursInInfix(pre, Lead(pre), |left|, pat, j);
      OccursInInfix(s, 0, i, pat, Lead(pre) + j);
    }
  }

  /** An occurrence inside a stretch of `s` is an occurrence in `s`. */
  lemma OccursInInfix(s: string, off: nat, len: nat, pat: string, j: nat)
    requires off + len <= |s|
    ensures OccursAt(s[off..off + len], pat, j) ==> OccursAt(s, pat, off + j)
  {
    var t := s[off..off + len];
    if OccursAt(t, pat, j) {
      var u, w := t[j..j + |pat|], s[off + j..off + j + |pat|];
      forall k | 0 <= k < |pat| ensures u[k] == w[k] {
        assert u[k] == t[j + k];
      }
      assert u == w;
    }
  }

  /** `trim` is idempotent. */
  lemma TrimmedIsTrimmed(s: string)
    ensures Trimmed(Trimmed(s)) == Trimmed(s)
  {
    var r := Trimmed(s);
    TrimmedSpec(s);
    if r != [] {
      NoSpaceEnds(r);
    }
  }

  /** A string that starts and ends with a non-space is its own trim. */
  lemma NoSpaceEnds(r: string)
    requires r != [] && !IsSpace(r[0]) && !IsSpace(r[|r| - 1])
    ensures Trimmed(r) == r
  {
    assert Lead(r) == 0;
    assert BackSpaces(r, 1, |r|) == |r|;
  }

  /** Both sides of a split of a trimmed, non-empty line are non-empty:
      the line's first character is not a space and ends up on the left,
      its last is not a space and ends up on the right. */
  lemma SplitSidesNonEmpty(s: string, i: nat, pat: string)
    requires s != [] && Trimmed(s) == s
    requires |pat| > 0 && IsSpace(pat[0]) && IsSpace(pat[|pat| - 1])
    requires i + |pat| <= |s| && s[i..i + |pat|] == pat
    ensures Trimmed(s[..i]) != [] && Trimmed(s[i + |pat|..]) != []
  {
    TrimmedSpec(s);
    TrimmedSpec(s[..i]);
    TrimmedSpec(s[i + |pat|..]);
    assert s[i] == pat[0] && s[i + |pat| - 1] == pat[|pat| - 1];
    assert s[..i][0] == s[0];
    assert s[i + |pat|..][|s| - i - |pat| - 1] == s[|s| - 1];
  }

  /** On a trimmed, non-empty line (all the dispatcher ever passes)
      `parse_assign` succeeds exactly when `" = "` occurs. So the
      terminator it writes before failing is never seen by a later step. */
  lemma SplitAssignOnTrimmed(s: string)
    requires s != [] && Trimmed(s) == s
    ensures SplitAssign(s).Some? <==> IndexOf(s, ASSIGN) >= 0
  {
    var i := IndexOf(s, ASSIGN);
    if i >= 0 {
      SplitSidesNonEmpty(s, i, ASSIGN);
    }
  }

  // ---------------------------------------------------------------------
  // parse_op

  /** The operators `parse_op` tries, in this order. */
  const OPERATORS: string := "+-*"

  /** The pattern for operator `op`: a space, the operator, a space. */
  function Pattern(op: char): string
  {
    [' ', op, ' ']
  }

  datatype Operation = Operation(a: string, op: char, b: string)

  /** The split at the first `" op "`, once it is known to occur: the
      trimmed sides, or nothing when either is empty. */
  function SplitAt(s: string, op: char): Option<Operation>
  {
    var i := IndexOf(s, Pattern(op));
    if i < 0 then None
    else
      var a := Trimmed(s[..i]);
      var b := Trimmed(s[i + 3..]);
      if a != [] && b != [] then Some(Operation(a, op, b)) else None
  }

  /** The loop of `parse_op` from operator number `k` on: the first operator
      whose pattern occurs decides the split, and no later one is tried. */
  function SplitOpFrom(s: string, k: nat): Option<Operation>
    requires k <= |OPERATORS|
    decreases |OPERATORS| - k
  {
    if k == |OPERATORS| then None
    else if HasPattern(s, k) then SplitAt(s, OPERATORS[k])
    else SplitOpFrom(s, k + 1)
  }

  /** What `parse_op` yields. */
  function SplitOp(s: string): Option<Operation>
  {
    SplitOpFrom(s, 0)
  }

  /** `parse_op`: try `" + "`, `" - "`, `" * "` in turn; at the first that
      occurs, cut there, trim both sides and stop. */
  method ParseOp(right: string) returns (r: Option<Operation>)
    ensures r == SplitOp(right)
  {
    for k := 0 to |OPERATORS|
      invariant SplitOpFrom(right, k) == SplitOp(right)
    {
      var o := OPERATORS[k];
      var mid := IndexOf(right, Pattern(o));
      if mid < 0 {
        continue;
      }
      var a := Trim(right[..mid]);
      var b := Trim(right[mid + 3..]);
      if a != [] && b != [] {
        return Some(Operation(a, o, b));
      }
      return None;
    }
    return None;
  }

  /** Whether the pattern of operator number `k` occurs in `s`. */
  predicate HasPattern(s: string, k: nat)
    requires k < |OPERATORS|
  {
    IndexOf(s, Pattern(OPERATORS[k])) >= 0
  }

  /** First match wins: when `parse_op` succeeds its operator is one of
      `+`, `-`, `*`, its pattern occurs, no earlier operator's pattern
      occurs, and the result is the split at that pattern's first
      occurrence. */
  lemma SplitOpFirstMatch(s: string)
    requires SplitOp(s).Some?
    ensures var o := SplitOp(s).value;
      && (o.op == '+' || o.op == '-' || o.op == '*')
      && IndexOf(s, Pattern(o.op)) >= 0
      && (o.op != '+' ==> IndexOf(s, Pattern('+')) < 0)
      && (o.op == '*' ==> IndexOf(s, Pattern('-')) < 0)
      && SplitOp(s) == SplitAt(s, o.op)
  {
    assert OPERATORS[0] == '+' && OPERATORS[1] == '-' && OPERATORS[2] == '*';
    if HasPattern(s, 0) {
      assert SplitOp(s) == SplitAt(s, '+');
    } else if HasPattern(s, 1) {
      assert SplitOp(s) == SplitOpFrom(s, 1) == SplitAt(s, '-');
    } else {
      assert SplitOp(s) == SplitOpFrom(s, 1) == SplitOpFrom(s, 2);
      assert SplitOpFrom(s, 2) == SplitAt(s, '*');
    }
  }

  /** The operator of a successful `parse_op` is `+`, `-` or `*`. */
  lemma SplitOpOperator(s: string)
    requires SplitOp(s).Some?
    ensures SplitOp(s).value.op in OPERATORS
  {
    SplitOpFirstMatch(s);
  }

  /** On a trimmed, non-empty line `parse_op` succeeds exactly when one of
      the three patterns occurs; so when it fails it has written nothing
      into the line, and the bare-name lookup that follows sees the line
      whole. */
  lemma SplitOpOnTrimmed(s: string)
    requires s != [] && Trimmed(s) == s
    ensures SplitOp(s).Some? <==> HasPattern(s, 0) || HasPattern(s, 1) || HasPattern(s, 2)
  {
    var k := if HasPattern(s, 0) then 0 else if HasPattern(s, 1) then 1 else 2;
    if HasPattern(s, k) {
      SplitSidesNonEmpty(s, IndexOf(s, Pattern(OPERATORS[k])), Pattern(OPERATORS[k]));
    }
  }

  /** The fixed order in action: `"a * b + c"` is split at `" + "`, not at
      the `" * "` that comes first in the text. */
  lemma PlusBeforeTimes()
    ensures SplitOp("a * b + c") == Some(Operation("a * b", '+', "c"))
  {
    var s := "a * b + c";
    assert s[5..8] == Pattern('+');
    assert IndexOf(s, Pattern('+')) == 5 by {
      forall j | 0 <= j < 5 ensures !OccursAt(s, Pattern('+'), j) {
        assert s[j..j + 3][1] == s[j + 1] != '+';
      }
    }
    assert s[..5] == "a * b";
    assert s[8..] == "c";
    NoSpaceEnds("a * b");
    NoSpaceEnds("c");
  }
}
