/** The Khmer encoding normaliser of src/utils/khmerUnicodeNormalizer.js.
    Cleanup (NFC, removal of invisible code points, whitespace tidying)
    runs first, then a narrow reorder fix for a pre-vowel sign typed in
    front of a COENG + consonant cluster. NFC itself depends on Unicode
    tables and is a parameter `nfc` of every operation that uses it. */
module KhmerUnicodeNormalizer {
  import opened JsString

  /** `{ text, changed }` of the cleanup stage. */
  datatype Cleaned = Cleaned(text: string, changed: bool)

  /** `{ text, corrected }` of the reorder fix and of the whole normaliser. */
  datatype Correction = Correction(text: string, corrected: bool)

  // ---------------------------------------------------------------------
  // Constant tables

  /** KHMER SIGN COENG. */
  const COENG: char := '\U{17D2}'

  /** PRE_VOWELS: the five signs U+17C1 to U+17C5 (េ ែ ៃ ោ ៅ). */
  predicate IsPreVowel(c: char) {
    '\U{17C1}' <= c <= '\U{17C5}'
  }

  /** `isKhmerConsonant`: the block U+1780 to U+17A2. */
  predicate IsKhmerConsonant(c: char) {
    '\U{1780}' <= c <= '\U{17A2}'
  }

  /** ZERO_WIDTH_REMOVE_RE: ZWSP, LRM, RLM, WJ and BOM. */
  predicate IsInvisible(c: char) {
    c == '\U{200B}' || c == '\U{200E}' || c == '\U{200F}' || c == '\U{2060}' || c == '\U{FEFF}'
  }

  /** The class `[ \t\f\v]` of the horizontal-whitespace regex. */
  predicate IsHorizontalSpace(c: char) {
    c == ' ' || c == '\t' || c == '\U{000C}' || c == '\U{000B}'
  }

  /** Tab, form feed, vertical tab and carriage return. */
  predicate IsControlSpace(c: char) {
    c == '\t' || c == '\U{000C}' || c == '\U{000B}' || c == '\r'
  }

  /** Whitespace that is not a line break. */
  predicate IsBlank(c: char) {
    IsWhiteSpace(c) && c != '\n'
  }

  /** Code points that are neither whitespace nor removed invisibles. */
  predicate IsVisible(c: char) {
    !IsWhiteSpace(c) && !IsInvisible(c)
  }

  // ---------------------------------------------------------------------
  // What the cleanup promises about its output

  predicate CharsAllowed(t: string) {
    forall i :: 0 <= i < |t| ==> !IsInvisible(t[i]) && !IsControlSpace(t[i])
  }

  predicate NoDoubleSpace(t: string) {
    forall i, j :: 0 <= i < |t| && 0 <= j < |t| && j == i + 1 ==> !(t[i] == ' ' && t[j] == ' ')
  }

  predicate NoTripleNewline(t: string) {
    forall i, j, k :: 0 <= i < |t| && 0 <= j < |t| && 0 <= k < |t| && j == i + 1 && k == i + 2 ==>
      !(t[i] == '\n' && t[j] == '\n' && t[k] == '\n')
  }

  /** No whitespace stands right after or right before a line break. */
  predicate NoBlankAtLineBreak(t: string) {
    && (forall i, j :: 0 <= i < |t| && 0 <= j < |t| && j == i + 1 && t[i] == '\n' ==> !IsBlank(t[j]))
    && (forall i, j :: 0 <= i < |t| && 0 <= j < |t| && j == i + 1 && t[j] == '\n' ==> !IsBlank(t[i]))
  }

  /** Every line (maximal LF-free segment) is trimmed. */
  predicate LinesTrimmed(t: string) {
    NoBlankAtLineBreak(t) && (|t| > 0 ==> !IsBlank(t[0]) && !IsBlank(t[|t| - 1]))
  }

  /** The properties of the cleanup's output, all together. */
  predicate Clean(t: string) {
    CharsAllowed(t) && NoDoubleSpace(t) && NoTripleNewline(t) && NoBlankAtLineBreak(t) && IsTrimmed(t)
  }

  /** The visible content of a text: its visible code points in order. */
  function VisibleText(s: string): string {
    if s == [] then [] else (if IsVisible(s[0]) then [s[0]] else []) + VisibleText(s[1..])
  }

  // ---------------------------------------------------------------------
  // Cleanup stages

  /** `text.replace(ZERO_WIDTH_REMOVE_RE, "")` */
  function RemoveInvisible(s: string): (r: string)
    ensures forall c :: c in r ==> c in s && !IsInvisible(c)
  {
    if s == [] then [] else (if IsInvisible(s[0]) then [] else [s[0]]) + RemoveInvisible(s[1..])
  }

  /** Drops the horizontal whitespace `s` starts with. */
  function SkipHorizontal(s: string): (r: string)
    ensures |r| <= |s| && r == s[|s| - |r|..]
    ensures forall c :: c in r ==> c in s
    ensures r == [] || !IsHorizontalSpace(r[0])
  {
    if s != [] && IsHorizontalSpace(s[0]) then SkipHorizontal(s[1..]) else s
  }

  /** `.replace(/[ \t\f\v]+/g, " ")`: every maximal run of horizontal
      whitespace becomes one space. */
  function CollapseHorizontal(s: string): (r: string)
    ensures forall c :: c in r ==> c == ' ' || (c in s && !IsHorizontalSpace(c))
    ensures |s| > 0 ==> |r| > 0 && (r[0] == ' ' <==> IsHorizontalSpace(s[0]))
  {
    if s == [] then []
    else if IsHorizontalSpace(s[0]) then
      var t := SkipHorizontal(s[1..]);
      var r := CollapseHorizontal(t);
      assert forall c :: c in [' '] + r ==> c == ' ' || c in r;
      assert forall c :: c in t ==> c in s;
      [' '] + r
    else
      var r := CollapseHorizontal(s[1..]);
      assert forall c :: c in [s[0]] + r ==> c == s[0] || c in r;
      [s[0]] + r
  }

  /** `.split("\n").map((line) => line.trim()).join("\n")` */
  function TrimLines(s: string): string {
    Join(TrimEach(Split(s, '\n')), "\n")
  }

  /** Drops the line feeds `s` starts with. */
  function SkipNewlines(s: string): (r: string)
    ensures |r| <= |s| && r == s[|s| - |r|..]
    ensures forall i :: 0 <= i < |s| - |r| ==> s[i] == '\n'
    ensures r == [] || r[0] != '\n'
  {
    if s != [] && s[0] == '\n' then SkipNewlines(s[1..]) else s
  }

  /** `.replace(/\n{3,}/g, "\n\n")`: every run of three or more line
      feeds becomes two; the first two code points stay. */
  function CollapseBlankLines(s: string): (r: string)
    ensures |s| <= 1 ==> r == s
    ensures |s| >= 2 ==> |r| >= 2 && r[0] == s[0] && r[1] == s[1]
  {
    if |s| >= 3 && s[0] == '\n' && s[1] == '\n' && s[2] == '\n' then
      "\n\n" + CollapseBlankLines(SkipNewlines(s[3..]))
    else if s == [] then []
    else [s[0]] + CollapseBlankLines(s[1..])
  }

  /** The rewrites `normalizeWhitespaceAndNfc` applies to the NFC form. */
  datatype Pass = DropInvisibles | CollapseSpaces | UnifyLineEnds | TrimEachLine | CollapseBlankRuns | TrimText

  function ApplyPass(p: Pass, t: string): string {
    match p
    case DropInvisibles => RemoveInvisible(t)
    case CollapseSpaces => CollapseHorizontal(t)
    case UnifyLineEnds => ToLf(t)
    case TrimEachLine => TrimLines(t)
    case CollapseBlankRuns => CollapseBlankLines(t)
    case TrimText => Trim(t)
  }

  /** The passes in the order the code chains them. */
  const CleanupPasses: seq<Pass> :=
    [DropInvisibles, CollapseSpaces, UnifyLineEnds, TrimEachLine, CollapseBlankRuns, TrimText]

  /** Each pass rewrites the text the previous one left. */
  function RunPasses(ps: seq<Pass>, t: string): string {
    if ps == [] then t else RunPasses(ps[1..], ApplyPass(ps[0], t))
  }

  /** `normalizeWhitespaceAndNfc`: the cleanup stage. Its output is clean,
      keeps the visible content of the NFC form in order, and `changed`
      says whether it differs from the input. */
  function NormalizeWhitespaceAndNfc(nfc: string -> string, input: string): (r: Cleaned)
    ensures Clean(r.text)
    ensures VisibleText(r.text) == VisibleText(nfc(input))
    ensures r.changed <==> r.text != input
  {
    var text := RunPasses(CleanupPasses, nfc(input));
    CleanupPassesMeet(nfc(input));
    Cleaned(text, text != input)
  }

  /** The cleanup passes, composed. */
  lemma CleanupPassesSteps(t0: string)
    ensures RunPasses(CleanupPasses, t0)
         == Trim(CollapseBlankLines(TrimLines(ToLf(CollapseHorizontal(RemoveInvisible(t0))))))
  {
    var t1 := RemoveInvisible(t0);
    var t2 := CollapseHorizontal(t1);
    var t3 := ToLf(t2);
    var t4 := TrimLines(t3);
    var t5 := CollapseBlankLines(t4);
    var p5: seq<Pass> := [TrimText];
    var p4 := [CollapseBlankRuns] + p5;
    var p3 := [TrimEachLine] + p4;
    var p2 := [UnifyLineEnds] + p3;
    var p1 := [CollapseSpaces] + p2;
    assert RunPasses(CleanupPasses, t0) == RunPasses(p1, t1) by {
      CleanupPassesShape();
      RunPassesCons(DropInvisibles, p1, t0);
    }
    assert RunPasses(p1, t1) == RunPasses(p2, t2) by { RunPassesCons(CollapseSpaces, p2, t1); }
    assert RunPasses(p2, t2) == RunPasses(p3, t3) by { RunPassesCons(UnifyLineEnds, p3, t2); }
    assert RunPasses(p3, t3) == RunPasses(p4, t4) by { RunPassesCons(TrimEachLine, p4, t3); }
    assert RunPasses(p4, t4) == RunPasses(p5, t5) by { RunPassesCons(CollapseBlankRuns, p5, t4); }
    assert RunPasses(p5, t5) == Trim(t5) by { RunPassesCons(TrimText, [], t5); }
  }

  lemma CleanupPassesShape()
    ensures CleanupPasses
         == [DropInvisibles] + ([CollapseSpaces] + ([UnifyLineEnds] + ([TrimEachLine] + ([CollapseBlankRuns] + [TrimText]))))
  {
  }

  lemma RunPassesCons(p: Pass, ps: seq<Pass>, t: string)
    ensures RunPasses([p] + ps, t) == RunPasses(ps, ApplyPass(p, t))
  {
    assert ([p] + ps)[1..] == ps;
  }

  /** The cleanup passes leave clean text with the visible content of their input. */
  lemma CleanupPassesMeet(t0: string)
    ensures Clean(RunPasses(CleanupPasses, t0))
    ensures VisibleText(RunPasses(CleanupPasses, t0)) == VisibleText(t0)
  {
    var t1 := RemoveInvisible(t0);
    var t2 := CollapseHorizontal(t1);
    var t3 := ToLf(t2);
    var t4 := TrimLines(t3);
    var t5 := CollapseBlankLines(t4);
    CleanupPassesSteps(t0);
    CleanupIsClean(t1, t2, t3, t4, t5, Trim(t5));
    CleanupKeepsVisible(t0, t1, t2, t3, t4, t5, Trim(t5));
  }

  // ---------------------------------------------------------------------
  // The reorder fix

  /** The window at `i` reads consonant, pre-vowel, COENG, consonant. */
  predicate MatchAt(s: string, i: int) {
    && 0 <= i && i + 3 < |s|
    && IsKhmerConsonant(s[i]) && IsPreVowel(s[i + 1]) && s[i + 2] == COENG && IsKhmerConsonant(s[i + 3])
  }

  /** The tables the scan tests are disjoint: a consonant is neither a
      pre-vowel nor COENG, a pre-vowel is not COENG, and none of them is
      whitespace or a removed invisible, so the cleanup never touches them. */
  lemma KhmerTables()
    ensures forall c :: IsKhmerConsonant(c) ==> !IsPreVowel(c) && c != COENG && IsVisible(c)
    ensures forall c :: IsPreVowel(c) ==> c != COENG && IsVisible(c)
    ensures IsVisible(COENG)
  {
  }

  /** Two matching windows never start one or two apart: a pre-vowel or
      COENG cannot be the base consonant of another window. */
  lemma MatchesApart(s: string, i: int)
    requires MatchAt(s, i)
    ensures !MatchAt(s, i + 1) && !MatchAt(s, i + 2)
  {
  }

  /** No window of `s` is in the mis-encoded order. */
  predicate NoMisorderedWindow(s: string) {
    forall j :: 0 <= j < |s| ==> !MatchAt(s, j)
  }

  /** `chars.splice(i, 4, a, c, d, b)`: the window `a b c d` at `i`
      becomes `a c d b`; the rest is untouched. */
  function Rewrite(s: string, i: nat): (r: string)
    requires i + 3 < |s|
    ensures |r| == |s|
    ensures r[i] == s[i] && r[i + 1] == s[i + 2] && r[i + 2] == s[i + 3] && r[i + 3] == s[i + 1]
    ensures forall k :: 0 <= k < |s| && !(i <= k < i + 4) ==> r[k] == s[k]
  {
    s[..i] + [s[i], s[i + 2], s[i + 3], s[i + 1]] + s[i + 4..]
  }

  /** The rewrite only moves code points around. */
  lemma RewritePermutes(s: string, i: nat)
    requires i + 3 < |s|
    ensures multiset(Rewrite(s, i)) == multiset(s)
  {
    var a, b := s[..i], s[i + 4..];
    var x, y := [s[i + 1]], [s[i + 2], s[i + 3]];
    assert s == a + [s[i]] + (x + y) + b;
    assert Rewrite(s, i) == a + [s[i]] + (y + x) + b;
    SwapPermutes(x, y);
  }

  lemma SwapPermutes(x: string, y: string)
    ensures multiset(x + y) == multiset(y + x)
  {
  }

  /** The scan of `fixPreVowelBeforeCoeng` from index `i` on: each index
      below `|s| - 3` is tested once, on the text as rewritten so far. */
  function FixFrom(s: string, i: nat): Correction
    decreases |s| - i
  {
    if !(i < |s| - 3) then Correction(s, false)
    else if MatchAt(s, i) then
      var rest := FixFrom(Rewrite(s, i), i + 1);
      Correction(rest.text, true)
    else FixFrom(s, i + 1)
  }

  /** One step of the scan. */
  lemma FixFromStep(s: string, i: nat)
    requires i < |s| - 3
    ensures FixFrom(s, i) == if MatchAt(s, i) then Correction(FixFrom(Rewrite(s, i), i + 1).text, true)
                             else FixFrom(s, i + 1)
  {
  }

  /** What `fixPreVowelBeforeCoeng` computes. It permutes the code points,
      reports a correction exactly when some window of the input is
      mis-ordered, changes nothing otherwise, and leaves no mis-ordered
      window behind. */
  function PreVowelFix(s: string): (r: Correction)
    ensures |r.text| == |s| && multiset(r.text) == multiset(s)
    ensures r.corrected <==> exists j :: MatchAt(s, j)
    ensures !r.corrected ==> r.text == s
    ensures NoMisorderedWindow(r.text)
  {
    FixFromPermutes(s, 0);
    FixFromCorrected(s, 0);
    FixFromLeavesNoMatch(s, 0);
    FixFrom(s, 0)
  }

  /** `fixPreVowelBeforeCoeng`, in place on an array of code points. */
  method FixPreVowelBeforeCoeng(text: string) returns (r: Correction)
    ensures r == PreVowelFix(text)
  {
    var chars := new char[|text|](k requires 0 <= k < |text| => text[k]);
    assert chars[..] == text;
    ghost var goal := FixFrom(text, 0);
    var corrected := false;
    var i := 0;
    while i < chars.Length - 3
      invariant 0 <= i && (i == 0 || i <= chars.Length - 3)
      invariant chars.Length == |text|
      invariant var rest := FixFrom(chars[..], i);
        goal == Correction(rest.text, corrected || rest.corrected)
      decreases chars.Length - i
    {
      ghost var s := chars[..];
      FixFromStep(s, i);
      var a, b, c, d := chars[i], chars[i + 1], chars[i + 2], chars[i + 3];
      if IsKhmerConsonant(a) && IsPreVowel(b) && c == COENG && IsKhmerConsonant(d) {
        assert MatchAt(s, i);
        chars[i], chars[i + 1], chars[i + 2], chars[i + 3] := a, c, d, b;
        assert chars[..] == Rewrite(s, i);
        corrected := true;
      } else {
        assert !MatchAt(s, i);
      }
      i := i + 1;
    }
    r := Correction(chars[..], corrected);
  }

  // ---------------------------------------------------------------------
  // The whole normaliser

  /** What `normalizeKhmerEncoding` computes: cleanup, then the reorder
      fix. Its text is clean with no mis-ordered window, and when nothing
      is reported the text is the input itself. */
  function Normalization(nfc: string -> string, input: string): (r: Correction)
    ensures Clean(r.text)
    ensures NoMisorderedWindow(r.text)
    ensures !r.corrected ==> r.text == input
  {
    var r0 := NormalizeWhitespaceAndNfc(nfc, input);
    var r1 := PreVowelFix(r0.text);
    FixKeepsClean(r0.text);
    Correction(r1.text, r0.changed || r1.corrected)
  }

  /** `normalizeKhmerEncoding`: the cleanup, then the in-place reorder fix,
      their flags OR-ed. Its result is `Normalization`'s: clean, with no
      mis-ordered window, and the input itself when nothing is reported. */
  method NormalizeKhmerEncoding(nfc: string -> string, input: string) returns (r: Correction)
    ensures r == Normalization(nfc, input)
  {
    var r0 := NormalizeWhitespaceAndNfc(nfc, input);
    var text := r0.text;
    var corrected := r0.changed;
    var r1 := FixPreVowelBeforeCoeng(text);
    if r1.corrected {
      corrected := true;
    }
    text := r1.text;
    r := Correction(text, corrected);
  }

  // ---------------------------------------------------------------------
  // Lemmas: the reorder fix

  lemma {:induction false} FixFromPermutes(s: string, i: nat)
    ensures |FixFrom(s, i).text| == |s| && multiset(FixFrom(s, i).text) == multiset(s)
    decreases |s| - i
  {
    if !(i < |s| - 3) {
    } else if MatchAt(s, i) {
      RewritePermutes(s, i);
      FixFromPermutes(Rewrite(s, i), i + 1);
    } else {
      FixFromPermutes(s, i + 1);
    }
  }

  lemma {:induction false} FixFromCorrected(s: string, i: nat)
    ensures FixFrom(s, i).corrected <==> exists j :: i <= j && MatchAt(s, j)
    ensures !FixFrom(s, i).corrected ==> FixFrom(s, i).text == s
    decreases |s| - i
  {
    if !(i < |s| - 3) {
      assert forall j :: i <= j ==> !MatchAt(s, j);
    } else if MatchAt(s, i) {
    } else {
      FixFromCorrected(s, i + 1);
      assert (exists j :: i <= j && MatchAt(s, j)) ==> exists j :: i + 1 <= j && MatchAt(s, j);
    }
  }

  /** A rewrite at `i` creates no mis-ordered window at or before `i`:
      a consonant is never a pre-vowel nor COENG. */
  lemma RewriteCreatesNoEarlierMatch(s: string, i: nat)
    requires MatchAt(s, i)
    requires forall j :: 0 <= j < i ==> !MatchAt(s, j)
    ensures forall j :: 0 <= j <= i ==> !MatchAt(Rewrite(s, i), j)
  {
    var r := Rewrite(s, i);
    forall j | 0 <= j <= i ensures !MatchAt(r, j) {
      if j + 3 < i {
        assert !MatchAt(s, j);
        assert r[j] == s[j] && r[j + 1] == s[j + 1] && r[j + 2] == s[j + 2] && r[j + 3] == s[j + 3];
      } else if j == i - 3 {
        assert !MatchAt(s, j);
        assert r[j] == s[j] && r[j + 1] == s[j + 1] && r[j + 2] == s[j + 2] && r[j + 3] == s[j + 3];
      } else if j == i - 2 {
        assert r[j + 2] == s[i];
      } else if j == i - 1 {
        assert r[j + 1] == s[i];
      } else {
        assert r[i + 1] == COENG;
      }
    }
  }

  lemma {:induction false} FixFromLeavesNoMatch(s: string, i: nat)
    requires forall j :: 0 <= j < i ==> !MatchAt(s, j)
    ensures NoMisorderedWindow(FixFrom(s, i).text)
    decreases |s| - i
  {
    if !(i < |s| - 3) {
      assert forall j :: 0 <= j < |s| ==> !MatchAt(s, j) by {
        forall j | 0 <= j < |s| ensures !MatchAt(s, j) {
          if j < i {}
        }
      }
    } else if MatchAt(s, i) {
      RewriteCreatesNoEarlierMatch(s, i);
      FixFromLeavesNoMatch(Rewrite(s, i), i + 1);
    } else {
      FixFromLeavesNoMatch(s, i + 1);
    }
  }

  /** A second pass of the fix over its own output finds nothing. */
  lemma FixIdempotent(s: string)
    ensures var t := PreVowelFix(s).text; PreVowelFix(t) == Correction(t, false)
  {
    var t := PreVowelFix(s).text;
    assert !PreVowelFix(t).corrected;
  }

  /** The documented example: ខ ែ ្ ម រ becomes ខ ្ ម ែ រ. */
  lemma FixExample()
    ensures PreVowelFix("\U{1781}\U{17C2}\U{17D2}\U{1798}\U{179A}")
         == Correction("\U{1781}\U{17D2}\U{1798}\U{17C2}\U{179A}", true)
  {
    var s := "\U{1781}\U{17C2}\U{17D2}\U{1798}\U{179A}";
    var t := "\U{1781}\U{17D2}\U{1798}\U{17C2}\U{179A}";
    assert MatchAt(s, 0);
    assert Rewrite(s, 0) == t;
    assert !MatchAt(t, 1);
    assert FixFrom(t, 2) == Correction(t, false);
  }

  // ---------------------------------------------------------------------
  // Lemmas: the fix keeps a clean text clean

  predicate IsKhmerSign(c: char) {
    IsKhmerConsonant(c) || IsPreVowel(c) || c == COENG
  }

  /** `t` differs from `s` only by exchanging Khmer signs for Khmer signs. */
  predicate SameLayout(s: string, t: string) {
    |s| == |t| && forall k :: 0 <= k < |s| ==> s[k] == t[k] || (IsKhmerSign(s[k]) && IsKhmerSign(t[k]))
  }

  lemma {:induction false} FixFromSameLayout(s: string, i: nat)
    ensures SameLayout(s, FixFrom(s, i).text)
    decreases |s| - i
  {
    if !(i < |s| - 3) {
    } else if MatchAt(s, i) {
      var r := Rewrite(s, i);
      FixFromSameLayout(r, i + 1);
      assert SameLayout(s, r);
    } else {
      FixFromSameLayout(s, i + 1);
    }
  }

  lemma SameLayoutKeepsClean(s: string, t: string)
    requires Clean(s) && SameLayout(s, t)
    ensures Clean(t)
  {
    assert forall k :: 0 <= k < |s| && IsKhmerSign(t[k]) ==> !IsWhiteSpace(t[k]) && !IsInvisible(t[k]);
  }

  lemma FixKeepsClean(s: string)
    requires Clean(s)
    ensures Clean(PreVowelFix(s).text)
  {
    FixFromSameLayout(s, 0);
    SameLayoutKeepsClean(s, FixFrom(s, 0).text);
  }

  // ---------------------------------------------------------------------
  // Lemmas: the cleanup

  lemma {:induction false} CollapseHorizontalNoDoubleSpace(s: string)
    ensures NoDoubleSpace(CollapseHorizontal(s))
  {
    if s == [] {
    } else if IsHorizontalSpace(s[0]) {
      var t := SkipHorizontal(s[1..]);
      CollapseHorizontalNoDoubleSpace(t);
    } else {
      CollapseHorizontalNoDoubleSpace(s[1..]);
    }
  }

  lemma {:induction false} ReplaceCrLfNoDoubleSpace(s: string)
    requires NoDoubleSpace(s)
    ensures NoDoubleSpace(ReplaceCrLf(s))
  {
    if |s| >= 2 && s[0] == '\r' && s[1] == '\n' {
      ReplaceCrLfNoDoubleSpace(s[2..]);
    } else if s != [] {
      ReplaceCrLfNoDoubleSpace(s[1..]);
    }
  }

  lemma ToLfNoDoubleSpace(s: string)
    requires NoDoubleSpace(s)
    ensures NoDoubleSpace(ToLf(s))
  {
    ReplaceCrLfNoDoubleSpace(s);
  }

  /** The tidy properties every slice of a tidy text keeps. */
  predicate Tidy(t: string) {
    CharsAllowed(t) && NoDoubleSpace(t)
  }

  lemma {:induction false} JoinPiecesTidy(ls: seq<string>, sep: string)
    requires Tidy(Join(ls, sep))
    ensures forall k :: 0 <= k < |ls| ==> Tidy(ls[k])
  {
    if |ls| > 1 {
      var j := Join(ls, sep);
      var rest := Join(ls[1..], sep);
      assert ls[0] == j[..|ls[0]|];
      assert rest == j[|ls[0]| + |sep|..];
      JoinPiecesTidy(ls[1..], sep);
      assert forall k :: 1 <= k < |ls| ==> ls[k] == ls[1..][k - 1];
    }
  }

  lemma {:induction false} JoinLinesTidy(ls: seq<string>)
    requires forall k :: 0 <= k < |ls| ==> Tidy(ls[k])
    ensures Tidy(Join(ls, "\n"))
  {
    if |ls| > 1 {
      JoinLinesTidy(ls[1..]);
      var l, rest := ls[0], Join(ls[1..], "\n");
      var j := l + "\n" + rest;
      assert Join(ls, "\n") == j;
      forall i | 0 <= i < |j| - 1 ensures !(j[i] == ' ' && j[i + 1] == ' ') {
        if i < |l| - 1 {
          assert j[i] == l[i] && j[i + 1] == l[i + 1];
        } else if i > |l| {
          assert j[i] == rest[i - |l| - 1] && j[i + 1] == rest[i - |l|];
        }
      }
      forall i | 0 <= i < |j| ensures !IsInvisible(j[i]) && !IsControlSpace(j[i]) {
        if i < |l| { assert j[i] == l[i]; } else if i > |l| { assert j[i] == rest[i - |l| - 1]; }
      }
    }
  }

  lemma TidySlice(s: string, a: nat, b: nat)
    requires Tidy(s) && a <= b <= |s|
    ensures Tidy(s[a..b])
  {
    assert forall i :: 0 <= i < b - a ==> s[a..b][i] == s[a + i];
  }

  lemma TrimTidy(p: string)
    requires Tidy(p)
    ensures Tidy(Trim(p))
  {
    var a := LeadingWhiteSpace(p);
    TidySlice(p, a, a + |Trim(p)|);
  }

  lemma TrimLinesTidy(s: string)
    requires Tidy(s)
    ensures Tidy(TrimLines(s))
  {
    var pieces := Split(s, '\n');
    JoinPiecesTidy(pieces, "\n");
    var trimmed := TrimEach(pieces);
    forall k | 0 <= k < |trimmed| ensures Tidy(trimmed[k]) {
      TrimTidy(pieces[k]);
    }
    JoinLinesTidy(trimmed);
  }

  lemma {:induction false} JoinLinesTrimmed(ls: seq<string>)
    requires forall k :: 0 <= k < |ls| ==> '\n' !in ls[k] && IsTrimmed(ls[k])
    ensures LinesTrimmed(Join(ls, "\n"))
  {
    if |ls| == 1 {
      assert forall i :: 0 <= i < |ls[0]| ==> ls[0][i] != '\n';
    } else if |ls| > 1 {
      JoinLinesTrimmed(ls[1..]);
      var l, rest := ls[0], Join(ls[1..], "\n");
      var j := l + "\n" + rest;
      assert Join(ls, "\n") == j;
      assert forall i :: 0 <= i < |l| ==> l[i] != '\n';
      forall i | 0 <= i < |j| - 1
        ensures (j[i] == '\n' ==> !IsBlank(j[i + 1])) && (j[i + 1] == '\n' ==> !IsBlank(j[i]))
      {
        if i < |l| - 1 {
          assert j[i] == l[i] && j[i + 1] == l[i + 1];
        } else if i == |l| - 1 {
          assert j[i] == l[|l| - 1];
        } else if i == |l| {
          assert j[i + 1] == rest[0];
        } else {
          assert j[i] == rest[i - |l| - 1] && j[i + 1] == rest[i - |l|];
        }
      }
    }
  }

  lemma TrimLinesTrimmed(s: string)
    ensures LinesTrimmed(TrimLines(s))
  {
    var trimmed := TrimEach(Split(s, '\n'));
    forall k | 0 <= k < |trimmed| ensures '\n' !in trimmed[k] && IsTrimmed(trimmed[k]) {
      TrimInside(Split(s, '\n')[k], '\n');
    }
    JoinLinesTrimmed(trimmed);
  }

  lemma TidyConcat(a: string, b: string)
    requires Tidy(a) && Tidy(b)
    requires |a| > 0 && |b| > 0 ==> !(a[|a| - 1] == ' ' && b[0] == ' ')
    ensures Tidy(a + b)
  {
    var t := a + b;
    forall i | 0 <= i < |t| - 1 ensures !(t[i] == ' ' && t[i + 1] == ' ') {
      if i < |a| - 1 {
        assert t[i] == a[i] && t[i + 1] == a[i + 1];
      } else if i >= |a| {
        assert t[i] == b[i - |a|] && t[i + 1] == b[i + 1 - |a|];
      }
    }
  }

  lemma NoBlankConcat(a: string, b: string)
    requires NoBlankAtLineBreak(a) && NoBlankAtLineBreak(b)
    requires |a| > 0 && |b| > 0 ==>
      (a[|a| - 1] == '\n' ==> !IsBlank(b[0])) && (b[0] == '\n' ==> !IsBlank(a[|a| - 1]))
    ensures NoBlankAtLineBreak(a + b)
  {
    var t := a + b;
    forall i | 0 <= i < |t| - 1
      ensures (t[i] == '\n' ==> !IsBlank(t[i + 1])) && (t[i + 1] == '\n' ==> !IsBlank(t[i]))
    {
      if i < |a| - 1 {
        assert t[i] == a[i] && t[i + 1] == a[i + 1];
      } else if i >= |a| {
        assert t[i] == b[i - |a|] && t[i + 1] == b[i + 1 - |a|];
      }
    }
  }

  lemma TidySuffix(s: string, k: nat)
    requires Tidy(s) && k <= |s|
    ensures Tidy(s[k..])
  {
    assert forall i :: 0 <= i < |s| - k ==> s[k..][i] == s[k + i];
  }

  lemma NoBlankSuffix(s: string, k: nat)
    requires NoBlankAtLineBreak(s) && k <= |s|
    ensures NoBlankAtLineBreak(s[k..])
  {
    assert forall i :: 0 <= i < |s| - k ==> s[k..][i] == s[k + i];
  }

  lemma {:induction false} CollapseBlankLinesTidy(s: string)
    requires Tidy(s)
    ensures Tidy(CollapseBlankLines(s))
    decreases |s|, 1
  {
    if |s| >= 3 && s[0] == '\n' && s[1] == '\n' && s[2] == '\n' {
      CollapsedRunTidy(s);
    } else if s != [] {
      var r := CollapseBlankLines(s[1..]);
      TidySuffix(s, 1);
      CollapseBlankLinesTidy(s[1..]);
      assert |r| > 0 ==> r[0] == s[1];
      TidyConcat([s[0]], r);
    }
  }

  lemma {:induction false} CollapsedRunTidy(s: string)
    requires Tidy(s) && |s| >= 3 && s[0] == '\n' && s[1] == '\n' && s[2] == '\n'
    ensures Tidy(CollapseBlankLines(s))
    decreases |s|, 0
  {
    var d := SkipNewlines(s[3..]);
    SkippedRunTidy(s);
    CollapseBlankLinesTidy(d);
    CollapseBlankLinesRun(s);
    TidyConcat("\n\n", CollapseBlankLines(d));
  }

  /** A run of three or more line feeds becomes two. */
  lemma CollapseBlankLinesRun(s: string)
    requires |s| >= 3 && s[0] == '\n' && s[1] == '\n' && s[2] == '\n'
    ensures CollapseBlankLines(s) == "\n\n" + CollapseBlankLines(SkipNewlines(s[3..]))
  {
  }

  lemma SkippedRunTidy(s: string)
    requires Tidy(s) && |s| >= 3
    ensures Tidy(SkipNewlines(s[3..]))
  {
    var u := s[3..];
    TidySuffix(s, 3);
    TidySuffix(u, |u| - |SkipNewlines(u)|);
  }

  lemma {:induction false} CollapseBlankLinesNoBlank(s: string)
    requires NoBlankAtLineBreak(s)
    ensures NoBlankAtLineBreak(CollapseBlankLines(s))
    decreases |s|, 1
  {
    if |s| >= 3 && s[0] == '\n' && s[1] == '\n' && s[2] == '\n' {
      CollapsedRunNoBlank(s);
    } else if s != [] {
      var r := CollapseBlankLines(s[1..]);
      NoBlankSuffix(s, 1);
      CollapseBlankLinesNoBlank(s[1..]);
      assert |r| > 0 ==> r[0] == s[1];
      NoBlankConcat([s[0]], r);
    }
  }

  lemma {:induction false} CollapsedRunNoBlank(s: string)
    requires NoBlankAtLineBreak(s) && |s| >= 3 && s[0] == '\n' && s[1] == '\n' && s[2] == '\n'
    ensures NoBlankAtLineBreak(CollapseBlankLines(s))
    decreases |s|, 0
  {
    var d := SkipNewlines(s[3..]);
    var r := CollapseBlankLines(d);
    CollapseBlankLinesRun(s);
    SkippedRunNoBlank(s);
    CollapseBlankLinesNoBlank(d);
    AfterRunNotBlank(s);
    assert |r| > 0 ==> r[0] == d[0];
    TwoNewlinesNoBlank(r);
  }

  lemma SkippedRunNoBlank(s: string)
    requires NoBlankAtLineBreak(s) && |s| >= 3
    ensures NoBlankAtLineBreak(SkipNewlines(s[3..]))
  {
    var u := s[3..];
    NoBlankSuffix(s, 3);
    NoBlankSuffix(u, |u| - |SkipNewlines(u)|);
  }

  lemma TwoNewlinesNoBlank(r: string)
    requires NoBlankAtLineBreak(r) && (r != [] ==> !IsBlank(r[0]))
    ensures NoBlankAtLineBreak("\n\n" + r)
  {
    NoBlankConcat("\n\n", r);
  }

  /** What follows a run of line feeds is not a blank. */
  lemma AfterRunNotBlank(s: string)
    requires NoBlankAtLineBreak(s) && |s| >= 3 && s[2] == '\n'
    ensures var d := SkipNewlines(s[3..]); d != [] ==> !IsBlank(d[0])
  {
    var u := s[3..];
    var d := SkipNewlines(u);
    if d != [] {
      var j := |s| - |d|;
      assert d[0] == u[j - 3] == s[j];
      assert s[j - 1] == '\n' by {
        if j > 3 {
          assert u[j - 4] == '\n';
        }
      }
    }
  }

  /** Putting one code point in front keeps "no three line feeds" when it
      does not start a new run of three. */
  lemma NoTripleCons(c: char, r: string)
    requires NoTripleNewline(r)
    requires |r| >= 2 && c == '\n' ==> !(r[0] == '\n' && r[1] == '\n')
    ensures NoTripleNewline([c] + r)
  {
    var t := [c] + r;
    forall i, j, k | 0 <= i < |t| && 0 <= j < |t| && 0 <= k < |t| && j == i + 1 && k == i + 2
      ensures !(t[i] == '\n' && t[j] == '\n' && t[k] == '\n')
    {
      if i > 0 {
        assert t[i] == r[i - 1] && t[j] == r[j - 1] && t[k] == r[k - 1];
      }
    }
  }

  /** Two line feeds before text that does not start with one. */
  lemma NoTripleAfterRun(r: string)
    requires NoTripleNewline(r) && (r != [] ==> r[0] != '\n')
    ensures NoTripleNewline("\n\n" + r)
  {
    NoTripleCons('\n', r);
    NoTripleCons('\n', "\n" + r);
    assert "\n\n" + r == ['\n'] + ("\n" + r);
  }

  lemma {:induction false} CollapseBlankLinesNoTriple(s: string)
    ensures NoTripleNewline(CollapseBlankLines(s))
    decreases |s|
  {
    if |s| >= 3 && s[0] == '\n' && s[1] == '\n' && s[2] == '\n' {
      var d := SkipNewlines(s[3..]);
      CollapseBlankLinesNoTriple(d);
      var r := CollapseBlankLines(d);
      assert |r| > 0 ==> r[0] == d[0];
      NoTripleAfterRun(r);
    } else if s != [] {
      CollapseBlankLinesNoTriple(s[1..]);
      NoTripleCons(s[0], CollapseBlankLines(s[1..]));
    }
  }

  lemma TidyBeforeLineTrim(t1: string)
    requires forall c :: c in t1 ==> !IsInvisible(c)
    ensures Tidy(ToLf(CollapseHorizontal(t1)))
  {
    var t2 := CollapseHorizontal(t1);
    var t3 := ToLf(t2);
    CollapseHorizontalNoDoubleSpace(t1);
    ToLfNoDoubleSpace(t2);
    forall c | c in t3 ensures !IsInvisible(c) && !IsControlSpace(c) {
      if c != '\n' && c != ' ' {
        assert c in t2;
        assert c in t1 && !IsHorizontalSpace(c);
      }
    }
    CharsAllowedOf(t3);
  }

  lemma CharsAllowedOf(t: string)
    requires forall c :: c in t ==> !IsInvisible(c) && !IsControlSpace(c)
    ensures CharsAllowed(t)
  {
    assert forall i :: 0 <= i < |t| ==> t[i] in t;
  }

  lemma NoTripleSlice(s: string, a: nat, b: nat)
    requires NoTripleNewline(s) && a <= b <= |s|
    ensures NoTripleNewline(s[a..b])
  {
    assert forall i :: 0 <= i < b - a ==> s[a..b][i] == s[a + i];
  }

  lemma NoBlankSlice(s: string, a: nat, b: nat)
    requires NoBlankAtLineBreak(s) && a <= b <= |s|
    ensures NoBlankAtLineBreak(s[a..b])
  {
    assert forall i :: 0 <= i < b - a ==> s[a..b][i] == s[a + i];
  }

  lemma FinalTrimClean(t5: string)
    requires Tidy(t5) && NoTripleNewline(t5) && NoBlankAtLineBreak(t5)
    ensures Clean(Trim(t5))
  {
    var a := LeadingWhiteSpace(t5);
    var t := Trim(t5);
    CleanSlice(t5, a, a + |t|, t);
  }

  /** A trimmed slice of tidy text with no three line feeds and no blank
      next to a line break is clean. */
  lemma CleanSlice(s: string, a: nat, b: nat, t: string)
    requires Tidy(s) && NoTripleNewline(s) && NoBlankAtLineBreak(s)
    requires a <= b <= |s| && t == s[a..b] && IsTrimmed(t)
    ensures Clean(t)
  {
    TidySlice(s, a, b);
    NoTripleSlice(s, a, b);
    NoBlankSlice(s, a, b);
  }

  lemma CleanupIsClean(t1: string, t2: string, t3: string, t4: string, t5: string, text: string)
    requires forall c :: c in t1 ==> !IsInvisible(c)
    requires t2 == CollapseHorizontal(t1) && t3 == ToLf(t2) && t4 == TrimLines(t3)
    requires t5 == CollapseBlankLines(t4) && text == Trim(t5)
    ensures Clean(text)
  {
    TidyBeforeLineTrim(t1);
    TrimLinesTidy(t3);
    TrimLinesTrimmed(t3);
    CollapseBlankLinesTidy(t4);
    CollapseBlankLinesNoBlank(t4);
    CollapseBlankLinesNoTriple(t4);
    FinalTrimClean(t5);
  }

  // ---------------------------------------------------------------------
  // Lemmas: the cleanup keeps the visible content

  lemma {:induction false} VisibleConcat(a: string, b: string)
    ensures VisibleText(a + b) == VisibleText(a) + VisibleText(b)
  {
    if a == [] {
      assert a + b == b;
    } else {
      var h := if IsVisible(a[0]) then [a[0]] else [];
      assert (a + b)[0] == a[0] && (a + b)[1..] == a[1..] + b;
      assert VisibleText(a + b) == h + VisibleText(a[1..] + b);
      VisibleConcat(a[1..], b);
      assert VisibleText(a) == h + VisibleText(a[1..]);
    }
  }

  lemma {:induction false} VisibleOfWhiteSpace(s: string)
    requires AllWhiteSpace(s)
    ensures VisibleText(s) == []
  {
    if s != [] {
      VisibleOfWhiteSpace(s[1..]);
    }
  }

  lemma {:induction false} RemoveInvisibleVisible(s: string)
    ensures VisibleText(RemoveInvisible(s)) == VisibleText(s)
  {
    if s != [] {
      RemoveInvisibleVisible(s[1..]);
      VisibleConcat(if IsInvisible(s[0]) then [] else [s[0]], RemoveInvisible(s[1..]));
    }
  }

  lemma {:induction false} SkipHorizontalVisible(s: string)
    ensures VisibleText(SkipHorizontal(s)) == VisibleText(s)
  {
    if s != [] && IsHorizontalSpace(s[0]) {
      SkipHorizontalVisible(s[1..]);
    }
  }

  lemma {:induction false} CollapseHorizontalVisible(s: string)
    ensures VisibleText(CollapseHorizontal(s)) == VisibleText(s)
    decreases |s|, 1
  {
    if s == [] {
    } else if IsHorizontalSpace(s[0]) {
      CollapsedSpacesVisible(s);
    } else {
      var r := CollapseHorizontal(s[1..]);
      assert CollapseHorizontal(s) == [s[0]] + r;
      CollapseHorizontalVisible(s[1..]);
      assert ([s[0]] + r)[1..] == r;
    }
  }

  /** A run of horizontal whitespace, collapsed to one space, shows nothing. */
  lemma {:induction false} CollapsedSpacesVisible(s: string)
    requires s != [] && IsHorizontalSpace(s[0])
    ensures VisibleText(CollapseHorizontal(s)) == VisibleText(s)
    decreases |s|, 0
  {
    var t := SkipHorizontal(s[1..]);
    var r := CollapseHorizontal(t);
    assert CollapseHorizontal(s) == [' '] + r;
    CollapseHorizontalVisible(t);
    SkipHorizontalVisible(s[1..]);
    VisibleAfterSpace(r);
    assert VisibleText(s) == VisibleText(s[1..]);
  }

  lemma VisibleAfterSpace(r: string)
    ensures VisibleText([' '] + r) == VisibleText(r)
  {
    assert ([' '] + r)[1..] == r;
  }

  lemma {:induction false} ReplaceCrLfVisible(s: string)
    ensures VisibleText(ReplaceCrLf(s)) == VisibleText(s)
  {
    if |s| >= 2 && s[0] == '\r' && s[1] == '\n' {
      ReplaceCrLfVisible(s[2..]);
      VisibleConcat("\n", ReplaceCrLf(s[2..]));
      assert s[1..][1..] == s[2..];
    } else if s != [] {
      ReplaceCrLfVisible(s[1..]);
      VisibleConcat([s[0]], ReplaceCrLf(s[1..]));
    }
  }

  lemma {:induction false} ReplaceCrVisible(s: string)
    ensures VisibleText(ReplaceCr(s)) == VisibleText(s)
  {
    if s != [] {
      var r := ReplaceCr(s);
      ReplaceCrVisible(s[1..]);
      assert r[1..] == ReplaceCr(s[1..]);
    }
  }

  /** The visible content of every line, in order. */
  function VisibleOfLines(ls: seq<string>): string {
    if ls == [] then [] else VisibleText(ls[0]) + VisibleOfLines(ls[1..])
  }

  lemma {:induction false} VisibleJoin(ls: seq<string>, sep: string)
    requires VisibleText(sep) == []
    ensures VisibleText(Join(ls, sep)) == VisibleOfLines(ls)
  {
    if |ls| == 1 {
      assert VisibleOfLines(ls[1..]) == [];
    } else if |ls| > 1 {
      VisibleJoin(ls[1..], sep);
      VisibleConcat(ls[0] + sep, Join(ls[1..], sep));
      VisibleConcat(ls[0], sep);
    }
  }

  lemma TrimVisible(s: string)
    ensures VisibleText(Trim(s)) == VisibleText(s)
  {
    var r := Trim(s);
    var a := LeadingWhiteSpace(s);
    assert s == s[..a] + r + s[a + |r|..];
    VisibleConcat(s[..a] + r, s[a + |r|..]);
    VisibleConcat(s[..a], r);
    VisibleOfWhiteSpace(s[..a]);
    VisibleOfWhiteSpace(s[a + |r|..]);
  }

  lemma {:induction false} TrimEachVisible(ls: seq<string>)
    ensures VisibleOfLines(TrimEach(ls)) == VisibleOfLines(ls)
  {
    if ls != [] {
      TrimEachVisible(ls[1..]);
      TrimVisible(ls[0]);
      assert TrimEach(ls)[1..] == TrimEach(ls[1..]);
    }
  }

  lemma TrimLinesVisible(s: string)
    ensures VisibleText(TrimLines(s)) == VisibleText(s)
  {
    var pieces := Split(s, '\n');
    assert VisibleText("\n") == [];
    VisibleJoin(TrimEach(pieces), "\n");
    TrimEachVisible(pieces);
    VisibleJoin(pieces, "\n");
  }

  lemma {:induction false} SkipNewlinesVisible(s: string)
    ensures VisibleText(SkipNewlines(s)) == VisibleText(s)
  {
    if s != [] && s[0] == '\n' {
      SkipNewlinesVisible(s[1..]);
    }
  }

  /** Dropping a prefix without visible code points keeps the visible content. */
  lemma {:induction false} VisibleDropPrefix(s: string, k: nat)
    requires k <= |s|
    requires forall i :: 0 <= i < k ==> !IsVisible(s[i])
    ensures VisibleText(s) == VisibleText(s[k..])
  {
    if k > 0 {
      VisibleDropPrefix(s[1..], k - 1);
      assert s[1..][k - 1..] == s[k..];
    }
  }

  lemma {:induction false} CollapseBlankLinesVisible(s: string)
    ensures VisibleText(CollapseBlankLines(s)) == VisibleText(s)
    decreases |s|, 1
  {
    if |s| >= 3 && s[0] == '\n' && s[1] == '\n' && s[2] == '\n' {
      CollapsedRunVisible(s);
    } else if s != [] {
      var r := CollapseBlankLines(s[1..]);
      assert CollapseBlankLines(s) == [s[0]] + r;
      CollapseBlankLinesVisible(s[1..]);
      assert ([s[0]] + r)[1..] == r;
    }
  }

  lemma {:induction false} CollapsedRunVisible(s: string)
    requires |s| >= 3 && s[0] == '\n' && s[1] == '\n' && s[2] == '\n'
    ensures VisibleText(CollapseBlankLines(s)) == VisibleText(s)
    decreases |s|, 0
  {
    var d := SkipNewlines(s[3..]);
    var r := CollapseBlankLines(d);
    assert CollapseBlankLines(s) == "\n\n" + r;
    CollapseBlankLinesVisible(d);
    RunVisible(s);
    VisibleAfterTwoNewlines(r);
  }

  /** A run of line feeds has no visible content. */
  lemma {:induction false} RunVisible(s: string)
    requires |s| >= 3 && s[0] == '\n' && s[1] == '\n' && s[2] == '\n'
    ensures VisibleText(s) == VisibleText(SkipNewlines(s[3..]))
  {
    SkipNewlinesVisible(s[3..]);
    VisibleDropPrefix(s, 3);
  }

  lemma VisibleAfterTwoNewlines(r: string)
    ensures VisibleText("\n\n" + r) == VisibleText(r)
  {
    var t := "\n\n" + r;
    assert t[1..][1..] == r;
    assert VisibleText(t) == VisibleText(t[1..]);
  }

  lemma CleanupKeepsVisible(t0: string, t1: string, t2: string, t3: string, t4: string, t5: string, text: string)
    requires t1 == RemoveInvisible(t0) && t2 == CollapseHorizontal(t1) && t3 == ToLf(t2)
    requires t4 == TrimLines(t3) && t5 == CollapseBlankLines(t4) && text == Trim(t5)
    ensures VisibleText(text) == VisibleText(t0)
  {
    RemoveInvisibleVisible(t0);
    CollapseHorizontalVisible(t1);
    ReplaceCrLfVisible(t2);
    ReplaceCrVisible(ReplaceCrLf(t2));
    TrimLinesVisible(t3);
    CollapseBlankLinesVisible(t4);
    TrimVisible(t5);
  }

  /** A clean text without visible content is empty. */
  lemma CleanWithoutVisibleIsEmpty(t: string)
    requires Clean(t) && VisibleText(t) == []
    ensures t == []
  {
  }

  /** Input that NFC leaves alone and that consists of whitespace and
      removed invisibles only cleans up to the empty text. */
  lemma CleanupOfBlank(nfc: string -> string, input: string)
    requires nfc(input) == input
    requires forall i :: 0 <= i < |input| ==> !IsVisible(input[i])
    ensures NormalizeWhitespaceAndNfc(nfc, input).text == []
  {
    InvisibleOnly(input);
    CleanWithoutVisibleIsEmpty(NormalizeWhitespaceAndNfc(nfc, input).text);
  }

  lemma {:induction false} InvisibleOnly(s: string)
    requires forall i :: 0 <= i < |s| ==> !IsVisible(s[i])
    ensures VisibleText(s) == []
  {
    if s != [] {
      InvisibleOnly(s[1..]);
    }
  }

  /** `normalizeKhmerEncoding("")` is `{ text: "", corrected: false }`
      (NFC of the empty text is empty). */
  lemma NormalizationOfEmpty(nfc: string -> string)
    requires nfc("") == ""
    ensures Normalization(nfc, "") == Correction("", false)
  {
    CleanupOfBlank(nfc, "");
    assert !PreVowelFix("").corrected;
  }

  // ---------------------------------------------------------------------
  // What each stage keeps: every stage rewrites only what its pattern
  // matches and passes the rest through in order

  /** The removal works code point by code point. */
  lemma {:induction false} RemoveInvisibleAppend(a: string, b: string)
    ensures RemoveInvisible(a + b) == RemoveInvisible(a) + RemoveInvisible(b)
  {
    if a == [] {
      assert a + b == b;
    } else {
      assert (a + b)[0] == a[0] && (a + b)[1..] == a[1..] + b;
      RemoveInvisibleAppend(a[1..], b);
    }
  }

  /** Text without the five code points is kept as it is. */
  lemma {:induction false} RemoveInvisibleKeeps(s: string)
    requires forall i :: 0 <= i < |s| ==> !IsInvisible(s[i])
    ensures RemoveInvisible(s) == s
  {
    if s != [] {
      RemoveInvisibleKeeps(s[1..]);
      assert [s[0]] + s[1..] == s;
    }
  }

  /** Skipping a run of horizontal whitespace stops at the first other
      code point. */
  lemma {:induction false} SkipHorizontalRun(h: string, y: string)
    requires forall i :: 0 <= i < |h| ==> IsHorizontalSpace(h[i])
    requires y == [] || !IsHorizontalSpace(y[0])
    ensures SkipHorizontal(h + y) == y
  {
    if h == [] {
      assert h + y == y;
    } else {
      assert (h + y)[0] == h[0] && (h + y)[1..] == h[1..] + y;
      SkipHorizontalRun(h[1..], y);
    }
  }

  /** Skipping stops inside a text that ends with a code point other than
      horizontal whitespace. */
  lemma {:induction false} SkipHorizontalAppend(a: string, b: string)
    requires a != [] && !IsHorizontalSpace(a[|a| - 1])
    ensures SkipHorizontal(a + b) == SkipHorizontal(a) + b
    ensures SkipHorizontal(a) != [] && !IsHorizontalSpace(SkipHorizontal(a)[|SkipHorizontal(a)| - 1])
  {
    assert (a + b)[0] == a[0];
    if IsHorizontalSpace(a[0]) {
      assert (a + b)[1..] == a[1..] + b;
      SkipHorizontalAppend(a[1..], b);
    }
  }

  /** One step of the collapse at a horizontal run. */
  lemma CollapseHorizontalAtRun(s: string)
    requires s != [] && IsHorizontalSpace(s[0])
    ensures CollapseHorizontal(s) == " " + CollapseHorizontal(SkipHorizontal(s[1..]))
  {
  }

  /** One step of the collapse at any other code point. */
  lemma CollapseHorizontalAtOther(s: string)
    requires s != [] && !IsHorizontalSpace(s[0])
    ensures CollapseHorizontal(s) == [s[0]] + CollapseHorizontal(s[1..])
  {
  }

  /** The collapse works run by run: a cut after a code point that is not
      horizontal whitespace splits it in two. */
  lemma {:induction false} CollapseHorizontalAppend(x: string, y: string)
    requires x == [] || !IsHorizontalSpace(x[|x| - 1])
    ensures CollapseHorizontal(x + y) == CollapseHorizontal(x) + CollapseHorizontal(y)
    decreases |x|
  {
    var s := x + y;
    if x == [] {
      assert s == y;
    } else if IsHorizontalSpace(x[0]) {
      assert s[0] == x[0] && s[1..] == x[1..] + y;
      var t := SkipHorizontal(x[1..]);
      SkipHorizontalAppend(x[1..], y);
      CollapseHorizontalAtRun(s);
      CollapseHorizontalAtRun(x);
      CollapseHorizontalAppend(t, y);
      ConcatAssoc(" ", CollapseHorizontal(t), CollapseHorizontal(y));
    } else {
      assert s[0] == x[0] && s[1..] == x[1..] + y;
      CollapseHorizontalAtOther(s);
      CollapseHorizontalAtOther(x);
      CollapseHorizontalAppend(x[1..], y);
      ConcatAssoc([x[0]], CollapseHorizontal(x[1..]), CollapseHorizontal(y));
    }
  }

  /** A text that starts with a whole horizontal run collapses it to one
      space. */
  lemma CollapseHorizontalRunStart(h: string, y: string)
    requires h != [] && forall i :: 0 <= i < |h| ==> IsHorizontalSpace(h[i])
    requires y == [] || !IsHorizontalSpace(y[0])
    ensures CollapseHorizontal(h + y) == " " + CollapseHorizontal(y)
  {
    var s := h + y;
    assert s[0] == h[0] && s[1..] == h[1..] + y;
    SkipHorizontalRun(h[1..], y);
    CollapseHorizontalAtRun(s);
  }

  /** Each maximal run of horizontal whitespace becomes exactly one space,
      and the text on either side is collapsed on its own. */
  lemma CollapseHorizontalRun(x: string, h: string, y: string)
    requires x == [] || !IsHorizontalSpace(x[|x| - 1])
    requires h != [] && forall i :: 0 <= i < |h| ==> IsHorizontalSpace(h[i])
    requires y == [] || !IsHorizontalSpace(y[0])
    ensures CollapseHorizontal(x + h + y) == CollapseHorizontal(x) + " " + CollapseHorizontal(y)
  {
    ConcatAssoc(x, h, y);
    CollapseHorizontalAppend(x, h + y);
    CollapseHorizontalRunStart(h, y);
    ConcatAssoc(CollapseHorizontal(x), " ", CollapseHorizontal(y));
  }

  /** Text without horizontal whitespace is kept as it is. */
  lemma {:induction false} CollapseHorizontalKeeps(s: string)
    requires forall i :: 0 <= i < |s| ==> !IsHorizontalSpace(s[i])
    ensures CollapseHorizontal(s) == s
  {
    if s != [] {
      CollapseHorizontalKeeps(s[1..]);
      assert [s[0]] + s[1..] == s;
    }
  }

  /** Text whose only whitespace is line feeds keeps its lines as they are. */
  lemma TrimLinesKeeps(s: string)
    requires forall i :: 0 <= i < |s| ==> !IsBlank(s[i])
    ensures TrimLines(s) == s
  {
    var pieces := Split(s, '\n');
    forall k | 0 <= k < |pieces| ensures IsTrimmed(pieces[k]) {
      JoinHasPieceChars(pieces, "\n", k);
      assert forall c :: c in pieces[k] ==> c in s;
      if pieces[k] != [] {
        assert pieces[k][0] in s && pieces[k][|pieces[k]| - 1] in s;
      }
    }
    TrimEachTrimmed(pieces);
  }

  /** Text of one line has only that line trimmed. */
  lemma TrimLinesOneLine(s: string)
    requires '\n' !in s
    ensures TrimLines(s) == Trim(s)
  {
    SplitNoSep(s, '\n');
    assert TrimEach([s]) == [Trim(s)];
  }

  /** Skipping a run of line feeds stops at the first other code point. */
  lemma {:induction false} SkipNewlinesOfRun(n: string, y: string)
    requires forall i :: 0 <= i < |n| ==> n[i] == '\n'
    requires y == [] || y[0] != '\n'
    ensures SkipNewlines(n + y) == y
  {
    if n == [] {
      assert n + y == y;
    } else {
      assert (n + y)[0] == '\n' && (n + y)[1..] == n[1..] + y;
      SkipNewlinesOfRun(n[1..], y);
    }
  }

  /** Skipping stops inside a text that does not end with a line feed. */
  lemma {:induction false} SkipNewlinesAppend(a: string, b: string)
    requires a != [] && a[|a| - 1] != '\n'
    ensures SkipNewlines(a + b) == SkipNewlines(a) + b
    ensures SkipNewlines(a) != [] && SkipNewlines(a)[|SkipNewlines(a)| - 1] != '\n'
  {
    assert (a + b)[0] == a[0];
    if a[0] == '\n' {
      assert (a + b)[1..] == a[1..] + b;
      SkipNewlinesAppend(a[1..], b);
    }
  }

  /** One step of the blank-line collapse at a code point that does not
      start a run of three line feeds. */
  lemma CollapseBlankLinesAtOther(s: string)
    requires s != [] && !(|s| >= 3 && s[0] == '\n' && s[1] == '\n' && s[2] == '\n')
    ensures CollapseBlankLines(s) == [s[0]] + CollapseBlankLines(s[1..])
  {
  }

  /** The blank-line collapse works run by run: a cut after a code point
      other than a line feed splits it in two. */
  lemma {:induction false} CollapseBlankLinesAppend(x: string, y: string)
    requires x == [] || x[|x| - 1] != '\n'
    ensures CollapseBlankLines(x + y) == CollapseBlankLines(x) + CollapseBlankLines(y)
    decreases |x|
  {
    var s := x + y;
    if x == [] {
      assert s == y;
    } else if |x| >= 3 && x[0] == '\n' && x[1] == '\n' && x[2] == '\n' {
      assert s[0] == '\n' && s[1] == '\n' && s[2] == '\n' && s[3..] == x[3..] + y;
      var t := SkipNewlines(x[3..]);
      SkipNewlinesAppend(x[3..], y);
      CollapseBlankLinesRun(s);
      CollapseBlankLinesRun(x);
      CollapseBlankLinesAppend(t, y);
      ConcatAssoc("\n\n", CollapseBlankLines(t), CollapseBlankLines(y));
    } else {
      assert s[0] == x[0] && s[1..] == x[1..] + y;
      assert !(|s| >= 3 && s[0] == '\n' && s[1] == '\n' && s[2] == '\n') by {
        if |x| < 3 { assert s[|x| - 1] == x[|x| - 1]; }
        else { assert s[1] == x[1] && s[2] == x[2]; }
      }
      CollapseBlankLinesAtOther(s);
      CollapseBlankLinesAtOther(x);
      CollapseBlankLinesAppend(x[1..], y);
      ConcatAssoc([x[0]], CollapseBlankLines(x[1..]), CollapseBlankLines(y));
    }
  }

  /** A text that starts with a whole run of three or more line feeds
      collapses it to two. */
  lemma CollapseBlankLinesRunStart(n: string, y: string)
    requires |n| >= 3 && forall i :: 0 <= i < |n| ==> n[i] == '\n'
    requires y == [] || y[0] != '\n'
    ensures CollapseBlankLines(n + y) == "\n\n" + CollapseBlankLines(y)
  {
    var s := n + y;
    assert s[0] == '\n' && s[1] == '\n' && s[2] == '\n' && s[3..] == n[3..] + y;
    SkipNewlinesOfRun(n[3..], y);
    CollapseBlankLinesRun(s);
  }

  /** Each run of three or more line feeds becomes exactly two, and the
      text on either side is collapsed on its own. */
  lemma CollapseBlankLinesOfRun(x: string, n: string, y: string)
    requires x == [] || x[|x| - 1] != '\n'
    requires |n| >= 3 && forall i :: 0 <= i < |n| ==> n[i] == '\n'
    requires y == [] || y[0] != '\n'
    ensures CollapseBlankLines(x + n + y) == CollapseBlankLines(x) + "\n\n" + CollapseBlankLines(y)
  {
    ConcatAssoc(x, n, y);
    CollapseBlankLinesAppend(x, n + y);
    CollapseBlankLinesRunStart(n, y);
    ConcatAssoc(CollapseBlankLines(x), "\n\n", CollapseBlankLines(y));
  }

  /** Text without three adjacent line feeds is kept as it is. */
  lemma {:induction false} CollapseBlankLinesKeeps(s: string)
    requires NoTripleNewline(s)
    ensures CollapseBlankLines(s) == s
  {
    if s != [] {
      assert !(|s| >= 3 && s[0] == '\n' && s[1] == '\n' && s[2] == '\n');
      NoTripleSlice(s, 1, |s|);
      CollapseBlankLinesKeeps(s[1..]);
      assert [s[0]] + s[1..] == s;
    }
  }

  /** The cleanup's text, given what each stage leaves. */
  lemma CleanupStages(nfc: string -> string, input: string, t1: string, t2: string, t3: string, t4: string, t5: string)
    requires RemoveInvisible(nfc(input)) == t1 && CollapseHorizontal(t1) == t2 && ToLf(t2) == t3
    requires TrimLines(t3) == t4 && CollapseBlankLines(t4) == t5
    ensures NormalizeWhitespaceAndNfc(nfc, input).text == Trim(t5)
  {
    CleanupPassesSteps(nfc(input));
  }

  /** Two runs of horizontal whitespace between three visible code points
      each become one space; nothing there is an invisible. */
  lemma TwoRunsCollapsed(s: string, a: char, h1: string, b: char, h2: string, c: char)
    requires IsVisible(a) && IsVisible(b) && IsVisible(c)
    requires h1 != [] && forall i :: 0 <= i < |h1| ==> IsHorizontalSpace(h1[i])
    requires h2 != [] && forall i :: 0 <= i < |h2| ==> IsHorizontalSpace(h2[i])
    requires s == [a] + h1 + [b] + h2 + [c]
    ensures RemoveInvisible(s) == s
    ensures CollapseHorizontal(s) == [a, ' ', b, ' ', c]
  {
    var rest := [b] + h2 + [c];
    assert s == [a] + h1 + rest;
    assert [a, ' ', b, ' ', c] == [a] + " " + ([b] + " " + [c]);
    assert RemoveInvisible(s) == s by {
      forall i | 0 <= i < |s| ensures !IsInvisible(s[i]) {
        if i == 0 { } else if i <= |h1| { assert s[i] == h1[i - 1]; } else { assert s[i] == rest[i - 1 - |h1|]; }
      }
      RemoveInvisibleKeeps(s);
    }
    CollapseHorizontalKeeps([a]);
    CollapseHorizontalKeeps([b]);
    CollapseHorizontalKeeps([c]);
    CollapseHorizontalRun([b], h2, [c]);
    CollapseHorizontalRun([a], h1, rest);
  }

  /** Input that stays one trimmed line after the whitespace collapse is
      cleaned to that line. */
  lemma CleanupOfOneLine(nfc: string -> string, input: string, t2: string)
    requires nfc(input) == input && RemoveInvisible(input) == input && CollapseHorizontal(input) == t2
    requires '\r' !in t2 && '\n' !in t2 && IsTrimmed(t2)
    ensures NormalizeWhitespaceAndNfc(nfc, input).text == t2
  {
    ToLfNoCr(t2);
    TrimLinesOneLine(t2);
    TrimTrimmed(t2);
    CollapseBlankLinesKeeps(t2);
    CleanupStages(nfc, input, input, t2, t2, t2, t2);
  }

  /** Two runs of horizontal whitespace between three visible code points
      each become one space. */
  lemma CollapseSpacesBetween(nfc: string -> string, s: string, a: char, h1: string, b: char, h2: string, c: char)
    requires IsVisible(a) && IsVisible(b) && IsVisible(c)
    requires h1 != [] && forall i :: 0 <= i < |h1| ==> IsHorizontalSpace(h1[i])
    requires h2 != [] && forall i :: 0 <= i < |h2| ==> IsHorizontalSpace(h2[i])
    requires s == [a] + h1 + [b] + h2 + [c] && nfc(s) == s
    ensures NormalizeWhitespaceAndNfc(nfc, s).text == [a, ' ', b, ' ', c]
  {
    var line := [a, ' ', b, ' ', c];
    assert '\r' !in line && '\n' !in line && IsTrimmed(line);
    TwoRunsCollapsed(s, a, h1, b, h2, c);
    CleanupOfOneLine(nfc, s, line);
  }

  /** Visible code points and line feeds are none of invisible, horizontal
      whitespace, carriage return or blank. */
  lemma VisibleOrLineFeed(s: string)
    requires forall i :: 0 <= i < |s| ==> IsVisible(s[i]) || s[i] == '\n'
    ensures forall i :: 0 <= i < |s| ==> !IsInvisible(s[i]) && !IsHorizontalSpace(s[i]) && !IsBlank(s[i])
    ensures '\r' !in s
  {
  }

  /** Input of visible code points and line feeds only is touched by the
      blank-line collapse and the final trim alone. */
  lemma CleanupOfLines(nfc: string -> string, input: string, t5: string)
    requires nfc(input) == input
    requires forall i :: 0 <= i < |input| ==> IsVisible(input[i]) || input[i] == '\n'
    requires CollapseBlankLines(input) == t5
    ensures NormalizeWhitespaceAndNfc(nfc, input).text == Trim(t5)
  {
    VisibleOrLineFeed(input);
    RemoveInvisibleKeeps(input);
    CollapseHorizontalKeeps(input);
    ToLfNoCr(input);
    TrimLinesKeeps(input);
    CleanupStages(nfc, input, input, input, input, input, t5);
  }

  /** A run of three or more line feeds between two visible code points
      becomes one blank line. */
  lemma BlankLinesBetween(nfc: string -> string, s: string, x: char, n: string, y: char)
    requires IsVisible(x) && IsVisible(y)
    requires |n| >= 3 && forall i :: 0 <= i < |n| ==> n[i] == '\n'
    requires s == [x] + n + [y] && nfc(s) == s
    ensures NormalizeWhitespaceAndNfc(nfc, s).text == [x, '\n', '\n', y]
  {
    var t5 := [x, '\n', '\n', y];
    assert t5 == [x] + "\n\n" + [y];
    forall i | 0 <= i < |s| ensures IsVisible(s[i]) || s[i] == '\n' {
      if 0 < i <= |n| { assert s[i] == n[i - 1]; }
    }
    CollapseBlankLinesKeeps([x]);
    CollapseBlankLinesKeeps([y]);
    CollapseBlankLinesOfRun([x], n, [y]);
    TrimTrimmed(t5);
    CleanupOfLines(nfc, s, t5);
  }

  /** Tabs and a run of spaces between words each become one space, and
      the change is reported. */
  lemma CollapseSpacesExample(nfc: string -> string)
    requires nfc("a\t\tb   c") == "a\t\tb   c"
    ensures NormalizeWhitespaceAndNfc(nfc, "a\t\tb   c") == Cleaned("a b c", true)
  {
    assert "a\t\tb   c" == ['a'] + "\t\t" + ['b'] + "   " + ['c'];
    CollapseSpacesBetween(nfc, "a\t\tb   c", 'a', "\t\t", 'b', "   ", 'c');
  }

  /** Four blank lines between two lines become one, and the change is
      reported. */
  lemma BlankLinesExample(nfc: string -> string)
    requires nfc("x\n\n\n\n\ny") == "x\n\n\n\n\ny"
    ensures NormalizeWhitespaceAndNfc(nfc, "x\n\n\n\n\ny") == Cleaned("x\n\ny", true)
  {
    assert "x\n\n\n\n\ny" == ['x'] + "\n\n\n\n\n" + ['y'];
    BlankLinesBetween(nfc, "x\n\n\n\n\ny", 'x', "\n\n\n\n\n", 'y');
  }
}
