/** Models of the JavaScript string built-ins that the core relies on:
    `trim`, `split` on a one-character separator, `join`, and the
    `.replace(/\r\n/g, "\n").replace(/\r/g, "\n")` line-ending chain.
    A string is a sequence of Unicode code points. */
module JsString {

  /** The code points `String.prototype.trim` removes: ECMAScript
      WhiteSpace (TAB, VT, FF, ZWNBSP and the Space_Separator category)
      and LineTerminator (LF, CR, LS, PS). */
  predicate IsWhiteSpace(c: char) {
    || c == '\t' || c == '\n' || c == '\U{000B}' || c == '\U{000C}' || c == '\r'
    || c == ' ' || c == '\U{00A0}' || c == '\U{1680}'
    || ('\U{2000}' <= c <= '\U{200A}')
    || c == '\U{2028}' || c == '\U{2029}' || c == '\U{202F}' || c == '\U{205F}'
    || c == '\U{3000}' || c == '\U{FEFF}'
  }

  predicate AllWhiteSpace(s: string) {
    forall i :: 0 <= i < |s| ==> IsWhiteSpace(s[i])
  }

  /** Neither end of `s` is whitespace. */
  predicate IsTrimmed(s: string) {
    s == [] || (!IsWhiteSpace(s[0]) && !IsWhiteSpace(s[|s| - 1]))
  }

  /** The number of whitespace code points `s` starts with. */
  function LeadingWhiteSpace(s: string): (n: nat)
    ensures n <= |s| && AllWhiteSpace(s[..n])
    ensures n < |s| ==> !IsWhiteSpace(s[n])
  {
    if s == [] || !IsWhiteSpace(s[0]) then 0
    else
      var n := LeadingWhiteSpace(s[1..]);
      assert s[..n + 1] == [s[0]] + s[1..][..n];
      n + 1
  }
  /** The number of whitespace code points `s` ends with. */
  function TrailingWhiteSpace(s: string): (n: nat)
    ensures n <= |s| && AllWhiteSpace(s[|s| - n..])
    ensures n < |s| ==> !IsWhiteSpace(s[|s| - n - 1])
  {
    if s == [] || !IsWhiteSpace(s[|s| - 1]) then 0
    else
      var t := s[..|s| - 1];
      var n := TrailingWhiteSpace(t);
      assert forall i :: |s| - 1 - n <= i < |s| - 1 ==> s[i] == t[i];
      n + 1
  }
  /** `s.trim()`: the slice of `s` between its leading and trailing
      whitespace. */
  function Trim(s: string): (r: string)
    ensures IsTrimmed(r)
    ensures var a := LeadingWhiteSpace(s);
      && a + |r| <= |s| && r == s[a..a + |r|]
      && AllWhiteSpace(s[..a]) && AllWhiteSpace(s[a + |r|..])
  {
    var a := LeadingWhiteSpace(s);
    var t := s[a..];
    var b := TrailingWhiteSpace(t);
    var r := t[..|t| - b];
    assert r == s[a..a + |r|];
    assert t[|t| - b..] == s[a + |r|..];
    assert r != [] ==> r[0] == s[a] && r[|r| - 1] == t[|t| - b - 1];
    r
  }

  /** Trimming leaves nothing exactly when the text is all whitespace. */
  lemma TrimEmpty(s: string)
    ensures Trim(s) == [] <==> AllWhiteSpace(s)
  {
    var a := LeadingWhiteSpace(s);
    if a == |s| {
      assert s[..a] == s;
    } else {
      assert !IsWhiteSpace(s[a]);
    }
  }

  /** Trimming text that is already trimmed changes nothing. */
  lemma TrimTrimmed(s: string)
    requires IsTrimmed(s)
    ensures Trim(s) == s
  {
  }

  /** Whitespace in front adds to the leading count. */
  lemma {:induction false} LeadingWhiteSpacePadded(w: string, u: string)
    requires AllWhiteSpace(w)
    ensures LeadingWhiteSpace(w + u) == |w| + LeadingWhiteSpace(u)
    decreases |w|
  {
    if w != [] {
      assert (w + u)[0] == w[0];
      assert (w + u)[1..] == w[1..] + u;
      LeadingWhiteSpacePadded(w[1..], u);
    } else {
      assert w + u == u;
    }
  }

  /** Whitespace behind adds to the trailing count. */
  lemma {:induction false} TrailingWhiteSpacePadded(u: string, w: string)
    requires AllWhiteSpace(w)
    ensures TrailingWhiteSpace(u + w) == |w| + TrailingWhiteSpace(u)
    decreases |w|
  {
    if w != [] {
      assert (u + w)[|u + w| - 1] == w[|w| - 1];
      assert (u + w)[..|u + w| - 1] == u + w[..|w| - 1];
      TrailingWhiteSpacePadded(u, w[..|w| - 1]);
    } else {
      assert u + w == u;
    }
  }

  /** Trimming drops exactly the whitespace around a trimmed, non-empty
      text. */
  lemma TrimPadded(w1: string, t: string, w2: string)
    requires AllWhiteSpace(w1) && AllWhiteSpace(w2) && t != [] && IsTrimmed(t)
    ensures Trim(w1 + t + w2) == t
  {
    var s := w1 + t + w2;
    assert s == w1 + (t + w2);
    LeadingWhiteSpacePadded(w1, t + w2);
    assert LeadingWhiteSpace(t + w2) == 0 by {
      assert (t + w2)[0] == t[0];
    }
    assert s[|w1|..] == t + w2;
    TrailingWhiteSpacePadded(t, w2);
    assert TrailingWhiteSpace(t) == 0;
    assert (t + w2)[..|t|] == t;
  }

  /** Trimming only removes code points. */
  lemma TrimInside(s: string, c: char)
    requires c !in s
    ensures c !in Trim(s)
  {
    var a := LeadingWhiteSpace(s);
    var t := Trim(s);
    assert t == s[a..a + |t|];
  }

  /** `ls.map((x) => x.trim())` */
  function TrimEach(ls: seq<string>): (r: seq<string>)
    ensures |r| == |ls|
    ensures forall k :: 0 <= k < |ls| ==> r[k] == Trim(ls[k])
  {
    if ls == [] then [] else [Trim(ls[0])] + TrimEach(ls[1..])
  }

  /** `ls.join(sep)` */
  function Join(ls: seq<string>, sep: string): string {
    if |ls| == 0 then []
    else if |ls| == 1 then ls[0]
    else ls[0] + sep + Join(ls[1..], sep)
  }

  /** `s.split(sep)` for a one-character separator: the maximal pieces
      of `s` between separators, which joined again with `sep` give `s`. */
  function Split(s: string, sep: char): (r: seq<string>)
    ensures |r| >= 1
    ensures forall k :: 0 <= k < |r| ==> sep !in r[k]
    ensures Join(r, [sep]) == s
  {
    if s == [] then [[]]
    else if s[0] == sep then
      var t := Split(s[1..], sep);
      assert Join([[]] + t, [sep]) == [sep] + Join(t, [sep]);
      [[]] + t
    else
      var t := Split(s[1..], sep);
      var r := [[s[0]] + t[0]] + t[1..];
      assert Join(r, [sep]) == [s[0]] + Join(t, [sep]) by {
        if |t| > 1 { assert r[1..] == t[1..]; }
      }
      r
  }

  /** Splitting a string without separators gives it back as one piece. */
  lemma {:induction false} SplitNoSep(s: string, sep: char)
    requires sep !in s
    ensures Split(s, sep) == [s]
  {
    if s != [] {
      SplitNoSep(s[1..], sep);
    }
  }

  /** Splitting `x + sep + y` where `x` has no separator: `x` comes first. */
  lemma {:induction false} SplitAfterPiece(x: string, y: string, sep: char)
    requires sep !in x
    ensures Split(x + [sep] + y, sep) == [x] + Split(y, sep)
  {
    if x == [] {
      assert x + [sep] + y == [sep] + y;
      assert ([sep] + y)[1..] == y;
    } else {
      var w := x + [sep] + y;
      assert w[0] == x[0] && w[1..] == x[1..] + [sep] + y;
      SplitAfterPiece(x[1..], y, sep);
      assert [x[0]] + x[1..] == x;
    }
  }

  /** `split` undoes `join` when no piece contains the separator. */
  lemma {:induction false} SplitJoin(ls: seq<string>, sep: char)
    requires |ls| >= 1
    requires forall k :: 0 <= k < |ls| ==> sep !in ls[k]
    ensures Split(Join(ls, [sep]), sep) == ls
  {
    if |ls| == 1 {
      SplitNoSep(ls[0], sep);
    } else {
      SplitJoin(ls[1..], sep);
      SplitAfterPiece(ls[0], Join(ls[1..], [sep]), sep);
      assert ls[0] + [sep] + Join(ls[1..], [sep]) == Join(ls, [sep]);
      assert [ls[0]] + ls[1..] == ls;
    }
  }

  /** `.replace(/\r\n/g, "\n")` */
  function ReplaceCrLf(s: string): (r: string)
    ensures |s| > 0 ==> |r| > 0 && (r[0] == ' ' <==> s[0] == ' ')
    ensures forall c :: c in r ==> c in s
  {
    if |s| >= 2 && s[0] == '\r' && s[1] == '\n' then "\n" + ReplaceCrLf(s[2..])
    else if s == [] then []
    else [s[0]] + ReplaceCrLf(s[1..])
  }

  /** `.replace(/\r/g, "\n")` */
  function ReplaceCr(s: string): (r: string)
    ensures |r| == |s|
    ensures forall i :: 0 <= i < |s| ==> r[i] == if s[i] == '\r' then '\n' else s[i]
  {
    seq(|s|, i requires 0 <= i < |s| => if s[i] == '\r' then '\n' else s[i])
  }

  /** CRLF and lone CR both become LF; nothing else changes. */
  function ToLf(s: string): (r: string)
    ensures '\r' !in r
    ensures forall c :: c in r ==> c == '\n' || c in s
  {
    ReplaceCr(ReplaceCrLf(s))
  }

  /** Text without carriage returns keeps its line endings. */
  lemma {:induction false} ToLfNoCr(s: string)
    requires '\r' !in s
    ensures ToLf(s) == s
  {
    ReplaceCrLfNoCr(s);
  }

  lemma {:induction false} ReplaceCrLfNoCr(s: string)
    requires '\r' !in s
    ensures ReplaceCrLf(s) == s
  {
    if s != [] {
      assert s[0] in s;
      ReplaceCrLfNoCr(s[1..]);
      assert [s[0]] + s[1..] == s;
    }
  }

  /** Concatenation regroups freely. */
  lemma ConcatAssoc(a: string, b: string, c: string)
    ensures a + (b + c) == a + b + c
  {
  }

  /** The CRLF replace works pair by pair: a cut anywhere except between
      the CR and the LF of a pair splits it in two. */
  lemma {:induction false} ReplaceCrLfAppend(x: string, y: string)
    requires !(x != [] && x[|x| - 1] == '\r' && y != [] && y[0] == '\n')
    ensures ReplaceCrLf(x + y) == ReplaceCrLf(x) + ReplaceCrLf(y)
    decreases |x|
  {
    var s := x + y;
    if x == [] {
      assert s == y;
    } else if |x| >= 2 && x[0] == '\r' && x[1] == '\n' {
      assert s[0] == '\r' && s[1] == '\n' && s[2..] == x[2..] + y;
      assert ReplaceCrLf(s) == "\n" + ReplaceCrLf(s[2..]);
      assert ReplaceCrLf(x) == "\n" + ReplaceCrLf(x[2..]);
      ReplaceCrLfAppend(x[2..], y);
      ConcatAssoc("\n", ReplaceCrLf(x[2..]), ReplaceCrLf(y));
    } else {
      assert s[0] == x[0] && s[1..] == x[1..] + y;
      assert !(|s| >= 2 && s[0] == '\r' && s[1] == '\n') by {
        if |x| == 1 { assert s[1..] == y; }
        else { assert s[1] == x[1]; }
      }
      assert ReplaceCrLf(s) == [s[0]] + ReplaceCrLf(s[1..]);
      assert ReplaceCrLf(x) == [x[0]] + ReplaceCrLf(x[1..]);
      ReplaceCrLfAppend(x[1..], y);
      ConcatAssoc([x[0]], ReplaceCrLf(x[1..]), ReplaceCrLf(y));
    }
  }

  lemma ReplaceCrAppend(x: string, y: string)
    ensures ReplaceCr(x + y) == ReplaceCr(x) + ReplaceCr(y)
  {
  }

  /** The line-ending chain works piece by piece, as long as the cut does
      not fall inside a CRLF. */
  lemma ToLfAppend(x: string, y: string)
    requires !(x != [] && x[|x| - 1] == '\r' && y != [] && y[0] == '\n')
    ensures ToLf(x + y) == ToLf(x) + ToLf(y)
  {
    ReplaceCrLfAppend(x, y);
    ReplaceCrAppend(ReplaceCrLf(x), ReplaceCrLf(y));
  }

  /** Each CRLF becomes one LF; the text on either side is kept as the
      chain leaves it on its own. */
  lemma ToLfCrLf(x: string, y: string)
    ensures ToLf(x + "\r\n" + y) == ToLf(x) + "\n" + ToLf(y)
  {
    assert x + "\r\n" + y == x + ("\r\n" + y);
    ToLfAppend(x, "\r\n" + y);
    ToLfAppend("\r\n", y);
    assert ReplaceCrLf("\r\n") == "\n" + ReplaceCrLf([]);
  }

  /** A CR that is not followed by LF becomes one LF. */
  lemma ToLfCr(x: string, y: string)
    requires y == [] || y[0] != '\n'
    ensures ToLf(x + "\r" + y) == ToLf(x) + "\n" + ToLf(y)
  {
    var cr: string := "\r";
    assert ReplaceCrLf(cr) == cr by {
      assert ReplaceCrLf(cr) == [cr[0]] + ReplaceCrLf(cr[1..]);
      assert cr[1..] == [];
    }
    assert ToLf(cr) == "\n";
    ConcatAssoc(x, cr, y);
    ToLfAppend(x, cr + y);
    ToLfAppend(cr, y);
    ConcatAssoc(ToLf(x), ToLf(cr), ToLf(y));
  }

  /** Joining two non-empty lists puts one separator between their joins. */
  lemma {:induction false} JoinAppend(p: seq<string>, q: seq<string>, sep: string)
    requires |p| >= 1 && |q| >= 1
    ensures Join(p + q, sep) == Join(p, sep) + sep + Join(q, sep)
    decreases |p|
  {
    assert (p + q)[0] == p[0] && (p + q)[1..] == p[1..] + q;
    if |p| > 1 {
      JoinAppend(p[1..], q, sep);
    } else {
      assert p[1..] + q == q;
    }
  }

  /** Two lists of pieces without the separator split back from their
      join. */
  lemma SplitJoinAppend(pa: seq<string>, pb: seq<string>, sep: char)
    requires |pa| >= 1 && forall k :: 0 <= k < |pa| ==> sep !in pa[k]
    requires |pb| >= 1 && forall k :: 0 <= k < |pb| ==> sep !in pb[k]
    ensures Split(Join(pa, [sep]) + [sep] + Join(pb, [sep]), sep) == pa + pb
  {
    var ps := pa + pb;
    forall k | 0 <= k < |ps| ensures sep !in ps[k] {
      if k < |pa| { assert ps[k] == pa[k]; } else { assert ps[k] == pb[k - |pa|]; }
    }
    JoinAppend(pa, pb, [sep]);
    SplitJoin(ps, sep);
  }

  /** `split` works separator by separator: the pieces of `a + sep + b`
      are those of `a` followed by those of `b`. */
  lemma SplitAppend(a: string, b: string, sep: char)
    ensures Split(a + [sep] + b, sep) == Split(a, sep) + Split(b, sep)
  {
    SplitJoinAppend(Split(a, sep), Split(b, sep), sep);
  }

  /** Mapping `trim` works element by element. */
  lemma {:induction false} TrimEachAppend(a: seq<string>, b: seq<string>)
    ensures TrimEach(a + b) == TrimEach(a) + TrimEach(b)
    decreases |a|
  {
    if a == [] {
      assert a + b == b;
    } else {
      assert (a + b)[0] == a[0] && (a + b)[1..] == a[1..] + b;
      TrimEachAppend(a[1..], b);
    }
  }

  lemma {:induction false} TrimEachTrimmed(ls: seq<string>)
    requires forall k :: 0 <= k < |ls| ==> IsTrimmed(ls[k])
    ensures TrimEach(ls) == ls
  {
    forall k | 0 <= k < |ls| ensures TrimEach(ls)[k] == ls[k] {
      TrimTrimmed(ls[k]);
    }
  }

  /** Joining one more piece. */
  lemma {:induction false} JoinSnoc(ls: seq<string>, x: string, sep: string)
    requires |ls| >= 1
    ensures Join(ls + [x], sep) == Join(ls, sep) + sep + x
  {
    if |ls| > 1 {
      assert (ls + [x])[1..] == ls[1..] + [x];
      JoinSnoc(ls[1..], x, sep);
    }
  }

  /** Every code point of a joined text comes from the separator or from a piece. */
  lemma {:induction false} JoinChars(ls: seq<string>, sep: string, c: char)
    requires c in Join(ls, sep)
    ensures c in sep || exists k :: 0 <= k < |ls| && c in ls[k]
  {
    if |ls| > 1 {
      var rest := Join(ls[1..], sep);
      assert Join(ls, sep) == ls[0] + sep + rest;
      if c !in ls[0] && c !in sep {
        assert c in rest;
        JoinChars(ls[1..], sep, c);
        var k :| 0 <= k < |ls[1..]| && c in ls[1..][k];
        assert c in ls[k + 1];
      }
    }
  }

  /** Every code point of a piece is in the joined text. */
  lemma {:induction false} JoinHasPieceChars(ls: seq<string>, sep: string, k: nat)
    requires k < |ls|
    ensures forall c :: c in ls[k] ==> c in Join(ls, sep)
  {
    if |ls| > 1 {
      var rest := Join(ls[1..], sep);
      assert Join(ls, sep) == ls[0] + sep + rest;
      if k > 0 {
        JoinHasPieceChars(ls[1..], sep, k - 1);
        assert ls[1..][k - 1] == ls[k];
      }
    }
  }
}
