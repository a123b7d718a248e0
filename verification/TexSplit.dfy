/**
 * Line breaking of TeX source as splitMathAtTopLevel in public/js/katex-render.js does it: cut
 * after `=`, `+` and `,` and before a minus, outside braces, leaving escape pairs alone.
 */
module TexSplit {
  import opened Common

  /** A UTF-16 code unit. */
  type Unit = x: int | 0 <= x < 0x1_0000

  type Text = seq<Unit>

  const BACKSLASH: Unit := 0x5C
  const OPEN: Unit := 0x7B
  const CLOSE: Unit := 0x7D

  /** `=`, `+` and `,` */
  predicate BreaksAfter(c: Unit) { c == 0x3D || c == 0x2B || c == 0x2C }

  /** The hyphen and the minus sign. */
  predicate BreaksBefore(c: Unit) { c == 0x2D || c == 0x2212 }

  /** White space and line ends, as String.prototype.trim strips them. */
  predicate IsSpace(c: Unit) {
    || 9 <= c <= 13 || c == 0x20 || c == 0xA0 || c == 0x1680 || 0x2000 <= c <= 0x200A
    || c == 0x2028 || c == 0x2029 || c == 0x202F || c == 0x205F || c == 0x3000 || c == 0xFEFF
  }

  // ----- where the cuts are -----

  /** Unit i is the second of an escape pair. */
  predicate Escaped(s: Text, i: nat)
    requires i <= |s|
  {
    i > 0 && s[i - 1] == BACKSLASH && !Escaped(s, i - 1)
  }

  /** What unit i adds to the brace level. */
  function Brace(s: Text, i: nat): (r: int)
    requires i < |s|
  {
    if Escaped(s, i) then 0 else if s[i] == OPEN then 1 else if s[i] == CLOSE then -1 else 0
  }

  /** The code's level before unit i: it never falls below zero. */
  function Depth(s: Text, i: nat): (r: nat)
    requires i <= |s|
  {
    if i == 0 then 0
    else
      var d := Depth(s, i - 1) + Brace(s, i - 1);
      if d < 0 then 0 else d
  }

  predicate After(s: Text, i: nat)
    requires i <= |s|
  {
    i > 0 && BreaksAfter(s[i - 1]) && !Escaped(s, i - 1) && Depth(s, i - 1) == 0
  }

  predicate Before(s: Text, i: nat)
    requires i <= |s|
  {
    0 < i < |s| && BreaksBefore(s[i]) && !Escaped(s, i) && Depth(s, i) == 0
  }

  predicate IsCut(s: Text, i: nat)
    requires i <= |s|
  {
    After(s, i) || Before(s, i)
  }

  /** Cuts lie outside braces and never inside an escape pair. */
  lemma CutsAtTopLevel(s: Text, i: nat)
    requires i <= |s| && IsCut(s, i)
    ensures 0 < i && Depth(s, i) == 0 && !Escaped(s, i)
  {
  }

  // ----- the backslash rule -----

  /** How many backslashes stand right before position i. */
  function Slashes(s: Text, i: nat): (r: nat)
    requires i <= |s|
  {
    if i > 0 && s[i - 1] == BACKSLASH then 1 + Slashes(s, i - 1) else 0
  }

  lemma {:induction false} EscapedIffOddSlashes(s: Text, i: nat)
    requires i <= |s|
    ensures Escaped(s, i) <==> Slashes(s, i) % 2 == 1
  {
    if i > 0 {
      EscapedIffOddSlashes(s, i - 1);
    }
  }

  /** A backslash run, the braces, and the cuts, in characters. */
  lemma InCharacters(s: Text, i: nat)
    requires i <= |s|
    ensures Slashes(s, i) == if i > 0 && s[i - 1] == 92 then 1 + Slashes(s, i - 1) else 0
    ensures i < |s| ==>
      Brace(s, i) == (if Slashes(s, i) % 2 == 1 then 0 else if s[i] == 123 then 1 else if s[i] == 125 then -1 else 0)
    ensures IsCut(s, i) <==>
      || (i > 0 && (s[i - 1] == 61 || s[i - 1] == 43 || s[i - 1] == 44)
          && Slashes(s, i - 1) % 2 == 0 && Depth(s, i - 1) == 0)
      || (0 < i < |s| && (s[i] == 45 || s[i] == 8722) && Slashes(s, i) % 2 == 0 && Depth(s, i) == 0)
  {
    hide Depth;
    EscapedIffOddSlashes(s, i);
    if i > 0 {
      EscapedIffOddSlashes(s, i - 1);
    }
  }

  /** An escaped backslash followed by a minus: the cut comes right after a backslash. */
  lemma CutAfterBackslash()
    ensures var s := [BACKSLASH, BACKSLASH, 0x2D]; IsCut(s, 2) && s[2 - 1] == BACKSLASH
  {
    var s: Text := [BACKSLASH, BACKSLASH, 0x2D];
    assert !Escaped(s, 0) && Escaped(s, 1) && !Escaped(s, 2);
    assert Depth(s, 0) == 0 && Depth(s, 1) == 0;
  }

  /** A cut falls right after a backslash only there: before a minus after a pair of backslashes. */
  lemma CutFollowsBackslashIff(s: Text, i: nat)
    requires 0 < i <= |s|
    ensures (IsCut(s, i) && s[i - 1] == BACKSLASH)
       <==> (i < |s| && BreaksBefore(s[i]) && Depth(s, i) == 0 && Slashes(s, i) > 0 && Slashes(s, i) % 2 == 0)
  {
    EscapedIffOddSlashes(s, i);
  }

  // ----- the pieces -----

  /** The last cut before position i, or the start. */
  function Last(s: Text, i: nat): (k: nat)
    requires i <= |s| + 1
    ensures k <= |s| && (i > 0 ==> k < i) && (k > 0 ==> k < i && IsCut(s, k))
    ensures forall j: nat :: k < j < i ==> !IsCut(s, j)
  {
    if i <= 1 then 0 else if IsCut(s, i - 1) then i - 1 else Last(s, i - 1)
  }

  /** The pieces that end at a cut before position i. */
  function Done(s: Text, i: nat): (r: seq<Text>)
    requires i <= |s| + 1
  {
    if i <= 1 then []
    else if IsCut(s, i - 1) then Done(s, i - 1) + [s[Last(s, i - 1)..i - 1]]
    else Done(s, i - 1)
  }

  function Pieces(s: Text): (r: seq<Text>) {
    Done(s, |s| + 1) + [s[Last(s, |s| + 1)..]]
  }

  lemma {:induction false} DoneConcat(s: Text, i: nat)
    requires i <= |s| + 1
    ensures Concat(Done(s, i)) == s[..Last(s, i)]
  {
    if i > 1 {
      DoneConcat(s, i - 1);
      if IsCut(s, i - 1) {
        ConcatPush(Done(s, i - 1), s[Last(s, i - 1)..i - 1]);
      }
    }
  }

  /** Nothing is lost: the pieces, before trimming, spell the source. */
  lemma PiecesConcat(s: Text)
    ensures Concat(Pieces(s)) == s
  {
    var k := Last(s, |s| + 1);
    DoneConcat(s, |s| + 1);
    ConcatPush(Done(s, |s| + 1), s[k..]);
    assert s[..k] + s[k..] == s;
  }

  /** A stretch from one cut, or the start, to the next cut, or the end. */
  predicate Stretch(s: Text, a: nat, b: nat) {
    && a <= b <= |s|
    && (a == 0 || IsCut(s, a))
    && (b == |s| || IsCut(s, b))
    && forall j: nat :: a < j < b ==> !IsCut(s, j)
  }

  lemma {:induction false} DoneAreStretches(s: Text, i: nat, p: Text)
    requires i <= |s| + 1 && p in Done(s, i)
    ensures exists a: nat, b: nat :: Stretch(s, a, b) && p == s[a..b]
  {
    hide IsCut;
    if p in Done(s, i - 1) {
      DoneAreStretches(s, i - 1, p);
    } else {
      assert Stretch(s, Last(s, i - 1), i - 1);
    }
  }

  /** Every piece runs from cut to cut, with no cut missed between. */
  lemma PiecesAreStretches(s: Text, p: Text)
    requires p in Pieces(s)
    ensures exists a: nat, b: nat :: Stretch(s, a, b) && p == s[a..b]
  {
    hide IsCut;
    if p in Done(s, |s| + 1) {
      DoneAreStretches(s, |s| + 1, p);
    } else {
      var k := Last(s, |s| + 1);
      assert Stretch(s, k, |s|) && p == s[k..|s|];
    }
  }

  // ----- a piece read on its own -----

  lemma {:induction false} EscapedWithin(s: Text, a: nat, b: nat, k: nat)
    requires a <= b <= |s| && a + k <= b && !Escaped(s, a)
    ensures Escaped(s[a..b], k) == Escaped(s, a + k)
  {
    if k > 0 {
      EscapedWithin(s, a, b, k - 1);
    }
  }

  lemma {:induction false} DepthWithin(s: Text, a: nat, b: nat, k: nat)
    requires a <= b <= |s| && a + k <= b && !Escaped(s, a) && Depth(s, a) == 0
    ensures Depth(s[a..b], k) == Depth(s, a + k)
  {
    if k > 0 {
      DepthWithin(s, a, b, k - 1);
      EscapedWithin(s, a, b, k - 1);
    }
  }

  /** A piece has no cut inside it when it is split again. */
  lemma PiecesAreAtomic(s: Text, p: Text, k: nat)
    requires p in Pieces(s) && 0 < k < |p|
    ensures !IsCut(p, k)
  {
    hide Escaped, Depth;
    PiecesAreStretches(s, p);
    var a: nat, b: nat :| Stretch(s, a, b) && p == s[a..b];
    StartOfStretch(s, a, b);
    EscapedWithin(s, a, b, k);
    EscapedWithin(s, a, b, k - 1);
    DepthWithin(s, a, b, k);
    DepthWithin(s, a, b, k - 1);
    assert !IsCut(s, a + k);
  }

  lemma StartOfStretch(s: Text, a: nat, b: nat)
    requires Stretch(s, a, b)
    ensures !Escaped(s, a) && Depth(s, a) == 0
  {
    if a > 0 {
      CutsAtTopLevel(s, a);
    }
  }

  // ----- balance -----

  /** The true brace level before unit i; unlike the code's it may go below zero. */
  function Height(s: Text, i: nat): (r: int)
    requires i <= |s|
  {
    if i == 0 then 0 else Height(s, i - 1) + Brace(s, i - 1)
  }

  predicate Balanced(s: Text) {
    Height(s, |s|) == 0 && forall i: nat :: i <= |s| ==> Height(s, i) >= 0
  }

  lemma {:induction false} HeightWithin(s: Text, a: nat, b: nat, k: nat)
    requires a <= b <= |s| && a + k <= b && !Escaped(s, a)
    ensures Height(s[a..b], k) == Height(s, a + k) - Height(s, a)
  {
    if k > 0 {
      HeightWithin(s, a, b, k - 1);
      EscapedWithin(s, a, b, k - 1);
    }
  }

  /** Clamping hides only deficits. */
  lemma {:induction false} DepthIsHeight(s: Text, i: nat)
    requires i <= |s| && forall j: nat :: j <= i ==> Height(s, j) >= 0
    ensures Depth(s, i) == Height(s, i)
  {
    if i > 0 {
      DepthIsHeight(s, i - 1);
      assert Height(s, i) >= 0;
    }
  }

  /** Balanced text may be put together and, at its own level zero, taken apart. */
  lemma BalancedAppend(s: Text, a: nat)
    requires a <= |s| && !Escaped(s, a) && Balanced(s[..a])
    ensures Balanced(s) <==> Balanced(s[a..])
  {
    hide Height, Escaped;
    var p, q := s[..a], s[a..];
    assert !Escaped(s, 0) && Height(s, 0) == 0 by { HeightStart(s); }
    assert s[0..a] == p && s[a..|s|] == q;
    forall k: nat | k <= |p|
      ensures Height(p, k) == Height(s, k)
    {
      HeightWithin(s, 0, a, k);
    }
    forall k: nat | k <= |q|
      ensures Height(q, k) == Height(s, a + k)
    {
      HeightWithin(s, a, |s|, k);
    }
    if Balanced(q) {
      forall i: nat | i <= |s|
        ensures Height(s, i) >= 0
      {
        if i <= a {
          assert Height(p, i) >= 0;
        } else {
          assert Height(q, i - a) >= 0;
        }
      }
    }
    if Balanced(s) {
      forall k: nat | k <= |q|
        ensures Height(q, k) >= 0
      {
        assert Height(s, a + k) >= 0;
      }
    }
  }

  lemma HeightStart(s: Text)
    ensures !Escaped(s, 0) && Height(s, 0) == 0 && Balanced([])
  {
  }

  lemma EscapedPrefix(s: Text, n: nat, k: nat)
    requires k <= n <= |s|
    ensures Escaped(s[..n], k) == Escaped(s, k)
  {
    assert s[..n] == s[0..n];
    EscapedWithin(s, 0, n, k);
  }

  /** A prefix up to a cut of the whole is balanced exactly when the pieces it holds are. */
  lemma {:induction false} DoneBalanced(s: Text, i: nat)
    requires i <= |s| + 1
    ensures Balanced(s[..Last(s, i)]) <==> forall p :: p in Done(s, i) ==> Balanced(p)
  {
    hide Balanced, IsCut;
    if i <= 1 {
      HeightStart(s);
      assert s[..0] == [];
    } else {
      DoneBalanced(s, i - 1);
      if IsCut(s, i - 1) {
        var k := Last(s, i - 1);
        var p := s[k..i - 1];
        StretchBalanced(s, k, i - 1);
        assert p in Done(s, i);
        assert forall q :: q in Done(s, i) ==> q in Done(s, i - 1) || q == p;
        assert forall q :: q in Done(s, i - 1) ==> q in Done(s, i);
      }
    }
  }

  lemma StretchBalanced(s: Text, a: nat, b: nat)
    requires a <= b <= |s| && (a == 0 || IsCut(s, a)) && (b == |s| || IsCut(s, b))
    ensures Balanced(s[..b]) <==> Balanced(s[..a]) && Balanced(s[a..b])
  {
    hide Height, Escaped, Depth, IsCut;
    var r := s[..b];
    assert r[..a] == s[..a] && r[a..] == s[a..b];
    if a > 0 {
      CutsAtTopLevel(s, a);
    } else {
      HeightStart(s);
    }
    assert Depth(s, a) == 0 by { if a == 0 { DepthStart(s); } }
    EscapedPrefix(s, b, a);
    if Balanced(r) {
      PrefixBalanced(s, a, b);
    }
    if Balanced(s[..a]) {
      BalancedAppend(r, a);
    }
  }

  lemma DepthStart(s: Text)
    ensures Depth(s, 0) == 0
  {
  }

  lemma PrefixBalanced(s: Text, a: nat, b: nat)
    requires a <= b <= |s| && Depth(s, a) == 0 && Balanced(s[..b])
    ensures Balanced(s[..a])
  {
    hide Height, Escaped, Depth;
    var r := s[..b];
    assert !Escaped(s, 0) && Height(s, 0) == 0 by { HeightStart(s); }
    assert s[0..b] == r && s[0..a] == s[..a];
    forall k: nat | k <= a
      ensures Height(s, k) >= 0 && Height(s[..a], k) == Height(s, k)
    {
      HeightWithin(s, 0, b, k);
      HeightWithin(s, 0, a, k);
      assert Height(r, k) >= 0;
    }
    DepthIsHeight(s, a);
  }

  /** The source is balanced exactly when every piece is. */
  lemma BalancedIffPieces(s: Text)
    ensures Balanced(s) <==> forall p :: p in Pieces(s) ==> Balanced(p)
  {
    hide Balanced, IsCut, Done, Last;
    var k := Last(s, |s| + 1);
    DoneBalanced(s, |s| + 1);
    StretchBalanced(s, k, |s|);
    assert s[..|s|] == s && s[k..|s|] == s[k..];
    assert s[k..] in Pieces(s);
    assert forall p :: p in Done(s, |s| + 1) ==> p in Pieces(s);
  }

  // ----- trimming -----

  function TrimLeft(s: Text): (r: Text) {
    if s != [] && IsSpace(s[0]) then TrimLeft(s[1..]) else s
  }

  function TrimRight(s: Text): (r: Text)
    decreases |s|
  {
    if s != [] && IsSpace(s[|s| - 1]) then TrimRight(s[..|s| - 1]) else s
  }

  function Trim(s: Text): (r: Text) { TrimRight(TrimLeft(s)) }

  /** The pieces trimmed, the empty ones dropped. */
  function Tidy(pieces: seq<Text>): (r: seq<Text>) {
    if pieces == [] then []
    else
      var n := |pieces| - 1;
      var t := Trim(pieces[n]);
      Tidy(pieces[..n]) + if t == [] then [] else [t]
  }

  lemma SpaceTail(s: Text)
    requires s != [] && IsSpace(s[|s| - 1])
    ensures Balanced(s) <==> Balanced(s[..|s| - 1])
  {
    hide Height, Escaped;
    var n := |s| - 1;
    var r := s[..n];
    assert !Escaped(s, 0) && Height(s, 0) == 0 by { HeightStart(s); }
    assert s[0..n] == r;
    forall k: nat | k <= n
      ensures Height(r, k) == Height(s, k)
    {
      HeightWithin(s, 0, n, k);
    }
    assert Height(s, n + 1) == Height(s, n) by { LastStep(s); }
    if Balanced(r) {
      forall k: nat | k <= |s|
        ensures Height(s, k) >= 0
      {
        if k <= n {
          assert Height(r, k) >= 0;
        }
      }
    }
    if Balanced(s) {
      forall k: nat | k <= |r|
        ensures Height(r, k) >= 0
      {
        assert Height(s, k) >= 0;
      }
    }
  }

  lemma LastStep(s: Text)
    requires s != []
    ensures Height(s, |s|) == Height(s, |s| - 1) + Brace(s, |s| - 1)
  {
  }

  lemma {:induction false} BalancedTrimRight(s: Text)
    ensures Balanced(s) <==> Balanced(TrimRight(s))
    decreases |s|
  {
    hide Balanced;
    if s != [] && IsSpace(s[|s| - 1]) {
      SpaceTail(s);
      BalancedTrimRight(s[..|s| - 1]);
    }
  }

  lemma {:induction false} BalancedTrimLeft(s: Text)
    ensures Balanced(s) <==> Balanced(TrimLeft(s))
  {
    hide Balanced;
    if s != [] && IsSpace(s[0]) {
      SpaceHead(s);
      BalancedTrimLeft(s[1..]);
    }
  }

  lemma SpaceHead(s: Text)
    requires s != [] && IsSpace(s[0])
    ensures Balanced(s) <==> Balanced(s[1..])
  {
    var r := s[..1];
    assert Height(r, 0) == 0 && Height(r, 1) == 0;
    assert !Escaped(s, 0) && !Escaped(s, 1);
    BalancedAppend(s, 1);
  }

  lemma {:induction false} TidyBalanced(pieces: seq<Text>)
    ensures (forall p :: p in pieces ==> Balanced(p)) <==> (forall t :: t in Tidy(pieces) ==> Balanced(t))
  {
    hide Balanced, Trim;
    if pieces != [] {
      var n := |pieces| - 1;
      var rest, p := pieces[..n], pieces[n];
      TidyBalanced(rest);
      BalancedTrim(p);
      HeightStart(p);
      assert pieces == rest + [p];
      assert forall t :: t in Tidy(pieces) <==> t in Tidy(rest) || (t == Trim(p) && t != []);
    }
  }

  lemma BalancedTrim(s: Text)
    ensures Balanced(s) <==> Balanced(Trim(s))
  {
    BalancedTrimLeft(s);
    BalancedTrimRight(TrimLeft(s));
  }

  /** Balance of the source and of the lines rendered from it stand or fall together. */
  lemma BalancedIffLines(s: Text)
    ensures Balanced(s) <==> forall t :: t in Tidy(Pieces(s)) ==> Balanced(t)
  {
    BalancedIffPieces(s);
    TidyBalanced(Pieces(s));
  }

  /** A text without its white space. */
  function Ink(s: Text): (r: Text) {
    if s == [] then [] else (if IsSpace(s[0]) then [] else [s[0]]) + Ink(s[1..])
  }

  lemma {:induction false} InkAppend(s: Text, t: Text)
    ensures Ink(s + t) == Ink(s) + Ink(t)
  {
    if s == [] {
      assert s + t == t;
    } else {
      assert (s + t)[1..] == s[1..] + t;
      InkAppend(s[1..], t);
    }
  }

  lemma {:induction false} InkTrimLeft(s: Text)
    ensures Ink(TrimLeft(s)) == Ink(s)
  {
    if s != [] && IsSpace(s[0]) {
      InkTrimLeft(s[1..]);
    }
  }

  lemma {:induction false} InkTrimRight(s: Text)
    ensures Ink(TrimRight(s)) == Ink(s)
    decreases |s|
  {
    if s != [] && IsSpace(s[|s| - 1]) {
      var n := |s| - 1;
      InkTrimRight(s[..n]);
      InkAppend(s[..n], [s[n]]);
      assert s == s[..n] + [s[n]];
    }
  }

  lemma {:induction false} InkTidy(pieces: seq<Text>)
    ensures Ink(Concat(Tidy(pieces))) == Ink(Concat(pieces))
  {
    hide Ink, Trim;
    if pieces != [] {
      var n := |pieces| - 1;
      var p := pieces[n];
      assert pieces == pieces[..n] + [p];
      ConcatPush(pieces[..n], p);
      InkTidy(pieces[..n]);
      InkTrimLeft(p);
      InkTrimRight(TrimLeft(p));
      assert Ink(Trim(p)) == Ink(p) by { TrimIs(p); }
      InkAppend(Concat(pieces[..n]), p);
      InkAppend(Concat(Tidy(pieces[..n])), Trim(p));
      ConcatPush(Tidy(pieces[..n]), Trim(p));
      if Trim(p) == [] {
        assert Tidy(pieces) == Tidy(pieces[..n]);
        assert Concat(Tidy(pieces[..n])) + [] == Concat(Tidy(pieces[..n]));
      }
    }
  }

  lemma TrimIs(p: Text)
    ensures Trim(p) == TrimRight(TrimLeft(p))
  {
  }

  /** The rendered lines together hold the source's units in order, white space aside. */
  lemma LinesKeepInk(s: Text)
    ensures Ink(Concat(Tidy(Pieces(s)))) == Ink(s)
  {
    PiecesConcat(s);
    InkTidy(Pieces(s));
  }

  /** The spaces are those of the language: tab to carriage return and the listed others. */
  lemma SpaceUnits(c: Unit)
    ensures IsSpace(c) <==>
      c in {9, 10, 11, 12, 13, 32, 160, 5760, 8192, 8193, 8194, 8195, 8196, 8197, 8198, 8199, 8200, 8201, 8202,
            8232, 8233, 8239, 8287, 12288, 65279}
  {
  }

  lemma {:induction false} LeftTrimmed(s: Text)
    ensures var t := TrimLeft(s); |t| <= |s| && t == s[|s| - |t|..] && (t != [] ==> !IsSpace(t[0]))
    ensures forall i :: 0 <= i < |s| - |TrimLeft(s)| ==> IsSpace(s[i])
  {
    hide IsSpace;
    if s != [] && IsSpace(s[0]) {
      var rest := s[1..];
      LeftTrimmed(rest);
      assert forall i :: 0 < i < |s| ==> s[i] == rest[i - 1];
    }
  }

  lemma {:induction false} RightTrimmed(s: Text)
    ensures var t := TrimRight(s); t <= s && (t != [] ==> !IsSpace(t[|t| - 1]))
    ensures forall i :: |TrimRight(s)| <= i < |s| ==> IsSpace(s[i])
    decreases |s|
  {
    if s != [] && IsSpace(s[|s| - 1]) {
      RightTrimmed(s[..|s| - 1]);
      assert forall i :: 0 <= i < |s| - 1 ==> s[..|s| - 1][i] == s[i];
    }
  }

  /** Every returned line is a piece without the spaces at its ends, and has something left. */
  lemma {:induction false} LinesAreTrimmed(pieces: seq<Text>, t: Text)
    requires t in Tidy(pieces)
    ensures t != [] && !IsSpace(t[0]) && !IsSpace(t[|t| - 1])
    ensures exists p :: p in pieces && t == Trim(p)
  {
    var n := |pieces| - 1;
    var p := pieces[n];
    if t in Tidy(pieces[..n]) {
      LinesAreTrimmed(pieces[..n], t);
      var q :| q in pieces[..n] && t == Trim(q);
      assert q in pieces;
    } else {
      assert t == Trim(p) && p in pieces;
      LeftTrimmed(p);
      RightTrimmed(TrimLeft(p));
    }
  }

  // ----- escape pairs that trimming breaks -----

  /** The text ends in a backslash with nothing to escape. */
  predicate Dangling(s: Text) { Escaped(s, |s|) }

  /** Unit k is an escaped space and only spaces follow. */
  predicate EscapedSpaceAtEnd(s: Text, k: nat) {
    k < |s| && Escaped(s, k) && forall j :: k <= j < |s| ==> IsSpace(s[j])
  }

  ghost predicate EndsInEscapedSpace(s: Text) {
    exists k: nat :: EscapedSpaceAtEnd(s, k)
  }

  lemma DropLast(s: Text)
    requires s != [] && IsSpace(s[|s| - 1])
    ensures var r := s[..|s| - 1];
      !Dangling(s) && (EndsInEscapedSpace(s) <==> Dangling(r) || EndsInEscapedSpace(r))
  {
    hide Escaped;
    var n := |s| - 1;
    var r := s[..n];
    NotAfterSpace(s);
    forall k: nat | k <= n
      ensures Escaped(r, k) == Escaped(s, k)
    {
      EscapedPrefix(s, n, k);
    }
    if k: nat :| EscapedSpaceAtEnd(s, k) {
      assert k < n ==> EscapedSpaceAtEnd(r, k);
    }
    if Dangling(r) {
      assert EscapedSpaceAtEnd(s, n);
    } else if k: nat :| EscapedSpaceAtEnd(r, k) {
      assert EscapedSpaceAtEnd(s, k);
    }
  }

  lemma NotAfterSpace(s: Text)
    requires s != [] && IsSpace(s[|s| - 1])
    ensures !Dangling(s)
  {
  }

  lemma {:induction false} TrimRightDangles(s: Text)
    ensures Dangling(TrimRight(s)) <==> Dangling(s) || EndsInEscapedSpace(s)
    decreases |s|
  {
    hide Escaped;
    if s != [] && IsSpace(s[|s| - 1]) {
      DropLast(s);
      TrimRightDangles(s[..|s| - 1]);
    }
  }

  lemma DropFirst(s: Text)
    requires s != [] && IsSpace(s[0])
    ensures Dangling(s) == Dangling(s[1..]) && EndsInEscapedSpace(s) == EndsInEscapedSpace(s[1..])
  {
    hide Escaped;
    var r := s[1..];
    assert !Escaped(s, 0) && !Escaped(s, 1) by { FirstUnits(s); }
    assert s[1..|s|] == r;
    forall k: nat | k <= |r|
      ensures Escaped(r, k) == Escaped(s, 1 + k)
    {
      EscapedWithin(s, 1, |s|, k);
    }
    if k: nat :| EscapedSpaceAtEnd(s, k) {
      assert EscapedSpaceAtEnd(r, k - 1);
    }
    if k: nat :| EscapedSpaceAtEnd(r, k) {
      assert forall j :: k + 1 <= j < |s| ==> s[j] == r[j - 1];
      assert EscapedSpaceAtEnd(s, k + 1);
    }
  }

  lemma FirstUnits(s: Text)
    requires s != [] && IsSpace(s[0])
    ensures !Escaped(s, 0) && !Escaped(s, 1)
  {
  }

  lemma {:induction false} TrimLeftDangles(s: Text)
    ensures Dangling(s) == Dangling(TrimLeft(s)) && EndsInEscapedSpace(s) == EndsInEscapedSpace(TrimLeft(s))
  {
    hide Dangling, EndsInEscapedSpace;
    if s != [] && IsSpace(s[0]) {
      DropFirst(s);
      TrimLeftDangles(s[1..]);
    }
  }

  /**
   * A returned line ends in a backslash whose partner is lost exactly when the source ends in one
   * after it, or when the line's piece ends in an escaped space.
   */
  lemma LineDanglesIff(s: Text, p: Text)
    requires p in Pieces(s)
    ensures Dangling(p) ==> Dangling(s)
    ensures Dangling(Trim(p)) <==> Dangling(p) || EndsInEscapedSpace(p)
  {
    hide Escaped, Depth, EndsInEscapedSpace;
    TrimLeftDangles(p);
    TrimRightDangles(TrimLeft(p));
    PiecesAreStretches(s, p);
    var a: nat, b: nat :| Stretch(s, a, b) && p == s[a..b];
    StartOfStretch(s, a, b);
    EscapedWithin(s, a, b, |p|);
    if b < |s| {
      CutsAtTopLevel(s, b);
    }
  }

  /** `x\ -y`: the cut is right, but trimming leaves `x\` of the piece before it. */
  lemma EscapedSpaceIsLost()
    ensures var s: Text := [0x78, BACKSLASH, 0x20, 0x2D, 0x79];
      IsCut(s, 3) && Trim(s[..3]) == [0x78, BACKSLASH] && Dangling(Trim(s[..3])) && !Dangling(s[..3])
  {
    var s: Text := [0x78, BACKSLASH, 0x20, 0x2D, 0x79];
    assert !Escaped(s, 0) && !Escaped(s, 1) && Escaped(s, 2) && !Escaped(s, 3);
    assert Depth(s, 1) == 0 && Depth(s, 2) == 0 && Depth(s, 3) == 0;
    var p, t := s[..3], s[..2];
    assert p[..2] == t && TrimLeft(p) == p && TrimRight(p) == TrimRight(t) == t;
    assert t == [0x78, BACKSLASH] && !Escaped(t, 0) && !Escaped(t, 1) && Escaped(t, 2);
  }

  // ----- the loop -----

  method SplitMathAtTopLevel(source: Text) returns (lines: seq<Text>)
    ensures lines == Tidy(Pieces(source))
  {
    hide Escaped, Depth, Done, Last, Tidy;
    var n := |source|;
    var depth: nat, last: nat, i: nat := 0, 0, 0;
    var pieces: seq<Text> := [];
    ScanStart(source);
    while i < n
      invariant i <= n + 1
      invariant Scanned(source, if i <= n then i else n, depth, last, pieces)
      invariant i <= n ==> !Escaped(source, i)
    {
      var ch := source[i];
      ScanStep(source, i, depth, last, pieces);
      if ch == BACKSLASH {
        i := i + 2;
        continue;
      }
      if ch == OPEN {
        depth := depth + 1;
      } else if ch == CLOSE {
        depth := if depth - 1 > 0 then depth - 1 else 0;
      } else if depth == 0 && BreaksAfter(ch) {
        pieces := pieces + [source[last..i + 1]];
        last := i + 1;
      } else if depth == 0 && BreaksBefore(ch) {
        if i > last {
          pieces := pieces + [source[last..i]];
          last := i;
        }
      }
      i := i + 1;
    }
    ScanEnd(source, depth, last, pieces);
    pieces := pieces + [source[last..]];
    lines := [];
    assert pieces[..0] == [];
    for k := 0 to |pieces|
      invariant lines == Tidy(pieces[..k])
    {
      assert pieces[..k + 1][..k] == pieces[..k];
      TidyStep(pieces[..k + 1]);
      var t := Trim(pieces[k]);
      if |t| > 0 {
        lines := lines + [t];
      }
    }
    assert pieces[..|pieces|] == pieces;
  }

  /** At unit i all cuts before it are made, and the one at it when a unit before it asks for it. */
  ghost predicate Scanned(s: Text, i: nat, depth: nat, last: nat, pieces: seq<Text>) {
    && i <= |s| && depth == Depth(s, i)
    && if After(s, i) then last == i && pieces == Done(s, i) + [s[Last(s, i)..i]]
       else last == Last(s, i) && pieces == Done(s, i)
  }

  lemma ScanStart(s: Text)
    ensures Scanned(s, 0, 0, 0, []) && !Escaped(s, 0)
  {
  }

  lemma ScanEnd(s: Text, depth: nat, last: nat, pieces: seq<Text>)
    requires Scanned(s, |s|, depth, last, pieces)
    ensures last <= |s| && Pieces(s) == pieces + [s[last..]] && Tidy([]) == []
  {
  }

  lemma TidyStep(pieces: seq<Text>)
    requires pieces != []
    ensures var n := |pieces| - 1; var t := Trim(pieces[n]);
      Tidy(pieces) == Tidy(pieces[..n]) + if t == [] then [] else [t]
  {
  }

  /** Cuts are settled up to and including position i once unit i is looked at. */
  lemma CutsSettle(s: Text, i: nat, depth: nat, last: nat, pieces: seq<Text>)
    requires i < |s| && Scanned(s, i, depth, last, pieces)
    ensures last <= i
    ensures !(Before(s, i) && i > last) ==> last == Last(s, i + 1) && pieces == Done(s, i + 1)
    ensures Before(s, i) && i > last ==> i == Last(s, i + 1) && pieces + [s[last..i]] == Done(s, i + 1)
    ensures i > last ==> i > 0
  {
  }

  /** What each branch of the loop makes of unit i. */
  lemma ScanStep(s: Text, i: nat, depth: nat, last: nat, pieces: seq<Text>)
    requires i < |s| && Scanned(s, i, depth, last, pieces) && !Escaped(s, i)
    ensures var c := s[i];
      && last <= i
      && (c != BACKSLASH ==> !Escaped(s, i + 1))
      && (c == BACKSLASH ==> if i + 2 <= |s| then Scanned(s, i + 2, depth, last, pieces) && !Escaped(s, i + 2)
                             else Scanned(s, i + 1, depth, last, pieces))
      && (c == OPEN ==> Scanned(s, i + 1, depth + 1, last, pieces))
      && (c == CLOSE ==> Scanned(s, i + 1, if depth > 1 then depth - 1 else 0, last, pieces))
      && (c != BACKSLASH && c != OPEN && c != CLOSE ==>
            if depth == 0 && BreaksAfter(c) then Scanned(s, i + 1, depth, i + 1, pieces + [s[last..i + 1]])
            else if depth == 0 && BreaksBefore(c) && i > last then Scanned(s, i + 1, depth, i, pieces + [s[last..i]])
            else Scanned(s, i + 1, depth, last, pieces))
  {
    hide Last, Done;
    CutsSettle(s, i, depth, last, pieces);
    if s[i] == BACKSLASH && i + 2 <= |s| {
      assert Escaped(s, i + 1) && !After(s, i + 1) && !Before(s, i + 1) && !After(s, i + 2);
      NoCut(s, i + 1);
      assert Brace(s, i) == 0 && Depth(s, i + 1) == depth;
      assert Brace(s, i + 1) == 0 && Depth(s, i + 2) == depth;
    }
  }

  lemma NoCut(s: Text, i: nat)
    requires 0 < i <= |s| && !IsCut(s, i)
    ensures Last(s, i + 1) == Last(s, i) && Done(s, i + 1) == Done(s, i)
  {
  }
}
