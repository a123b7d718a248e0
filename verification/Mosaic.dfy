/**
 * tools/mosaic_to_svg.py: rows are cut into runs, equal runs of neighbouring rows are merged
 * into rectangles, and the rectangles are emitted as filled SVG groups.
 */
module Mosaic {
  import opened Arithmetic
  import opened Common

  /** A rectangle of one colour: columns x0..x1 and rows y0..y1, both half open. */
  datatype Rect = Rect(x0: nat, x1: nat, y0: nat, y1: nat, color: int)

  datatype Run = Run(x0: nat, x1: nat, color: int)

  /** A rectangle still growing downward. */
  datatype Open = Open(run: Run, y0: nat)

  type Grid = seq<seq<int>>

  ghost predicate NoDuplicates<T>(s: seq<T>) {
    forall i, j :: 0 <= i < j < |s| ==> s[i] != s[j]
  }

  // ----- what the tracer should emit -----

  /** A whole run: one colour, and it cannot be widened. */
  ghost predicate IsRun(row: seq<int>, r: Run) {
    && r.x0 < r.x1 <= |row|
    && (forall x :: r.x0 <= x < r.x1 ==> row[x] == r.color)
    && (r.x0 > 0 ==> row[r.x0 - 1] != r.color)
    && (r.x1 < |row| ==> row[r.x1] != r.color)
  }

  /** The run has been the same in rows y0..y1 and was not there in the row above. */
  ghost predicate Stacked(rows: Grid, r: Run, y0: nat, y1: nat) {
    && y0 < y1 <= |rows|
    && (forall y :: y0 <= y < y1 ==> IsRun(rows[y], r))
    && (y0 > 0 ==> !IsRun(rows[y0 - 1], r))
  }

  function RunOf(r: Rect): (res: Run) {
    Run(r.x0, r.x1, r.color)
  }

  /** A stack of whole runs that extends neither upward nor downward. */
  ghost predicate Maximal(rows: Grid, r: Rect) {
    Stacked(rows, RunOf(r), r.y0, r.y1) && (r.y1 < |rows| ==> !IsRun(rows[r.y1], RunOf(r)))
  }

  // ----- runs of one row -----

  method Runs(row: seq<int>) returns (runs: seq<Run>)
    ensures forall r :: r in runs <==> IsRun(row, r)
    ensures NoDuplicates(runs)
  {
    runs := [];
    var x := 0;
    while x < |row|
      invariant x <= |row| && (0 < x < |row| ==> row[x - 1] != row[x])
      invariant forall r :: r in runs <==> IsRun(row, r) && r.x1 <= x
      invariant forall r :: IsRun(row, r) && r.x0 < x ==> r.x1 <= x
      invariant NoDuplicates(runs)
    {
      var c := row[x];
      var x1 := x + 1;
      while x1 < |row| && row[x1] == c
        invariant x < x1 <= |row| && forall k :: x <= k < x1 ==> row[k] == c
      {
        x1 := x1 + 1;
      }
      var found := Run(x, x1, c);
      assert IsRun(row, found);
      forall r | IsRun(row, r) && x <= r.x0 < x1
        ensures r == found
      {
        assert row[r.x0] == c;
      }
      runs := runs + [found];
      x := x1;
    }
  }

  // ----- one row of the merge -----

  /** The open rectangles after the rows above y: the stacks that reach row y. */
  ghost predicate OpensAre(rows: Grid, y: nat, opens: seq<Open>) {
    && NoDuplicates(opens)
    && forall o :: o in opens <==> Stacked(rows, o.run, o.y0, y)
  }

  /** The rectangles closed so far: the maximal ones that end above row y. */
  ghost predicate ClosedAre(rows: Grid, y: nat, rects: seq<Rect>) {
    && NoDuplicates(rects)
    && forall r :: r in rects <==> Maximal(rows, r) && r.y1 < y
  }

  /** Two stacks of one run reaching the same row are one. */
  lemma StackUnique(rows: Grid, r: Run, a: nat, b: nat, y: nat, y': nat)
    requires Stacked(rows, r, a, y) && Stacked(rows, r, b, y')
    requires a < y' && b < y
    ensures a == b
  {
  }

  /** First open rectangle with exactly this run. */
  method Find(opens: seq<Open>, run: Run, matched: seq<bool>) returns (at: int)
    requires |matched| == |opens|
    ensures -1 <= at < |opens|
    ensures at >= 0 ==> !matched[at] && opens[at].run == run
    ensures at < 0 ==> forall i :: 0 <= i < |opens| && opens[i].run == run ==> matched[i]
  {
    for idx := 0 to |opens|
      invariant forall i :: 0 <= i < idx && opens[i].run == run ==> matched[i]
    {
      if !matched[idx] && opens[idx].run == run {
        return idx;
      }
    }
    return -1;
  }

  /** Which open rectangles the runs of row y continue, and the rectangles the other runs start. */
  method MatchRuns(opens: seq<Open>, runs: seq<Run>, y: nat) returns (matched: seq<bool>, started: seq<Open>)
    requires NoDuplicates(runs)
    requires forall i, j :: 0 <= i < j < |opens| ==> opens[i].run != opens[j].run
    ensures |matched| == |opens|
    ensures forall i :: 0 <= i < |opens| ==> (matched[i] <==> opens[i].run in runs)
    ensures NoDuplicates(started)
    ensures forall o :: o in started <==> o.y0 == y && o.run in runs && forall i :: 0 <= i < |opens| ==> opens[i].run != o.run
  {
    matched := seq(|opens|, i => false);
    started := [];
    for k := 0 to |runs|
      invariant |matched| == |opens|
      invariant forall i :: 0 <= i < |opens| ==> (matched[i] <==> opens[i].run in runs[..k])
      invariant NoDuplicates(started)
      invariant forall o :: o in started <==>
        o.y0 == y && o.run in runs[..k] && forall i :: 0 <= i < |opens| ==> opens[i].run != o.run
    {
      var run := runs[k];
      assert run !in runs[..k];
      var at := Find(opens, run, matched);
      if at >= 0 {
        matched := matched[at := true];
      } else {
        assert forall i :: 0 <= i < |opens| ==> opens[i].run != run;
        started := started + [Open(run, y)];
      }
      assert runs[..k + 1] == runs[..k] + [run];
    }
    assert runs[..|runs|] == runs;
  }

  function Close(o: Open, y: nat): (r: Rect) {
    Rect(o.run.x0, o.run.x1, o.y0, y, o.run.color)
  }

  /** Continued rectangles stay open behind the started ones; the rest are closed at row y. */
  method Split(opens: seq<Open>, matched: seq<bool>, started: seq<Open>, y: nat) returns (next: seq<Open>, closed: seq<Rect>)
    requires |matched| == |opens| && NoDuplicates(opens) && NoDuplicates(started)
    requires forall o :: o in started ==> o !in opens
    ensures NoDuplicates(next) && NoDuplicates(closed)
    ensures forall o :: o in next <==> o in started || exists i :: 0 <= i < |opens| && matched[i] && opens[i] == o
    ensures forall r :: r in closed <==> exists i :: 0 <= i < |opens| && !matched[i] && Close(opens[i], y) == r
  {
    next, closed := started, [];
    for idx := 0 to |opens|
      invariant NoDuplicates(next) && NoDuplicates(closed)
      invariant forall o :: o in next <==> o in started || exists i :: 0 <= i < idx && matched[i] && opens[i] == o
      invariant forall r :: r in closed <==> exists i :: 0 <= i < idx && !matched[i] && Close(opens[i], y) == r
    {
      var o := opens[idx];
      if matched[idx] {
        assert o !in next;
        next := next + [o];
      } else {
        assert Close(o, y) !in closed;
        closed := closed + [Close(o, y)];
      }
    }
  }

  // ----- the whole merge -----

  /** A run present in row y - 1 belongs to a stack reaching row y. */
  lemma {:induction false} StackExists(rows: Grid, r: Run, y: nat) returns (y0: nat)
    requires 0 < y <= |rows| && IsRun(rows[y - 1], r)
    ensures Stacked(rows, r, y0, y)
  {
    if y > 1 && IsRun(rows[y - 2], r) {
      y0 := StackExists(rows, r, y - 1);
    } else {
      y0 := y - 1;
    }
  }

  lemma OpenRunsDiffer(rows: Grid, y: nat, opens: seq<Open>)
    requires OpensAre(rows, y, opens)
    ensures forall i, j :: 0 <= i < j < |opens| ==> opens[i].run != opens[j].run
  {
    forall i, j | 0 <= i < j < |opens|
      ensures opens[i].run != opens[j].run
    {
      assert opens[i] in opens && opens[j] in opens;
      if opens[i].run == opens[j].run {
        StackUnique(rows, opens[i].run, opens[i].y0, opens[j].y0, y, y);
      }
    }
  }

  /** Which stacks reach row y + 1, in terms of those that reach row y. */
  lemma StacksReachNext(rows: Grid, y: nat, opens: seq<Open>, o: Open)
    requires y < |rows| && OpensAre(rows, y, opens)
    ensures Stacked(rows, o.run, o.y0, y + 1) <==>
      IsRun(rows[y], o.run) && (o in opens || (o.y0 == y && forall i :: 0 <= i < |opens| ==> opens[i].run != o.run))
  {
    if IsRun(rows[y], o.run) {
      if o.y0 == y {
        if y > 0 && IsRun(rows[y - 1], o.run) {
          var y0 := StackExists(rows, o.run, y);
          assert Open(o.run, y0) in opens;
        } else {
          forall i | 0 <= i < |opens|
            ensures opens[i].run != o.run
          {
            assert opens[i] in opens;
          }
        }
      }
    } else if Stacked(rows, o.run, o.y0, y + 1) {
      assert false;
    }
  }

  /** Rectangles that end exactly above row y. */
  lemma EndsAbove(rows: Grid, y: nat, opens: seq<Open>, r: Rect)
    requires y <= |rows| && OpensAre(rows, y, opens)
    ensures Maximal(rows, r) && r.y1 == y <==>
      exists i :: 0 <= i < |opens| && (y < |rows| ==> !IsRun(rows[y], opens[i].run)) && Close(opens[i], y) == r
  {
    var o := Open(RunOf(r), r.y0);
    if Maximal(rows, r) && r.y1 == y {
      assert o in opens;
      var i :| 0 <= i < |opens| && opens[i] == o;
      assert Close(opens[i], y) == r;
    }
    if i :| 0 <= i < |opens| && (y < |rows| ==> !IsRun(rows[y], opens[i].run)) && Close(opens[i], y) == r {
      assert opens[i] in opens && opens[i] == o;
    }
  }

  /** The turn of the outer loop for row y. */
  method MergeRow(rows: Grid, y: nat, opens: seq<Open>) returns (next: seq<Open>, closed: seq<Rect>)
    requires y < |rows| && OpensAre(rows, y, opens)
    ensures OpensAre(rows, y + 1, next)
    ensures NoDuplicates(closed) && forall r :: r in closed <==> Maximal(rows, r) && r.y1 == y
  {
    hide IsRun, Maximal;
    var runs := Runs(rows[y]);
    OpenRunsDiffer(rows, y, opens);
    var matched, started := MatchRuns(opens, runs, y);
    assert forall o :: o in started ==> o !in opens;
    next, closed := Split(opens, matched, started, y);
    forall o
      ensures o in next <==> Stacked(rows, o.run, o.y0, y + 1)
    {
      StacksReachNext(rows, y, opens, o);
    }
    forall r
      ensures r in closed <==> Maximal(rows, r) && r.y1 == y
    {
      EndsAbove(rows, y, opens, r);
    }
  }

  /** The rectangles of a picture: all the maximal ones, each once. */
  method Trace(rows: Grid) returns (rects: seq<Rect>)
    ensures NoDuplicates(rects) && forall r :: r in rects <==> Maximal(rows, r)
  {
    hide Maximal, Stacked;
    var opens: seq<Open> := [];
    rects := [];
    StartState(rows);
    for y := 0 to |rows|
      invariant OpensAre(rows, y, opens) && ClosedAre(rows, y, rects)
    {
      var closed;
      opens, closed := MergeRow(rows, y, opens);
      ClosedGrows(rows, y, rects, closed);
      rects := rects + closed;
    }
    var rest := CloseAll(opens, |rows|);
    forall r
      ensures r in rest <==> Maximal(rows, r) && r.y1 == |rows|
    {
      EndsAbove(rows, |rows|, opens, r);
    }
    ClosedGrows(rows, |rows|, rects, rest);
    rects := rects + rest;
    forall r
      ensures r in rects <==> Maximal(rows, r)
    {
      EndsInside(rows, r);
    }
  }

  /** The loop after the last row. */
  method CloseAll(opens: seq<Open>, h: nat) returns (rects: seq<Rect>)
    requires NoDuplicates(opens)
    ensures NoDuplicates(rects)
    ensures forall r :: r in rects <==> exists i :: 0 <= i < |opens| && Close(opens[i], h) == r
  {
    rects := [];
    for k := 0 to |opens|
      invariant |rects| == k && forall i :: 0 <= i < k ==> rects[i] == Close(opens[i], h)
    {
      rects := rects + [Close(opens[k], h)];
    }
  }

  lemma StartState(rows: Grid)
    ensures OpensAre(rows, 0, []) && ClosedAre(rows, 0, [])
  {
  }

  lemma EndsInside(rows: Grid, r: Rect)
    ensures Maximal(rows, r) ==> r.y1 < |rows| + 1
  {
  }

  lemma ClosedGrows(rows: Grid, y: nat, rects: seq<Rect>, closed: seq<Rect>)
    requires ClosedAre(rows, y, rects)
    requires NoDuplicates(closed) && forall r :: r in closed <==> Maximal(rows, r) && r.y1 == y
    ensures ClosedAre(rows, y + 1, rects + closed)
  {
    hide Maximal;
    var all := rects + closed;
    forall i, j | 0 <= i < j < |all|
      ensures all[i] != all[j]
    {
      if i < |rects| <= j {
        assert all[i] in rects && all[j] in closed;
      }
    }
  }

  // ----- the picture is preserved -----

  predicate Covers(r: Rect, x: nat, y: nat) {
    r.x0 <= x < r.x1 && r.y0 <= y < r.y1
  }

  lemma {:induction false} LeftEnd(row: seq<int>, x: nat) returns (x0: nat)
    requires x < |row|
    ensures x0 <= x && (forall k :: x0 <= k <= x ==> row[k] == row[x]) && (x0 > 0 ==> row[x0 - 1] != row[x])
  {
    if x > 0 && row[x - 1] == row[x] {
      x0 := LeftEnd(row, x - 1);
    } else {
      x0 := x;
    }
  }

  lemma {:induction false} RightEnd(row: seq<int>, x: nat) returns (x1: nat)
    requires x < |row|
    ensures x < x1 <= |row| && (forall k :: x <= k < x1 ==> row[k] == row[x]) && (x1 < |row| ==> row[x1] != row[x])
    decreases |row| - x
  {
    if x + 1 < |row| && row[x + 1] == row[x] {
      x1 := RightEnd(row, x + 1);
    } else {
      x1 := x + 1;
    }
  }

  lemma {:induction false} StackBottom(rows: Grid, r: Run, y: nat) returns (y1: nat)
    requires y < |rows| && IsRun(rows[y], r)
    ensures y < y1 <= |rows| && (forall k :: y <= k < y1 ==> IsRun(rows[k], r)) && (y1 < |rows| ==> !IsRun(rows[y1], r))
    decreases |rows| - y
  {
    if y + 1 < |rows| && IsRun(rows[y + 1], r) {
      y1 := StackBottom(rows, r, y + 1);
    } else {
      y1 := y + 1;
    }
  }

  /** Some maximal rectangle covers each pixel, with the pixel's colour. */
  lemma PixelCovered(rows: Grid, x: nat, y: nat) returns (r: Rect)
    requires y < |rows| && x < |rows[y]|
    ensures Maximal(rows, r) && Covers(r, x, y) && r.color == rows[y][x]
  {
    var x0 := LeftEnd(rows[y], x);
    var x1 := RightEnd(rows[y], x);
    var run := Run(x0, x1, rows[y][x]);
    assert IsRun(rows[y], run);
    var y0 := StackExists(rows, run, y + 1);
    var y1 := StackBottom(rows, run, y);
    r := Rect(x0, x1, y0, y1, rows[y][x]);
    assert RunOf(r) == run;
    assert forall k :: y0 <= k < y1 ==> IsRun(rows[k], run);
  }

  /** Two runs of one row that share a pixel are the same run. */
  lemma RunUnique(row: seq<int>, a: Run, b: Run, x: nat)
    requires IsRun(row, a) && IsRun(row, b) && a.x0 <= x < a.x1 && b.x0 <= x < b.x1
    ensures a == b
  {
    assert a.color == row[x] == b.color;
  }

  /** No two maximal rectangles share a pixel. */
  lemma PixelCoveredOnce(rows: Grid, a: Rect, b: Rect, x: nat, y: nat)
    requires Maximal(rows, a) && Maximal(rows, b) && Covers(a, x, y) && Covers(b, x, y)
    ensures a == b
  {
    assert IsRun(rows[y], RunOf(a)) && IsRun(rows[y], RunOf(b));
    RunUnique(rows[y], RunOf(a), RunOf(b), x);
    StackUnique(rows, RunOf(a), a.y0, b.y0, a.y1, b.y1);
  }

  /** The colour left at a pixel by painting the rectangles in this order. */
  function Painted(rects: seq<Rect>, x: nat, y: nat, blank: int): (r: int)
    decreases |rects|
  {
    if rects == [] then blank
    else
      var n := |rects| - 1;
      if Covers(rects[n], x, y) then rects[n].color else Painted(rects[..n], x, y, blank)
  }

  lemma {:induction false} PaintedByOnly(rects: seq<Rect>, x: nat, y: nat, blank: int, r: Rect)
    requires r in rects && Covers(r, x, y)
    requires forall q :: q in rects && Covers(q, x, y) ==> q == r
    ensures Painted(rects, x, y, blank) == r.color
    decreases |rects|
  {
    var n := |rects| - 1;
    if !Covers(rects[n], x, y) {
      assert rects == rects[..n] + [rects[n]];
      PaintedByOnly(rects[..n], x, y, blank, r);
    }
  }

  /** The emitted rectangles, in whatever order they are painted, reproduce every pixel. */
  lemma AnyOrderPaintsPicture(rows: Grid, rects: seq<Rect>, order: seq<Rect>, x: nat, y: nat, blank: int)
    requires NoDuplicates(rects) && forall r :: r in rects <==> Maximal(rows, r)
    requires multiset(order) == multiset(rects)
    requires y < |rows| && x < |rows[y]|
    ensures Painted(order, x, y, blank) == rows[y][x]
    ensures exists r :: multiset(order)[r] == 1 && Covers(r, x, y) && forall q :: q in order && Covers(q, x, y) ==> q == r
  {
    var r := PixelCovered(rows, x, y);
    SameMembers(order, rects);
    forall q | q in order && Covers(q, x, y)
      ensures q == r
    {
      PixelCoveredOnce(rows, q, r, x, y);
    }
    PaintedByOnly(order, x, y, blank, r);
    OccursOnce(rects, r);
  }

  lemma {:induction false} OccursOnce<T>(s: seq<T>, x: T)
    requires NoDuplicates(s) && x in s
    ensures multiset(s)[x] == 1
    decreases |s|
  {
    var n := |s| - 1;
    assert s == s[..n] + [s[n]];
    if x != s[n] {
      OccursOnce(s[..n], x);
    } else {
      assert x !in s[..n];
      assert x !in multiset(s[..n]);
    }
  }

  lemma SameMembers<T>(a: seq<T>, b: seq<T>)
    requires multiset(a) == multiset(b)
    ensures forall x :: x in a <==> x in b
  {
    forall x
      ensures x in a <==> x in b
    {
      assert x in multiset(a) <==> x in a;
      assert x in multiset(b) <==> x in b;
    }
  }

  // ----- tones: buckets of the gray range, and the mean tone of each -----

  /** Python's int(): towards zero. */
  function Trunc(a: int, b: int): (r: int)
    requires b > 0
  {
    if a >= 0 then a / b else -(-a / b)
  }

  /** int((v - lo) * (levels - 1) / (hi - lo) + 0.5), over exact fractions. */
  function Bucket(v: int, lo: int, hi: int, levels: int): (r: int)
    requires lo < hi
  {
    Trunc(2 * ((v - lo) * (levels - 1)) + (hi - lo), 2 * (hi - lo))
  }

  lemma DivBounds(a: nat, d: nat, k: nat)
    requires d > 0
    ensures a >= k * d ==> a / d >= k
    ensures a < k * d ==> a / d < k
  {
    var q := a / d;
    assert a == q * d + a % d;
    MulLess(q, k, d);
    MulLess(k, q, d);
  }

  /** Rounding n / d, for n between 0 and d * l. */
  lemma Rounding(n: nat, d: nat, l: nat)
    requires d > 0 && n <= d * l
    ensures 0 <= (2 * n + d) / (2 * d) <= l
    ensures n == 0 ==> (2 * n + d) / (2 * d) == 0
    ensures n == d * l ==> (2 * n + d) / (2 * d) == l
  {
    assert (l + 1) * (2 * d) == 2 * (d * l) + 2 * d && l * (2 * d) == 2 * (d * l);
    DivBounds(2 * n + d, 2 * d, l + 1);
    DivBounds(2 * n + d, 2 * d, l);
    DivBounds(2 * n + d, 2 * d, 1);
  }

  lemma RoundingMonotone(n: nat, m: nat, d: nat)
    requires d > 0 && n <= m
    ensures (2 * n + d) / (2 * d) <= (2 * m + d) / (2 * d)
  {
    var q := (2 * n + d) / (2 * d);
    DivBounds(2 * n + d, 2 * d, q);
    DivBounds(2 * m + d, 2 * d, q);
    assert 2 * n + d >= q * (2 * d);
  }

  /** The darkest tone is bucket 0, the lightest the last, and buckets keep the order of tones. */
  lemma BucketRange(v: int, w: int, lo: int, hi: int, levels: int)
    requires lo < hi && levels >= 1 && lo <= v <= w <= hi
    ensures 0 <= Bucket(v, lo, hi, levels) <= Bucket(w, lo, hi, levels) <= levels - 1
    ensures Bucket(lo, lo, hi, levels) == 0 && Bucket(hi, lo, hi, levels) == levels - 1
  {
    hide Bucket;
    var d: nat, l: nat := hi - lo, levels - 1;
    BucketIsRounding(v, lo, hi, levels);
    BucketIsRounding(w, lo, hi, levels);
    BucketIsRounding(lo, lo, hi, levels);
    BucketIsRounding(hi, lo, hi, levels);
    ProductsInOrder(v - lo, w - lo, d, l);
    RoundedInOrder((v - lo) * l, (w - lo) * l, d, l);
  }

  lemma ProductsInOrder(a: nat, b: nat, d: nat, l: nat)
    requires a <= b <= d
    ensures 0 <= a * l <= b * l <= d * l && 0 * l == 0
  {
    MulLess(0, a, l);
    MulLess(a, b, l);
    MulLess(b, d, l);
  }

  lemma RoundedInOrder(n: nat, m: nat, d: nat, l: nat)
    requires d > 0 && n <= m <= d * l
    ensures 0 <= (2 * n + d) / (2 * d) <= (2 * m + d) / (2 * d) <= l
    ensures (2 * 0 + d) / (2 * d) == 0 && (2 * (d * l) + d) / (2 * d) == l
  {
    hide *;
    RoundingMonotone(n, m, d);
    Rounding(m, d, l);
    Rounding(0, d, l);
    Rounding(d * l, d, l);
  }

  lemma BucketIsRounding(v: int, lo: int, hi: int, levels: int)
    requires lo < hi && levels >= 1 && lo <= v <= hi
    ensures (v - lo) * (levels - 1) >= 0
    ensures Bucket(v, lo, hi, levels) == (2 * ((v - lo) * (levels - 1)) + (hi - lo)) / (2 * (hi - lo))
  {
    MulLess(0, v - lo, levels - 1);
  }

  function SumOf(px: seq<nat>, keys: seq<int>, b: int): (r: nat)
    requires |px| == |keys|
  {
    if px == [] then 0
    else SumOf(px[..|px| - 1], keys[..|px| - 1], b) + if keys[|px| - 1] == b then px[|px| - 1] else 0
  }

  function CountOf(keys: seq<int>, b: int): (r: nat) {
    if keys == [] then 0 else CountOf(keys[..|keys| - 1], b) + if keys[|keys| - 1] == b then 1 else 0
  }

  lemma {:induction false} CountPositive(keys: seq<int>, b: int)
    ensures CountOf(keys, b) > 0 <==> b in keys
    decreases |keys|
  {
    if keys != [] {
      CountPositive(keys[..|keys| - 1], b);
      assert keys == keys[..|keys| - 1] + [keys[|keys| - 1]];
    }
  }

  /** int(sum / count + 0.5). */
  function RoundedMean(sum: nat, count: nat): (r: nat)
    requires count > 0
  {
    (2 * sum + count) / (2 * count)
  }

  /** The whole number nearest to the mean; of two, the higher. */
  lemma RoundedMeanIsNearest(sum: nat, count: nat)
    requires count > 0
    ensures 2 * sum - count < 2 * (RoundedMean(sum, count) * count) <= 2 * sum + count
  {
    var n, d := 2 * sum + count, 2 * count;
    Division(n, d);
    assert RoundedMean(sum, count) * d == 2 * (RoundedMean(sum, count) * count);
  }

  /** The bucket is the whole number nearest to the tone's place on the ladder of levels; of two, the higher. */
  lemma BucketIsNearest(v: int, lo: int, hi: int, levels: int)
    requires lo < hi && levels >= 1 && lo <= v <= hi
    ensures var d, place := hi - lo, (v - lo) * (levels - 1);
      2 * place - d < 2 * (Bucket(v, lo, hi, levels) * d) <= 2 * place + d
  {
    hide Bucket;
    var d, place := hi - lo, (v - lo) * (levels - 1);
    BucketIsRounding(v, lo, hi, levels);
    Division(2 * place + d, 2 * d);
    var b := Bucket(v, lo, hi, levels);
    assert b * (2 * d) == 2 * (b * d);
  }

  /** One tone for each bucket in use: the rounded mean of its pixels. */
  method Tones(px: seq<nat>, keys: seq<int>) returns (tone: map<int, nat>)
    requires |px| == |keys|
    ensures forall b :: b in tone <==> b in keys
    ensures forall b :: b in keys ==> CountOf(keys, b) > 0 && tone[b] == RoundedMean(SumOf(px, keys, b), CountOf(keys, b))
  {
    var sums: map<int, nat>, counts: map<int, nat> := map[], map[];
    for i := 0 to |px|
      invariant forall b :: b in sums <==> b in keys[..i]
      invariant sums.Keys == counts.Keys
      invariant forall b :: b in sums ==> sums[b] == SumOf(px[..i], keys[..i], b) && counts[b] == CountOf(keys[..i], b)
    {
      var b := keys[i];
      assert px[..i + 1][..i] == px[..i] && keys[..i + 1][..i] == keys[..i];
      if b !in sums {
        NotYetSeen(px[..i], keys[..i], b);
      }
      sums := sums[b := (if b in sums then sums[b] else 0) + px[i]];
      counts := counts[b := (if b in counts then counts[b] else 0) + 1];
    }
    assert px[..|px|] == px && keys[..|px|] == keys;
    forall b | b in keys
      ensures CountOf(keys, b) > 0
    {
      CountPositive(keys, b);
    }
    tone := map b | b in sums :: RoundedMean(sums[b], counts[b]);
  }

  lemma {:induction false} NotYetSeen(px: seq<nat>, keys: seq<int>, b: int)
    requires |px| == |keys| && b !in keys
    ensures SumOf(px, keys, b) == 0 && CountOf(keys, b) == 0
    decreases |px|
  {
    if px != [] {
      NotYetSeen(px[..|px| - 1], keys[..|px| - 1], b);
    }
  }

  /** A bucket's tone lies between the darkest and the lightest pixel in it. */
  lemma ToneWithinBucket(px: seq<nat>, keys: seq<int>, b: int, lo: nat, hi: nat)
    requires |px| == |keys| && CountOf(keys, b) > 0
    requires forall i :: 0 <= i < |px| && keys[i] == b ==> lo <= px[i] <= hi
    ensures lo <= RoundedMean(SumOf(px, keys, b), CountOf(keys, b)) <= hi
  {
    SumBounds(px, keys, b, lo, hi);
    MeanBounds(SumOf(px, keys, b), CountOf(keys, b), lo, hi);
  }

  lemma MeanBounds(s: nat, n: nat, lo: nat, hi: nat)
    requires n > 0 && lo * n <= s <= hi * n
    ensures lo <= RoundedMean(s, n) <= hi
  {
    Doubled(lo, n);
    Doubled(hi + 1, n);
    MulNext(n, hi);
    DivBounds(2 * s + n, 2 * n, lo);
    DivBounds(2 * s + n, 2 * n, hi + 1);
  }

  lemma Doubled(a: nat, n: nat)
    ensures a * (2 * n) == 2 * (a * n)
  {
  }

  lemma MulNext(a: nat, c: nat)
    ensures a * (c + 1) == a * c + a
  {
  }

  lemma {:induction false} SumBounds(px: seq<nat>, keys: seq<int>, b: int, lo: nat, hi: nat)
    requires |px| == |keys|
    requires forall i :: 0 <= i < |px| && keys[i] == b ==> lo <= px[i] <= hi
    ensures lo * CountOf(keys, b) <= SumOf(px, keys, b) <= hi * CountOf(keys, b)
    decreases |px|
  {
    if px != [] {
      var c := CountOf(keys[..|px| - 1], b);
      SumBounds(px[..|px| - 1], keys[..|px| - 1], b, lo, hi);
      MulNext(lo, c);
      MulNext(hi, c);
    }
  }

  // ----- the emitted groups -----

  datatype Token = OpenGroup(fill: nat) | Shape(r: Rect) | CloseGroup

  /** A new group whenever the colour changes. */
  function Groups(order: seq<Rect>, tone: map<int, nat>, n: nat): (r: (seq<Token>, Option<int>))
    requires n <= |order| && forall r :: r in order ==> r.color in tone
    ensures n == 0 <==> r.1.None?
  {
    if n == 0 then ([], None)
    else
      var before, r := Groups(order, tone, n - 1), order[n - 1];
      var start := if before.1 == Some(r.color) then []
                   else (if before.1.Some? then [CloseGroup] else []) + [OpenGroup(tone[r.color])];
      (before.0 + start + [Shape(r)], Some(r.color))
  }

  method Emit(order: seq<Rect>, tone: map<int, nat>) returns (tokens: seq<Token>)
    requires forall r :: r in order ==> r.color in tone
    ensures tokens == Groups(order, tone, |order|).0 + [CloseGroup]
  {
    tokens := [];
    var cur: Option<int> := None;
    for i := 0 to |order|
      invariant (tokens, cur) == Groups(order, tone, i)
    {
      var r := order[i];
      ghost var before := tokens;
      ghost var start := if cur == Some(r.color) then []
                         else (if cur.Some? then [CloseGroup] else []) + [OpenGroup(tone[r.color])];
      if cur != Some(r.color) {
        if cur.Some? {
          tokens := tokens + [CloseGroup];
        }
        tokens := tokens + [OpenGroup(tone[r.color])];
        cur := Some(r.color);
      }
      assert tokens == before + start;
      tokens := tokens + [Shape(r)];
    }
    tokens := tokens + [CloseGroup];
  }

  /** A renderer at one pixel: the fill in force and the value painted so far. */
  datatype Brush = Brush(fill: nat, value: nat)

  function Render(tokens: seq<Token>, x: nat, y: nat, blank: nat): (res: Brush)
    decreases |tokens|
  {
    if tokens == [] then Brush(blank, blank)
    else
      var b, t := Render(tokens[..|tokens| - 1], x, y, blank), tokens[|tokens| - 1];
      match t
      case OpenGroup(f) => b.(fill := f)
      case Shape(r) => if Covers(r, x, y) then b.(value := b.fill) else b
      case CloseGroup => b
  }

  lemma RenderOne(tokens: seq<Token>, t: Token, x: nat, y: nat, blank: nat)
    ensures var b := Render(tokens, x, y, blank);
      Render(tokens + [t], x, y, blank) == match t
        case OpenGroup(f) => b.(fill := f)
        case Shape(r) => if Covers(r, x, y) then b.(value := b.fill) else b
        case CloseGroup => b
  {
    assert (tokens + [t])[..|tokens|] == tokens;
  }

  /** The value at a pixel is the tone of the last rectangle over it. */
  lemma {:induction false} GroupsRender(order: seq<Rect>, tone: map<int, nat>, n: nat, x: nat, y: nat, blank: nat, none: int)
    requires n <= |order| && none !in tone && forall r :: r in order ==> r.color in tone
    ensures var (tokens, cur) := Groups(order, tone, n);
      var b := Render(tokens, x, y, blank);
      var c := Painted(order[..n], x, y, none);
      && b.value == (if c in tone then tone[c] else blank)
      && (cur.Some? ==> cur.value in tone && b.fill == tone[cur.value])
  {
    hide Render, Groups, Painted;
    if n == 0 {
      StartRender(order, tone, x, y, blank, none);
    } else {
      GroupsRender(order, tone, n - 1, x, y, blank, none);
      var before, r := Groups(order, tone, n - 1), order[n - 1];
      assert r in order;
      GroupsStep(order, tone, n);
      PaintedStep(order, n, x, y, none);
      var t1 := if before.1 != Some(r.color) && before.1.Some? then before.0 + [CloseGroup] else before.0;
      var t2 := if before.1 != Some(r.color) then t1 + [OpenGroup(tone[r.color])] else t1;
      RenderOne(before.0, CloseGroup, x, y, blank);
      RenderOne(t1, OpenGroup(tone[r.color]), x, y, blank);
      RenderOne(t2, Shape(r), x, y, blank);
    }
  }

  lemma StartRender(order: seq<Rect>, tone: map<int, nat>, x: nat, y: nat, blank: nat, none: int)
    requires forall r :: r in order ==> r.color in tone
    ensures Groups(order, tone, 0) == ([], None) && Render([], x, y, blank) == Brush(blank, blank)
    ensures Painted(order[..0], x, y, none) == none
  {
  }

  lemma GroupsStep(order: seq<Rect>, tone: map<int, nat>, n: nat)
    requires 0 < n <= |order| && forall r :: r in order ==> r.color in tone
    ensures order[n - 1].color in tone
    ensures var before, r := Groups(order, tone, n - 1), order[n - 1];
      var t1 := if before.1 != Some(r.color) && before.1.Some? then before.0 + [CloseGroup] else before.0;
      var t2 := if before.1 != Some(r.color) then t1 + [OpenGroup(tone[r.color])] else t1;
      Groups(order, tone, n) == (t2 + [Shape(r)], Some(r.color))
  {
    assert order[n - 1] in order;
    var before, r := Groups(order, tone, n - 1), order[n - 1];
    var t1 := if before.1 != Some(r.color) && before.1.Some? then before.0 + [CloseGroup] else before.0;
    var t2 := if before.1 != Some(r.color) then t1 + [OpenGroup(tone[r.color])] else t1;
    assert Groups(order, tone, n).0 == t2 + [Shape(r)];
  }

  lemma PaintedStep(order: seq<Rect>, n: nat, x: nat, y: nat, none: int)
    requires 0 < n <= |order|
    ensures Painted(order[..n], x, y, none)
         == if Covers(order[n - 1], x, y) then order[n - 1].color else Painted(order[..n - 1], x, y, none)
  {
    assert order[..n][..n - 1] == order[..n - 1];
  }

  // ----- the whole conversion -----

  function Rows(grid: seq<int>, w: nat, h: nat): (rows: Grid)
    requires |grid| == w * h
    ensures |rows| == h && forall y :: 0 <= y < h ==> |rows[y]| == w
  {
    seq(h, y requires 0 <= y < h => RowAt(grid, w, h, y))
  }

  function RowAt(grid: seq<int>, w: nat, h: nat, y: nat): (row: seq<int>)
    requires |grid| == w * h && y < h
    ensures |row| == w
    ensures forall x :: 0 <= x < w ==> 0 <= y * w + x < |grid| && row[x] == grid[y * w + x]
  {
    MulLess(y, h, w);
    assert (y + 1) * w == y * w + w;
    grid[y * w..(y + 1) * w]
  }

  /** Pixels lie row after row. */
  lemma PixelAt(grid: seq<int>, w: nat, h: nat, x: nat, y: nat)
    requires |grid| == w * h && x < w && y < h
    ensures y * w + x < |grid| && Rows(grid, w, h)[y][x] == grid[y * w + x]
  {
    assert Rows(grid, w, h)[y] == RowAt(grid, w, h, y);
  }

  /** The source gives up on an image without pixels or with one tone. */
  datatype Picture = NoPixels | SingleTone | Picture(tokens: seq<Token>)

  predicate IsRange(px: seq<nat>, lo: nat, hi: nat) {
    lo in px && hi in px && forall i :: 0 <= i < |px| ==> lo <= px[i] <= hi
  }

  /** Every pixel shows the rounded mean of its bucket. */
  ghost predicate Shows(tokens: seq<Token>, px: seq<nat>, w: nat, h: nat, lo: nat, hi: nat, levels: int)
    requires |px| == w * h && lo < hi
  {
    var keys := seq(|px|, i requires 0 <= i < |px| => Bucket(px[i], lo, hi, levels));
    forall x, y :: 0 <= x < w && 0 <= y < h ==>
      var b := Rows(keys, w, h)[y][x];
      CountOf(keys, b) > 0 && Render(tokens, x, y, 0).value == RoundedMean(SumOf(px, keys, b), CountOf(keys, b))
  }

  /** min and max of the pixels, the two-line range of the source. */
  method Range(px: seq<nat>) returns (lo: nat, hi: nat)
    requires px != []
    ensures IsRange(px, lo, hi)
  {
    lo, hi := px[0], px[0];
    for i := 1 to |px|
      invariant lo in px && hi in px && forall k :: 0 <= k < i ==> lo <= px[k] <= hi
    {
      if px[i] < lo {
        lo := px[i];
      }
      if px[i] > hi {
        hi := px[i];
      }
    }
  }

  lemma RangeUnique(px: seq<nat>, lo: nat, hi: nat, lo': nat, hi': nat)
    requires IsRange(px, lo, hi) && IsRange(px, lo', hi')
    ensures lo == lo' <= hi == hi'
  {
  }

  /**
   * The SVG renders every pixel in the tone of its bucket. `sort` is the list sort, of which
   * only that it permutes is needed.
   */
  method Convert(px: seq<nat>, w: nat, h: nat, levels: int, sort: seq<Rect> -> seq<Rect>)
    returns (out: Picture)
    requires |px| == w * h
    requires forall s :: multiset(sort(s)) == multiset(s)
    ensures out.NoPixels? <==> px == []
    ensures out.SingleTone? <==> exists v: nat :: IsRange(px, v, v)
    ensures out.Picture? ==> forall lo: nat, hi: nat :: IsRange(px, lo, hi) ==>
      lo < hi && Shows(out.tokens, px, w, h, lo, hi, levels)
  {
    hide IsRange, Shows;
    if px == [] {
      NoRange();
      return NoPixels;
    }
    var l, u := Range(px);
    if u == l {
      return SingleTone;
    }
    forall lo: nat, hi: nat | IsRange(px, lo, hi)
      ensures lo == l && hi == u && l < u
    {
      RangeUnique(px, l, u, lo, hi);
    }
    var tokens := Draw(px, w, h, levels, l, u, sort);
    out := Picture(tokens);
  }

  lemma NoRange()
    ensures forall v: nat :: !IsRange([], v, v)
  {
  }

  method Draw(px: seq<nat>, w: nat, h: nat, levels: int, lo: nat, hi: nat, sort: seq<Rect> -> seq<Rect>)
    returns (tokens: seq<Token>)
    requires |px| == w * h && lo < hi
    requires forall s :: multiset(sort(s)) == multiset(s)
    ensures Shows(tokens, px, w, h, lo, hi, levels)
  {
    hide Bucket, Maximal, CountOf, SumOf, Groups, Render;
    var keys := seq(|px|, i requires 0 <= i < |px| => Bucket(px[i], lo, hi, levels));
    var tone := Tones(px, keys);
    var rows := Rows(keys, w, h);
    var rects := Trace(rows);
    var order := sort(rects);
    RectColorsHaveTones(keys, w, h, rects, order, tone);
    tokens := Emit(order, tone);
    forall x: nat, y: nat | x < w && y < h
      ensures CountOf(keys, rows[y][x]) > 0
      ensures Render(tokens, x, y, 0).value
           == RoundedMean(SumOf(px, keys, rows[y][x]), CountOf(keys, rows[y][x]))
    {
      PixelRendered(keys, w, h, rects, order, tone, x, y);
    }
  }

  lemma PixelInKeys(keys: seq<int>, w: nat, h: nat, x: nat, y: nat)
    requires |keys| == w * h && x < w && y < h
    ensures Rows(keys, w, h)[y][x] in keys
  {
    assert RowAt(keys, w, h, y)[x] == keys[y * w + x];
  }

  lemma RectColorsHaveTones(keys: seq<int>, w: nat, h: nat, rects: seq<Rect>, order: seq<Rect>, tone: map<int, nat>)
    requires |keys| == w * h && multiset(order) == multiset(rects)
    requires forall r :: r in rects <==> Maximal(Rows(keys, w, h), r)
    requires forall b :: b in keys ==> b in tone
    ensures forall r :: r in order ==> r.color in tone
  {
    hide Rows;
    SameMembers(order, rects);
    forall r | r in order
      ensures r.color in tone
    {
      assert IsRun(Rows(keys, w, h)[r.y0], RunOf(r));
      PixelInKeys(keys, w, h, r.x0, r.y0);
    }
  }

  lemma PixelRendered(keys: seq<int>, w: nat, h: nat, rects: seq<Rect>, order: seq<Rect>, tone: map<int, nat>, x: nat, y: nat)
    requires |keys| == w * h && x < w && y < h && multiset(order) == multiset(rects)
    requires NoDuplicates(rects) && forall r :: r in rects <==> Maximal(Rows(keys, w, h), r)
    requires (forall b :: b in tone <==> b in keys) && forall r :: r in order ==> r.color in tone
    ensures var c := Rows(keys, w, h)[y][x];
      c in keys && Render(Groups(order, tone, |order|).0 + [CloseGroup], x, y, 0).value == tone[c]
  {
    hide Rows, Render, Groups, Painted, Maximal;
    var none := Absent(tone.Keys);
    PixelInKeys(keys, w, h, x, y);
    AnyOrderPaintsPicture(Rows(keys, w, h), rects, order, x, y, none);
    GroupsRender(order, tone, |order|, x, y, 0, none);
    assert order[..|order|] == order;
    RenderOne(Groups(order, tone, |order|).0, CloseGroup, x, y, 0);
  }

  /** A colour no rectangle has. */
  lemma {:induction false} Absent(s: set<int>) returns (n: int)
    ensures forall k :: k in s ==> k < n
  {
    if k :| k in s {
      var m := Absent(s - {k});
      n := if k < m then m else k + 1;
      assert forall j :: j in s ==> j == k || j in s - {k};
    } else {
      n := 0;
    }
  }
}
