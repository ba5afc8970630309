/**
  The canvas proxy of the chart renderer, which drops superfluous moveTo and
  lineTo calls: it holds back the actions of one pixel column, compresses them,
  and passes them on when the column ends or the path is painted.

  Coordinates are exact reals.
*/
module CanvasProxy {

  datatype Option<T> = None | Some(value: T)

  datatype Point = Point(x: real, y: real)

  /** The calls a renderer makes, and those that reach the canvas. */
  datatype Cmd = LineTo(p: Point) | MoveTo(p: Point) | Stroke | Fill | BeginPath | ClosePath

  type Action = c: Cmd | c.LineTo? || c.MoveTo? witness MoveTo(Point(0.0, 0.0))

  // ---------------------------------------------------------------- what a canvas draws

  /** A segment asked for, an edge by which fill closes a subpath on its own, and the calls that paint or begin. */
  datatype Mark = Seg(from: Point, to: Point) | Edge(from: Point, to: Point) | Painted(fill: bool) | NewPath

  /** No subpath yet; or where the pen is, where its subpath began, and the edges that close the subpaths before it. */
  datatype Pen = Empty | Pen(at: Point, start: Point, shut: seq<Mark>)

  /** The edge from one point to another, if they differ. */
  function Gap(p: Point, q: Point): seq<Mark> {
    if p == q then [] else [Edge(p, q)]
  }

  /** The edges by which fill closes all open subpaths. */
  function Outline(pen: Pen): seq<Mark> {
    if pen.Empty? then [] else pen.shut + Gap(pen.at, pen.start)
  }

  function At(pen: Pen): Option<Point> {
    if pen.Empty? then None else Some(pen.at)
  }

  function DrawOne(c: Cmd, pen: Pen): (seq<Mark>, Pen) {
    match c
    case LineTo(p) => if pen.Empty? then ([], Pen(p, p, [])) else ([Seg(pen.at, p)], pen.(at := p))
    case MoveTo(p) => ([], Pen(p, p, Outline(pen)))
    case Stroke => ([Painted(false)], pen)
    case Fill => (Outline(pen) + [Painted(true)], pen)
    case BeginPath => ([NewPath], Empty)
    case ClosePath => if pen.Empty? then ([], pen) else ([Seg(pen.at, pen.start)], pen.(at := pen.start))
  }

  /** Everything drawn, in order. */
  function Marks(cs: seq<Cmd>, pen: Pen): seq<Mark>
    decreases |cs|
  {
    if cs == [] then [] else DrawOne(cs[0], pen).0 + Marks(cs[1..], DrawOne(cs[0], pen).1)
  }

  function PenAfter(cs: seq<Cmd>, pen: Pen): Pen
    decreases |cs|
  {
    if cs == [] then pen else PenAfter(cs[1..], DrawOne(cs[0], pen).1)
  }

  /** The two lists draw the same marks and leave the pen in the same place, from any pen. */
  ghost predicate SameDrawing(a: seq<Cmd>, b: seq<Cmd>) {
    forall pen: Pen :: Marks(a, pen) == Marks(b, pen) && At(PenAfter(a, pen)) == At(PenAfter(b, pen))
  }

  /** They also leave the same subpaths, so that whatever follows draws the same. */
  ghost predicate SamePath(a: seq<Cmd>, b: seq<Cmd>) {
    forall pen: Pen :: Marks(a, pen) == Marks(b, pen) && PenAfter(a, pen) == PenAfter(b, pen)
  }

  lemma {:induction false} DrawConcat(a: seq<Cmd>, b: seq<Cmd>, pen: Pen)
    ensures Marks(a + b, pen) == Marks(a, pen) + Marks(b, PenAfter(a, pen))
    ensures PenAfter(a + b, pen) == PenAfter(b, PenAfter(a, pen))
    decreases |a|
  {
    hide DrawOne;
    if a == [] {
      assert a + b == b;
    } else {
      DrawConcat(a[1..], b, DrawOne(a[0], pen).1);
      assert (a + b)[1..] == a[1..] + b;
    }
  }

  lemma DrawSnoc(a: seq<Cmd>, c: Cmd, pen: Pen)
    ensures Marks(a + [c], pen) == Marks(a, pen) + DrawOne(c, PenAfter(a, pen)).0
    ensures PenAfter(a + [c], pen) == DrawOne(c, PenAfter(a, pen)).1
  {
    DrawConcat(a, [c], pen);
    assert [c][1..] == [];
  }

  /** No call that draws the line back to where a subpath began. */
  predicate ClosesNothing(cs: seq<Cmd>) {
    ClosePath !in cs && Fill !in cs
  }

  /** Where a subpath began matters to closing it only. */
  lemma {:induction false} StartUnseen(cs: seq<Cmd>, pen: Pen, other: Pen)
    requires ClosesNothing(cs) && At(pen) == At(other)
    ensures Marks(cs, pen) == Marks(cs, other) && At(PenAfter(cs, pen)) == At(PenAfter(cs, other))
    decreases |cs|
  {
    if cs != [] {
      StartUnseen(cs[1..], DrawOne(cs[0], pen).1, DrawOne(cs[0], other).1);
    }
  }

  lemma SameDrawingConcat(a: seq<Cmd>, b: seq<Cmd>, c: seq<Cmd>, d: seq<Cmd>)
    requires SameDrawing(a, b) && SameDrawing(c, d) && ClosesNothing(c) && ClosesNothing(d)
    ensures SameDrawing(a + c, b + d)
  {
    forall pen: Pen
      ensures Marks(a + c, pen) == Marks(b + d, pen) && At(PenAfter(a + c, pen)) == At(PenAfter(b + d, pen))
    {
      DrawConcat(a, c, pen);
      DrawConcat(b, d, pen);
      assert Marks(a, pen) == Marks(b, pen);
      StartUnseen(c, PenAfter(a, pen), PenAfter(b, pen));
      assert Marks(c, PenAfter(b, pen)) == Marks(d, PenAfter(b, pen));
    }
  }

  /** Lists with the same path may stand for each other anywhere. */
  lemma SamePathConcat(a: seq<Cmd>, b: seq<Cmd>, c: seq<Cmd>, d: seq<Cmd>)
    requires SamePath(a, b) && SamePath(c, d)
    ensures SamePath(a + c, b + d)
  {
    forall pen: Pen
      ensures Marks(a + c, pen) == Marks(b + d, pen) && PenAfter(a + c, pen) == PenAfter(b + d, pen)
    {
      DrawConcat(a, c, pen);
      DrawConcat(b, d, pen);
      assert Marks(a, pen) == Marks(b, pen);
      assert Marks(c, PenAfter(b, pen)) == Marks(d, PenAfter(b, pen));
    }
  }

  // ---------------------------------------------------------------- subsequences

  predicate Subseq(a: seq<Cmd>, b: seq<Cmd>)
    decreases |b|
  {
    if a == [] then true
    else if b == [] then false
    else (a[0] == b[0] && Subseq(a[1..], b[1..])) || Subseq(a, b[1..])
  }

  lemma {:induction false} SubseqSelf(a: seq<Cmd>)
    ensures Subseq(a, a)
    decreases |a|
  {
    if a != [] {
      SubseqSelf(a[1..]);
    }
  }

  lemma {:induction false} SubseqConcat(a: seq<Cmd>, b: seq<Cmd>, c: seq<Cmd>, d: seq<Cmd>)
    requires Subseq(a, b) && Subseq(c, d)
    ensures Subseq(a + c, b + d)
    decreases |b|
  {
    if b == [] {
      assert a + c == c && b + d == d;
    } else {
      assert (b + d)[1..] == b[1..] + d;
      if a != [] && a[0] == b[0] && Subseq(a[1..], b[1..]) {
        SubseqConcat(a[1..], b[1..], c, d);
        assert (a + c)[1..] == a[1..] + c;
      } else {
        SubseqConcat(a, b[1..], c, d);
        assert a + c == [] || (a + c)[0] == (a + c)[0];
      }
    }
  }

  lemma {:induction false} SubseqTrans(a: seq<Cmd>, b: seq<Cmd>, c: seq<Cmd>)
    requires Subseq(a, b) && Subseq(b, c)
    ensures Subseq(a, c)
    decreases |b| + |c|
  {
    if a != [] && b != [] {
      if b[0] == c[0] && Subseq(b[1..], c[1..]) {
        if a[0] == b[0] && Subseq(a[1..], b[1..]) {
          SubseqTrans(a[1..], b[1..], c[1..]);
        } else {
          SubseqTrans(a, b[1..], c[1..]);
        }
      } else {
        SubseqTrans(a, b, c[1..]);
      }
    }
  }

  // ---------------------------------------------------------------- lossless compression

  /** `b` is a moveTo to where `a` has just left the pen. */
  predicate Repeats(a: Action, b: Action) {
    b.MoveTo? && a.p == b.p
  }

  /** Drop every moveTo that repeats its predecessor's point. */
  function WithoutRepeats(a: seq<Action>): (r: seq<Action>)
    decreases |a|
  {
    if |a| <= 1 then a
    else if Repeats(a[|a| - 2], a[|a| - 1]) then WithoutRepeats(a[..|a| - 1])
    else WithoutRepeats(a[..|a| - 1]) + [a[|a| - 1]]
  }

  /** Of every run of moveTos keep the last. */
  function LastOfRuns(a: seq<Action>): (r: seq<Action>)
    decreases |a|
  {
    if |a| <= 1 then a
    else if a[0].MoveTo? && a[1].MoveTo? then LastOfRuns(a[1..])
    else [a[0]] + LastOfRuns(a[1..])
  }

  predicate NoAdjacentMoves(a: seq<Action>) {
    forall i :: 0 <= i < |a| - 1 ==> !(a[i].MoveTo? && a[i + 1].MoveTo?)
  }

  lemma PenAtLast(a: seq<Action>, pen: Pen)
    requires a != []
    ensures var x := PenAfter(a, pen); x.Pen? && x.at == a[|a| - 1].p
  {
    assert a == a[..|a| - 1] + [a[|a| - 1]];
    DrawSnoc(a[..|a| - 1], a[|a| - 1], pen);
  }

  lemma ActionsCloseNothing(a: seq<Action>)
    ensures ClosesNothing(a)
  {
  }

  lemma {:induction false} WithoutRepeatsDraws(a: seq<Action>)
    ensures SameDrawing(WithoutRepeats(a), a)
    ensures Subseq(WithoutRepeats(a), a)
    decreases |a|
  {
    if |a| <= 1 {
      SubseqSelf(a);
    } else {
      var init, last := a[..|a| - 1], a[|a| - 1];
      WithoutRepeatsDraws(init);
      assert a == init + [last];
      ActionsCloseNothing([last]);
      if Repeats(a[|a| - 2], last) {
        forall pen: Pen
          ensures Marks(a, pen) == Marks(init, pen) && At(PenAfter(a, pen)) == At(PenAfter(init, pen))
        {
          DrawSnoc(init, last, pen);
          PenAtLast(init, pen);
        }
        SubseqSelf(init);
        SubseqConcat(init, init, [], [last]);
        assert init + [] == init;
        SubseqTrans(WithoutRepeats(a), init, a);
      } else {
        SameDrawingConcat(WithoutRepeats(init), init, [last], [last]);
        SubseqSelf([last]);
        SubseqConcat(WithoutRepeats(init), init, [last], [last]);
      }
    }
  }

  /** Keeping the last of a run of moveTos keeps the whole path: a subpath of one point closes with nothing. */
  lemma {:induction false} LastOfRunsDraws(a: seq<Action>)
    ensures SamePath(LastOfRuns(a), a) && Subseq(LastOfRuns(a), a) && NoAdjacentMoves(LastOfRuns(a))
    ensures a != [] ==> LastOfRuns(a) != [] && (a[0].LineTo? ==> LastOfRuns(a)[0] == a[0])
    decreases |a|
  {
    if |a| <= 1 {
      SubseqSelf(a);
    } else {
      var tail := a[1..];
      LastOfRunsDraws(tail);
      assert a == [a[0]] + tail;
      if a[0].MoveTo? && a[1].MoveTo? {
        forall pen: Pen
          ensures Marks(LastOfRuns(a), pen) == Marks(a, pen) && PenAfter(LastOfRuns(a), pen) == PenAfter(a, pen)
        {
          MoveTwice(a[0], a[1], pen);
        }
      } else {
        SamePathConcat([a[0]], [a[0]], LastOfRuns(tail), tail);
        if a[0].MoveTo? {
          assert LastOfRuns(tail)[0] == a[1];
        }
      }
    }
  }

  lemma MoveTwice(m: Cmd, n: Cmd, pen: Pen)
    requires m.MoveTo? && n.MoveTo?
    ensures DrawOne(n, DrawOne(m, pen).1) == DrawOne(n, pen)
  {
    assert Outline(pen) + [] == Outline(pen);
  }

  /** The whole lossless phase. */
  function Lossless(a: seq<Action>): seq<Action> {
    LastOfRuns(WithoutRepeats(a))
  }

  /** For every action list and every pen, the lossless phase draws the same segments and ends at the same point. */
  lemma LosslessDrawsTheSame(a: seq<Action>)
    ensures SameDrawing(Lossless(a), a) && Subseq(Lossless(a), a) && NoAdjacentMoves(Lossless(a))
  {
    WithoutRepeatsDraws(a);
    LastOfRunsDraws(WithoutRepeats(a));
    SubseqTrans(Lossless(a), WithoutRepeats(a), a);
  }

  /** Both loops drop moveTos only. */
  lemma {:induction false} WithoutRepeatsKeepsLines(a: seq<Action>, c: Action)
    requires c in a && c.LineTo?
    ensures c in WithoutRepeats(a)
    decreases |a|
  {
    if |a| > 1 {
      var init := a[..|a| - 1];
      assert a == init + [a[|a| - 1]];
      if c in init {
        WithoutRepeatsKeepsLines(init, c);
      }
    }
  }

  lemma {:induction false} LastOfRunsKeepsLines(a: seq<Action>, c: Action)
    requires c in a && c.LineTo?
    ensures c in LastOfRuns(a)
    decreases |a|
  {
    if |a| > 1 {
      assert a == [a[0]] + a[1..];
      if c in a[1..] {
        LastOfRunsKeepsLines(a[1..], c);
      }
    }
  }

  lemma LosslessKeepsLines(a: seq<Action>, c: Action)
    requires c in a && c.LineTo?
    ensures c in Lossless(a)
  {
    WithoutRepeatsKeepsLines(a, c);
    LastOfRunsKeepsLines(WithoutRepeats(a), c);
  }

  lemma WithoutRepeatsSnoc(a: seq<Action>, c: Action)
    requires a != []
    ensures WithoutRepeats(a + [c]) == if Repeats(a[|a| - 1], c) then WithoutRepeats(a) else WithoutRepeats(a) + [c]
  {
    assert (a + [c])[..|a|] == a;
  }

  /** What the first loop decides about action `i`. */
  lemma RepeatDropped(was: seq<Action>, i: nat)
    requires 0 < i < |was|
    ensures WithoutRepeats(was[..i + 1])
         == WithoutRepeats(was[..i]) + if was[i].MoveTo? && was[i - 1].p.x == was[i].p.x && was[i - 1].p.y == was[i].p.y then [] else [was[i]]
  {
    assert was[..i + 1] == was[..i] + [was[i]];
    WithoutRepeatsSnoc(was[..i], was[i]);
  }

  lemma WithoutRepeatsShort(a: seq<Action>)
    requires |a| <= 1
    ensures WithoutRepeats(a) == a
  {
  }

  // ---------------------------------------------------------------- what closing sees of it

  /** The last action is a moveTo that the first loop drops. */
  predicate DropsLast(a: seq<Action>) {
    |a| > 1 && Repeats(a[|a| - 2], a[|a| - 1])
  }

  /** Where the last moveTo of the list begins a subpath. */
  function AskedStart(a: seq<Action>): Option<Point>
    decreases |a|
  {
    if a == [] then None
    else if a[|a| - 1].MoveTo? then Some(a[|a| - 1].p) else AskedStart(a[..|a| - 1])
  }

  /** Where the last moveTo that is not dropped does. */
  function KeptStart(a: seq<Action>): Option<Point>
    decreases |a|
  {
    if a == [] then None
    else if a[|a| - 1].MoveTo? && !DropsLast(a) then Some(a[|a| - 1].p) else KeptStart(a[..|a| - 1])
  }

  /** The path is kept; or its last subpath joins two that only a return to the second one's start hides; or neither. */
  datatype Kept = Whole | Joined | Broken

  /** Read from the front, one action at a time, what dropping the repeated moveTos does to the path. */
  function PathKept(a: seq<Action>): Kept
    decreases |a|, 0
  {
    if a == [] then Whole
    else
      var init, last := a[..|a| - 1], a[|a| - 1];
      if last.LineTo? then PathKept(init)
      else if !DropsLast(a) then (if FillKept(init) then Whole else Broken)
      else if a[|a| - 2].MoveTo? || AskedStart(init) == Some(last.p) then PathKept(init)
      else if PathKept(init) == Whole then Joined
      else Broken
  }

  /** The pen is where the last subpath asked for began, or nothing was joined. */
  predicate FillKept(a: seq<Action>)
    decreases |a|, 1
  {
    PathKept(a) == Whole || (PathKept(a) == Joined && AskedStart(a) == Some(a[|a| - 1].p))
  }

  lemma {:induction false} StartsWithin(a: seq<Action>)
    ensures AskedStart(a).Some? ==> exists c :: c in a && c.p == AskedStart(a).value
    ensures KeptStart(a).Some? ==> AskedStart(a).Some?
    decreases |a|
  {
    if a != [] {
      StartsWithin(a[..|a| - 1]);
      assert a[|a| - 1] in a;
    }
  }

  /** A pen in a subpath that began at none of the list's points. */
  predicate Elsewhere(pen: Pen, a: seq<Action>) {
    pen.Pen? && forall c :: c in a ==> c.p != pen.start
  }

  lemma {:induction false} ElsewhereExists(a: seq<Action>) returns (pen: Pen, m: real)
    ensures Elsewhere(pen, a) && pen == Pen(Point(m, 0.0), Point(m, 0.0), [])
    ensures forall c :: c in a ==> c.p.x < m
    decreases |a|
  {
    m := 0.0;
    if a != [] {
      var _, n := ElsewhereExists(a[1..]);
      m := (if n > a[0].p.x then n else a[0].p.x) + 1.0;
      assert a == [a[0]] + a[1..];
    }
    pen := Pen(Point(m, 0.0), Point(m, 0.0), []);
  }

  /** The start of the current subpath is that of the last moveTo, or the pen's own. */
  lemma {:induction false} StartAfter(a: seq<Action>, pen: Pen)
    requires pen.Pen?
    ensures PenAfter(a, pen).Pen?
    ensures PenAfter(a, pen).start == if AskedStart(a).Some? then AskedStart(a).value else pen.start
    ensures PenAfter(WithoutRepeats(a), pen).Pen?
    ensures PenAfter(WithoutRepeats(a), pen).start == if KeptStart(a).Some? then KeptStart(a).value else pen.start
    decreases |a|
  {
    if a != [] {
      var init, last := a[..|a| - 1], a[|a| - 1];
      assert a == init + [last];
      StartAfter(init, pen);
      DrawSnoc(init, last, pen);
      if init != [] {
        WithoutRepeatsSnoc(init, last);
        DrawSnoc(WithoutRepeats(init), last, pen);
      } else {
        assert WithoutRepeats(a) == a && WithoutRepeats(init) == init;
      }
    }
  }

  /** The two pens behind a list and behind what the first loop leaves of it, where only one joined subpath differs. */
  predicate OneJoined(x: Pen, y: Pen) {
    x.Pen? && y.Pen? && x.at == y.at && x.shut == y.shut + Gap(x.start, y.start)
  }

  /** The first pen has more closing edges than the second, and will have more however the subpath goes on. */
  predicate Longer(x: Pen, y: Pen) {
    && x.Pen? && y.Pen? && x.at == y.at
    && (|x.shut| >= |y.shut| + 2 || (|x.shut| >= |y.shut| + 1 && x.start == y.start))
  }

  /** What the three verdicts mean for the pens, one action after the other. */
  ghost predicate Tracks(a: seq<Action>, pen: Pen) {
    var x, y := PenAfter(a, pen), PenAfter(WithoutRepeats(a), pen);
    match PathKept(a)
    case Whole => x == y
    case Joined => OneJoined(x, y) && (Elsewhere(pen, a) ==> x.start != y.start)
    case Broken => Elsewhere(pen, a) ==> Longer(x, y)
  }

  /** A dropped restart, as the canvas would have taken it. */
  lemma DroppedTracks(init: seq<Action>, last: Action, pen: Pen)
    requires init != [] && Repeats(init[|init| - 1], last) && Tracks(init, pen)
    ensures Tracks(init + [last], pen)
  {
    var a := init + [last];
    assert a[..|a| - 1] == init;
    DrawSnoc(init, last, pen);
    WithoutRepeatsSnoc(init, last);
    PenAtLast(init, pen);
    var x, y := PenAfter(init, pen), PenAfter(WithoutRepeats(init), pen);
    if pen.Pen? {
      StartAfter(init, pen);
      StartsWithin(init);
    } else {
      StartInEmpty(init);
    }
    assert x.shut + [] == x.shut;
    if init[|init| - 1].MoveTo? || AskedStart(init) == Some(last.p) {
      assert DrawOne(last, x).1 == x;
    }
  }

  lemma StartInEmpty(a: seq<Action>)
    ensures a != [] ==> PenAfter(a, Empty).Pen?
    ensures AskedStart(a).Some? ==> PenAfter(a, Empty).Pen? && PenAfter(a, Empty).start == AskedStart(a).value
  {
    hide PenAfter, WithoutRepeats;
    if a != [] {
      StartFromEmpty(a);
    }
  }

  /** An action that stays. */
  lemma KeptTracks(init: seq<Action>, last: Action, pen: Pen)
    requires init != [] && !Repeats(init[|init| - 1], last) && Tracks(init, pen)
    ensures Tracks(init + [last], pen)
  {
    var a := init + [last];
    assert a[..|a| - 1] == init;
    DrawSnoc(init, last, pen);
    WithoutRepeatsSnoc(init, last);
    DrawSnoc(WithoutRepeats(init), last, pen);
    PenAtLast(init, pen);
    if pen.Pen? {
      StartAfter(init, pen);
      StartsWithin(init);
    } else {
      StartInEmpty(init);
    }
    if last.MoveTo? {
      OutlinesTrack(init, pen);
    }
  }

  lemma PathKeptShort(a: seq<Action>)
    requires |a| == 1
    ensures PathKept(a) == Whole
    ensures AskedStart(a) == KeptStart(a) == if a[0].MoveTo? then Some(a[0].p) else None
  {
    var init := a[..0];
    assert init == [] && PathKept(init) == Whole && FillKept(init);
    assert AskedStart(init) == KeptStart(init) == None;
  }

  lemma TracksShort(a: seq<Action>, pen: Pen)
    requires |a| <= 1
    ensures Tracks(a, pen)
  {
    if a != [] {
      PathKeptShort(a);
    }
  }

  lemma {:induction false} Tracking(a: seq<Action>, pen: Pen)
    ensures Tracks(a, pen)
    decreases |a|
  {
    hide PathKept, WithoutRepeats, PenAfter, Tracks;
    if |a| <= 1 {
      TracksShort(a, pen);
    } else {
      var init, last := a[..|a| - 1], a[|a| - 1];
      assert a == init + [last];
      Tracking(init, pen);
      if DropsLast(a) {
        DroppedTracks(init, last, pen);
      } else {
        KeptTracks(init, last, pen);
      }
    }
  }

  /** Filling at this point is the same for all pens, or differs for those that began elsewhere. */
  lemma OutlinesTrack(a: seq<Action>, pen: Pen)
    requires Tracks(a, pen)
    ensures FillKept(a) ==> Outline(PenAfter(a, pen)) == Outline(PenAfter(WithoutRepeats(a), pen))
    ensures !FillKept(a) && Elsewhere(pen, a) ==>
              |Outline(PenAfter(a, pen))| > |Outline(PenAfter(WithoutRepeats(a), pen))|
  {
    var x, y := PenAfter(a, pen), PenAfter(WithoutRepeats(a), pen);
    if a != [] {
      PenAtLast(a, pen);
      if pen.Pen? {
        StartAfter(a, pen);
        StartsWithin(a);
      } else {
        StartInEmpty(a);
      }
      assert x.shut + [] == x.shut;
    }
  }

  /** `WithoutRepeats` and `Lossless` leave the same path. */
  lemma LosslessPath(a: seq<Action>)
    ensures SamePath(Lossless(a), WithoutRepeats(a))
  {
    LastOfRunsDraws(WithoutRepeats(a));
  }

  /** Exactly when the lossless phase keeps the path, so that whatever follows it draws the same from any pen. */
  lemma PathKeptIff(a: seq<Action>)
    ensures SamePath(Lossless(a), a) <==> PathKept(a) == Whole
  {
    LosslessDrawsTheSame(a);
    LosslessPath(a);
    if PathKept(a) == Whole {
      forall pen: Pen
        ensures Marks(Lossless(a), pen) == Marks(a, pen) && PenAfter(Lossless(a), pen) == PenAfter(a, pen)
      {
        Tracking(a, pen);
      }
    } else {
      var pen, _ := ElsewhereExists(a);
      Tracking(a, pen);
      assert PenAfter(Lossless(a), pen) == PenAfter(WithoutRepeats(a), pen);
      assert PenAfter(Lossless(a), pen) != PenAfter(a, pen);
    }
  }

  lemma FilledMarks(a: seq<Action>, pen: Pen)
    ensures Marks(a + [Fill], pen) == Marks(a, pen) + (Outline(PenAfter(a, pen)) + [Painted(true)])
    ensures PenAfter(a + [Fill], pen) == PenAfter(a, pen)
  {
    DrawSnoc(a, Fill, pen);
  }

  /** Filling draws the same from this pen exactly if the outlines do not differ. */
  lemma FillComparesOutlines(a: seq<Action>, pen: Pen)
    ensures Marks(Lossless(a) + [Fill], pen) == Marks(a + [Fill], pen)
            <==> Outline(PenAfter(WithoutRepeats(a), pen)) == Outline(PenAfter(a, pen))
    ensures At(PenAfter(Lossless(a) + [Fill], pen)) == At(PenAfter(a + [Fill], pen))
  {
    LosslessDrawsTheSame(a);
    LosslessPath(a);
    FilledMarks(a, pen);
    FilledMarks(Lossless(a), pen);
    assert Marks(Lossless(a), pen) == Marks(a, pen) && PenAfter(Lossless(a), pen) == PenAfter(WithoutRepeats(a), pen);
    SuffixesCompare(Marks(a, pen), Outline(PenAfter(WithoutRepeats(a), pen)), Outline(PenAfter(a, pen)), [Painted(true)]);
  }

  lemma SuffixesCompare(m: seq<Mark>, s: seq<Mark>, t: seq<Mark>, e: seq<Mark>)
    ensures m + (s + e) == m + (t + e) <==> s == t
  {
    if m + (s + e) == m + (t + e) {
      assert s + e == (m + (s + e))[|m|..] == (m + (t + e))[|m|..] == t + e;
      assert |s + e| == |t + e|;
      assert s == (s + e)[..|s|] == (t + e)[..|t|] == t;
    }
  }

  /** Exactly when filling right after it fills within the same edges, from any pen. */
  lemma FillKeptIff(a: seq<Action>)
    ensures SameDrawing(Lossless(a) + [Fill], a + [Fill]) <==> FillKept(a)
  {
    hide Lossless, WithoutRepeats, FillKept, PathKept, Outline;
    forall pen: Pen
      ensures FillKept(a) ==> Marks(Lossless(a) + [Fill], pen) == Marks(a + [Fill], pen)
      ensures At(PenAfter(Lossless(a) + [Fill], pen)) == At(PenAfter(a + [Fill], pen))
    {
      Tracking(a, pen);
      OutlinesTrack(a, pen);
      FillComparesOutlines(a, pen);
    }
    if !FillKept(a) {
      var pen, _ := ElsewhereExists(a);
      Tracking(a, pen);
      OutlinesTrack(a, pen);
      FillComparesOutlines(a, pen);
      assert Marks(Lossless(a) + [Fill], pen) != Marks(a + [Fill], pen);
    }
  }

  /**
    Exactly when closing the path right after it closes to the same point, from any pen: the last moveTo is kept, or
    is at the point where the subpath that is kept began.
  */
  lemma CloseKeptIff(a: seq<Action>)
    ensures SameDrawing(Lossless(a) + [ClosePath], a + [ClosePath]) <==> KeptStart(a) == AskedStart(a)
  {
    LosslessDrawsTheSame(a);
    LosslessPath(a);
    forall pen: Pen
      ensures Marks(Lossless(a) + [ClosePath], pen) == Marks(a, pen) + DrawOne(ClosePath, PenAfter(WithoutRepeats(a), pen)).0
      ensures Marks(a + [ClosePath], pen) == Marks(a, pen) + DrawOne(ClosePath, PenAfter(a, pen)).0
      ensures At(PenAfter(Lossless(a) + [ClosePath], pen)) == At(DrawOne(ClosePath, PenAfter(WithoutRepeats(a), pen)).1)
      ensures At(PenAfter(a + [ClosePath], pen)) == At(DrawOne(ClosePath, PenAfter(a, pen)).1)
    {
      DrawSnoc(Lossless(a), ClosePath, pen);
      DrawSnoc(a, ClosePath, pen);
    }
    if KeptStart(a) == AskedStart(a) {
      forall pen: Pen
        ensures Marks(Lossless(a) + [ClosePath], pen) == Marks(a + [ClosePath], pen)
        ensures At(PenAfter(Lossless(a) + [ClosePath], pen)) == At(PenAfter(a + [ClosePath], pen))
      {
        StartsAgree(a, pen);
      }
    } else {
      var pen, _ := ElsewhereExists(a);
      StartAfter(a, pen);
      StartsWithin(a);
      assert PenAfter(a, pen).start != PenAfter(WithoutRepeats(a), pen).start;
      assert At(PenAfter(a + [ClosePath], pen)) != At(PenAfter(Lossless(a) + [ClosePath], pen));
    }
  }

  lemma StartsAgree(a: seq<Action>, pen: Pen)
    requires KeptStart(a) == AskedStart(a)
    ensures DrawOne(ClosePath, PenAfter(a, pen)).0 == DrawOne(ClosePath, PenAfter(WithoutRepeats(a), pen)).0
    ensures At(DrawOne(ClosePath, PenAfter(a, pen)).1) == At(DrawOne(ClosePath, PenAfter(WithoutRepeats(a), pen)).1)
  {
    WithoutRepeatsDraws(a);
    assert At(PenAfter(WithoutRepeats(a), pen)) == At(PenAfter(a, pen));
    if pen.Pen? {
      StartAfter(a, pen);
    } else if a != [] {
      StartFromEmpty(a);
    }
  }

  /** A list's first action begins a subpath if there is none. */
  lemma FromEmptyIsFromFirst(a: seq<Cmd>)
    requires a != [] && (a[0].LineTo? || a[0].MoveTo?)
    ensures PenAfter(a, Empty) == PenAfter(a, Pen(a[0].p, a[0].p, []))
  {
    var none: seq<Mark> := [];
    assert none + none == none;
  }

  lemma {:induction false} FirstStays(a: seq<Action>)
    requires a != []
    ensures WithoutRepeats(a) != [] && WithoutRepeats(a)[0] == a[0]
    decreases |a|
  {
    if |a| > 1 {
      FirstStays(a[..|a| - 1]);
    }
  }

  /** Without a pen, a list that begins with a line begins its subpath there. */
  lemma StartFromEmpty(a: seq<Action>)
    requires a != []
    ensures PenAfter(a, Empty).Pen? && PenAfter(WithoutRepeats(a), Empty).Pen?
    ensures PenAfter(a, Empty).start == if AskedStart(a).Some? then AskedStart(a).value else a[0].p
    ensures PenAfter(WithoutRepeats(a), Empty).start == if KeptStart(a).Some? then KeptStart(a).value else a[0].p
  {
    hide *;
    FirstStays(a);
    FromEmptyIsFromFirst(a);
    FromEmptyIsFromFirst(WithoutRepeats(a));
    StartAfter(a, Pen(a[0].p, a[0].p, []));
  }

  /** No moveTo is at the point of a lineTo right before it. */
  ghost predicate NoRetrace(cs: seq<Cmd>) {
    forall i, j :: 0 <= i < j < |cs| && j == i + 1 && cs[i].LineTo? && cs[j].MoveTo? ==> cs[i].p != cs[j].p
  }

  /** A renderer that begins its subpaths elsewhere than where the last line ended, as the fill plotter does, loses nothing. */
  lemma {:induction false} NoRetraceKeepsPath(a: seq<Action>)
    requires NoRetrace(a)
    ensures PathKept(a) == Whole && KeptStart(a) == AskedStart(a)
    decreases |a|
  {
    if a != [] {
      var init := a[..|a| - 1];
      assert forall i :: 0 <= i < |init| ==> init[i] == a[i];
      NoRetraceKeepsPath(init);
      if |a| > 1 {
        assert init[|a| - 2] == a[|a| - 2];
      }
    }
  }

  /** A point of a filled series as the plotter draws it, or a gap. */
  datatype FillPoint = FillPoint(x: real, y: Option<real>)

  ghost predicate LeftToRight(points: seq<FillPoint>) {
    forall i, j :: 0 <= i < j < |points| ==> points[i].x < points[j].x
  }

  /**
    The path calls of the fill plotter for the points of a plain series, `prevX` being the last point drawn: up from the
    base line where a stretch begins, along its points, and back down where it ends. Calls with a coordinate that is not
    a number, which a canvas ignores, are left out.
  */
  function FillPath(points: seq<FillPoint>, base: real, prevX: Option<real>): seq<Cmd>
    decreases |points|
  {
    if points == [] then []
    else if points[0].y.None? then FillStep(points[0], base, prevX) + FillPath(points[1..], base, None)
    else FillStep(points[0], base, prevX) + FillPath(points[1..], base, Some(points[0].x))
  }

  function FillStep(q: FillPoint, base: real, prevX: Option<real>): seq<Cmd> {
    match (q.y, prevX)
    case (None, Some(x)) => [LineTo(Point(x, base))]
    case (None, None) => []
    case (Some(y), Some(_)) => [LineTo(Point(q.x, y))]
    case (Some(y), None) => [MoveTo(Point(q.x, base)), LineTo(Point(q.x, y))]
  }

  lemma NoRetraceConcat(a: seq<Cmd>, b: seq<Cmd>)
    requires NoRetrace(a) && NoRetrace(b)
    requires a != [] && b != [] && a[|a| - 1].LineTo? && b[0].MoveTo? ==> a[|a| - 1].p != b[0].p
    ensures NoRetrace(a + b)
  {
    forall i, j | 0 <= i < j < |a + b| && j == i + 1 && (a + b)[i].LineTo? && (a + b)[j].MoveTo?
      ensures (a + b)[i].p != (a + b)[j].p
    {
      if j < |a| {
        assert a[i].p != a[j].p;
      } else if i >= |a| {
        assert b[i - |a|].p != b[j - |a|].p;
      }
    }
  }

  lemma {:induction false} FillPathGoesRight(points: seq<FillPoint>, base: real, prevX: Option<real>)
    requires LeftToRight(points)
    ensures var path := FillPath(points, base, prevX);
            path != [] && path[0].MoveTo? ==> points != [] && path[0].p.x >= points[0].x
    decreases |points|
  {
    if points != [] && FillStep(points[0], base, prevX) == [] {
      FillPathGoesRight(points[1..], base, None);
      assert FillPath(points, base, prevX) == FillPath(points[1..], base, None);
    }
  }

  /** The plotter never begins a stretch where a line has just ended: its points go from left to right. */
  lemma {:induction false} FillPathNeverRetraces(points: seq<FillPoint>, base: real, prevX: Option<real>)
    requires LeftToRight(points) && (prevX.Some? && points != [] ==> prevX.value < points[0].x)
    ensures NoRetrace(FillPath(points, base, prevX))
    decreases |points|
  {
    if points != [] {
      var next := if points[0].y.None? then None else Some(points[0].x);
      FillPathNeverRetraces(points[1..], base, next);
      FillPathGoesRight(points[1..], base, next);
      NoRetraceConcat(FillStep(points[0], base, prevX), FillPath(points[1..], base, next));
    }
  }

  /** With the last way down and the fill: all that the renderer asks of the proxy for one series. */
  lemma FilledSeriesNeverRetraces(points: seq<FillPoint>, base: real, endX: real)
    requires LeftToRight(points)
    ensures NoRetrace(FillPath(points, base, None) + [LineTo(Point(endX, base))] + [Fill])
  {
    FillPathNeverRetraces(points, base, None);
    var path := FillPath(points, base, None);
    NoRetraceConcat(path, [LineTo(Point(endX, base))]);
    NoRetraceConcat(path + [LineTo(Point(endX, base))], [Fill]);
  }

  /** And both verdicts can be negative: a joined triangle fills as a quadrilateral, and closes to another corner. */
  lemma ClosingSeesDroppedMove()
    ensures var a: seq<Action> := [MoveTo(Point(0.0, 0.0)), LineTo(Point(0.0, 1.0)), MoveTo(Point(0.0, 1.0)),
                                   LineTo(Point(1.0, 1.0)), LineTo(Point(1.0, 2.0))];
            !SameDrawing(Lossless(a) + [Fill], a + [Fill]) && !SameDrawing(Lossless(a) + [ClosePath], a + [ClosePath])
  {
    var m0: Action, l1: Action, m1: Action := MoveTo(Point(0.0, 0.0)), LineTo(Point(0.0, 1.0)), MoveTo(Point(0.0, 1.0));
    var l2: Action, l3: Action := LineTo(Point(1.0, 1.0)), LineTo(Point(1.0, 2.0));
    var a := [m0, l1, m1, l2, l3];
    assert a[..4] == [m0, l1, m1, l2] && a[..4][..3] == [m0, l1, m1] && [m0, l1, m1][..2] == [m0, l1] && [m0, l1][..1] == [m0];
    PathKeptShort([m0]);
    assert PathKept([m0, l1]) == Whole && AskedStart([m0, l1]) == Some(m0.p) == KeptStart([m0, l1]);
    assert PathKept([m0, l1, m1]) == Joined && AskedStart([m0, l1, m1]) == Some(m1.p) && KeptStart([m0, l1, m1]) == Some(m0.p);
    assert PathKept(a[..4]) == Joined && AskedStart(a[..4]) == Some(m1.p) && KeptStart(a[..4]) == Some(m0.p);
    FillKeptIff(a);
    CloseKeptIff(a);
  }

  // ---------------------------------------------------------------- lossy compression

  /** Of the first `n` actions, `i` is the first lineTo with the least y. */
  ghost predicate LowestOf(a: seq<Action>, n: nat, i: nat)
    requires n <= |a|
  {
    && i < n && a[i].LineTo?
    && (forall k :: 0 <= k < n && a[k].LineTo? ==> a[i].p.y <= a[k].p.y)
    && (forall k :: 0 <= k < i && a[k].LineTo? ==> a[i].p.y < a[k].p.y)
  }

  /** Of the first `n` actions, `i` is the first lineTo with the greatest y. */
  ghost predicate HighestOf(a: seq<Action>, n: nat, i: nat)
    requires n <= |a|
  {
    && i < n && a[i].LineTo?
    && (forall k :: 0 <= k < n && a[k].LineTo? ==> a[k].p.y <= a[i].p.y)
    && (forall k :: 0 <= k < i && a[k].LineTo? ==> a[k].p.y < a[i].p.y)
  }

  ghost predicate IsLowest(a: seq<Action>, i: nat) {
    LowestOf(a, |a|, i)
  }

  ghost predicate IsHighest(a: seq<Action>, i: nat) {
    HighestOf(a, |a|, i)
  }

  /** What remains of a column: its first moveTo and the two extreme lineTos, in their order. */
  function Column(a: seq<Action>, lo: nat, hi: nat): seq<Action>
    requires lo < |a| && hi < |a|
  {
    (if a[0].MoveTo? then [a[0]] else [])
    + (if lo < hi then [a[lo], a[hi]] else if lo > hi then [a[hi], a[lo]] else [a[lo]])
  }

  lemma {:induction false} SubseqPick(a: seq<Action>, from: nat, i: nat)
    requires from <= i < |a|
    ensures Subseq([a[i]], a[from..])
    decreases i - from
  {
    if from < i {
      SubseqPick(a, from + 1, i);
      assert a[from..][1..] == a[from + 1..];
    } else {
      assert a[from..][0] == a[i];
    }
  }

  /** The column's remains are among its actions, in order. */
  lemma ColumnIsSubseq(a: seq<Action>, lo: nat, hi: nat)
    requires lo < |a| && hi < |a| && a[lo].LineTo? && a[hi].LineTo?
    ensures Subseq(Column(a, lo, hi), a)
  {
    hide *;
    var i, j := if lo < hi then lo else hi, if lo < hi then hi else lo;
    var from := if a[0].MoveTo? then 1 else 0;
    var front := a[..from] + [a[i]];
    ColumnParts(a, lo, hi);
    SubseqSelf(a[..from]);
    SubseqPick(a[..i + 1], from, i);
    SubseqConcat(a[..from], a[..from], [a[i]], a[..i + 1][from..]);
    if i < j {
      SubseqPick(a, i + 1, j);
      SubseqConcat(front, a[..i + 1], [a[j]], a[i + 1..]);
    } else {
      SubseqEmpty(a[i + 1..]);
      SubseqConcat(front, a[..i + 1], [], a[i + 1..]);
    }
  }

  lemma ColumnParts(a: seq<Action>, lo: nat, hi: nat)
    requires lo < |a| && hi < |a| && a[lo].LineTo? && a[hi].LineTo?
    ensures var i, j := if lo < hi then lo else hi, if lo < hi then hi else lo;
            var from := if a[0].MoveTo? then 1 else 0;
            && from <= i
            && Column(a, lo, hi) == a[..from] + [a[i]] + (if i < j then [a[j]] else [])
            && a[..i + 1] + a[i + 1..] == a && a[..from] + a[..i + 1][from..] == a[..i + 1]
  {
  }

  lemma SubseqEmpty(a: seq<Cmd>)
    ensures Subseq([], a)
  {
  }

  lemma ColumnEnds(a: seq<Action>, lo: nat, hi: nat)
    requires IsLowest(a, lo) && IsHighest(a, hi)
    ensures |Column(a, lo, hi)| <= 3
    ensures a[lo] in Column(a, lo, hi) && a[hi] in Column(a, lo, hi)
    ensures forall c :: c in a && c.LineTo? ==> a[lo].p.y <= c.p.y <= a[hi].p.y
  {
    var tail := if lo < hi then [a[lo], a[hi]] else if lo > hi then [a[hi], a[lo]] else [a[lo]];
    assert a[lo] in tail && a[hi] in tail;
  }

  /** Every lineTo of `held` has one in `emitted` that is as low, and one that is as high. */
  ghost predicate SameExtent(emitted: seq<Action>, held: seq<Action>) {
    forall c :: c in held && c.LineTo? ==>
      && (exists l :: l in emitted && l.LineTo? && l.p.y <= c.p.y)
      && (exists h :: h in emitted && h.LineTo? && h.p.y >= c.p.y)
  }

  lemma LosslessKeepsExtent(held: seq<Action>)
    ensures SameExtent(Lossless(held), held)
  {
    forall c | c in held && c.LineTo?
      ensures c in Lossless(held)
    {
      LosslessKeepsLines(held, c);
    }
  }

  /** A lossily flushed column keeps at most three of its actions, in order, and the exact extremes of all its lineTos. */
  lemma ColumnKeepsExtremes(held: seq<Action>, lo: nat, hi: nat)
    requires IsLowest(Lossless(held), lo) && IsHighest(Lossless(held), hi)
    ensures var column := Column(Lossless(held), lo, hi);
            |column| <= 3 && Subseq(column, held) && SameExtent(column, held)
  {
    var kept := Lossless(held);
    ColumnEnds(kept, lo, hi);
    ColumnIsSubseq(kept, lo, hi);
    LosslessDrawsTheSame(held);
    SubseqTrans(Column(kept, lo, hi), kept, held);
    forall c | c in held && c.LineTo?
      ensures c in kept
    {
      LosslessKeepsLines(held, c);
    }
  }

  /** A leading moveTo stays, and what follows it are the first lowest and the first highest lineTo, and nothing else. */
  lemma ColumnIs(kept: seq<Action>, lo: nat, hi: nat)
    requires IsLowest(kept, lo) && IsHighest(kept, hi)
    ensures var column, from := Column(kept, lo, hi), if kept[0].MoveTo? then 1 else 0;
            && (kept[0].MoveTo? ==> column[0] == kept[0])
            && |column| == from + (if lo == hi then 1 else 2)
            && multiset(column[from..]) == (if lo == hi then multiset{kept[lo]} else multiset{kept[lo], kept[hi]})
    ensures forall k :: 0 <= k < |kept| && kept[k].LineTo? ==>
              && kept[lo].p.y <= kept[k].p.y <= kept[hi].p.y
              && (k < lo ==> kept[lo].p.y < kept[k].p.y) && (k < hi ==> kept[k].p.y < kept[hi].p.y)
  {
    var from := if kept[0].MoveTo? then 1 else 0;
    assert Column(kept, lo, hi)[from..] == if lo < hi then [kept[lo], kept[hi]] else if lo > hi then [kept[hi], kept[lo]] else [kept[lo]];
  }

  // ---------------------------------------------------------------- the proxy

  /** Math.round: the nearest integer, the greater of two. */
  function Round(x: real): (n: int)
    ensures n as real - 0.5 <= x < n as real + 0.5
  {
    (x + 0.5).Floor
  }

  /** The pixel column of the last path call. */
  function LastColumn(cs: seq<Cmd>): Option<int>
    decreases |cs|
  {
    if cs == [] then None
    else if OnPath(cs[|cs| - 1]) then Some(Round(cs[|cs| - 1].p.x))
    else LastColumn(cs[..|cs| - 1])
  }

  /** The x of the last path call. */
  function LastX(cs: seq<Cmd>): Option<real>
    decreases |cs|
  {
    if cs == [] then None else if OnPath(cs[|cs| - 1]) then Some(cs[|cs| - 1].p.x) else LastX(cs[..|cs| - 1])
  }

  lemma LastAfter(cs: seq<Cmd>, c: Cmd)
    ensures LastColumn(cs + [c]) == if OnPath(c) then Some(Round(c.p.x)) else LastColumn(cs)
    ensures LastX(cs + [c]) == if OnPath(c) then Some(c.p.x) else LastX(cs)
  {
    assert (cs + [c])[..|cs|] == cs;
  }

  lemma LastAfterAll(cs: seq<Cmd>, more: seq<Action>)
    ensures LastX(cs + more) == if more == [] then LastX(cs) else Some(more[|more| - 1].p.x)
  {
    if more == [] {
      assert cs + more == cs;
    } else {
      assert (cs + more)[|cs + more| - 1] == more[|more| - 1];
    }
  }

  /** The lossless phase ends where the column ends. */
  lemma LosslessEnds(held: seq<Action>)
    requires held != []
    ensures Lossless(held) != [] && Lossless(held)[|Lossless(held)| - 1].p == held[|held| - 1].p
  {
    LosslessDrawsTheSame(held);
    PenAtLast(held, Empty);
    if Lossless(held) != [] {
      PenAtLast(Lossless(held), Empty);
    }
    assert At(PenAfter(Lossless(held), Empty)) == At(PenAfter(held, Empty));
  }

  function PathCount(cs: seq<Cmd>): nat
    decreases |cs|
  {
    if cs == [] then 0 else (if cs[0].LineTo? || cs[0].MoveTo? then 1 else 0) + PathCount(cs[1..])
  }

  lemma {:induction false} PathCountConcat(a: seq<Cmd>, b: seq<Cmd>)
    ensures PathCount(a + b) == PathCount(a) + PathCount(b)
    decreases |a|
  {
    if a == [] {
      assert a + b == b;
    } else {
      PathCountConcat(a[1..], b);
      assert (a + b)[1..] == a[1..] + b;
    }
  }

  lemma PathCountOther(a: seq<Cmd>, c: Cmd)
    requires !OnPath(c)
    ensures PathCount(a + [c]) == PathCount(a)
  {
    PathCountConcat(a, [c]);
  }

  lemma {:induction false} PathCountActions(a: seq<Action>)
    ensures PathCount(a) == |a|
    decreases |a|
  {
    if a != [] {
      PathCountActions(a[1..]);
    }
  }

  /** What one flush may let through of the actions held: all of the lossless remainder, or a column's extremes. */
  ghost predicate Remains(emitted: seq<Action>, held: seq<Action>, noLossy: bool) {
    && Subseq(emitted, held) && SameExtent(emitted, held)
    && if !Thins(held, noLossy) then emitted == Lossless(held)
       else
         && |emitted| <= 3
         && exists lo, hi ::
              IsLowest(Lossless(held), lo) && IsHighest(Lossless(held), hi) && emitted == Column(Lossless(held), lo, hi)
  }

  /** The flush is a lossy one. */
  predicate Thins(held: seq<Action>, noLossy: bool) {
    !noLossy && |Lossless(held)| > 2
  }

  lemma ThinsWhen(held: seq<Action>, emitted: seq<Action>, noLossy: bool)
    requires Remains(emitted, held, noLossy)
    ensures noLossy || |Lossless(held)| <= 2 ==> !Thins(held, noLossy) && emitted == Lossless(held)
    ensures !noLossy && |Lossless(held)| > 2 ==> Thins(held, noLossy) && |emitted| <= 3
  {
  }

  /** `held` ends the calls. */
  predicate Ends(calls: seq<Cmd>, held: seq<Action>) {
    |held| <= |calls| && held == calls[|calls| - |held|..]
  }

  /**
    Over any run: what has reached the canvas, with what is held back, is an order-preserving part of what was asked.
    While no column was flushed lossily it draws the same, as long as nothing is closed or filled; and also then, as
    long as no flush has joined subpaths, which calls that do not retrace a line's end never lead to.
  */
  ghost predicate Faithful(out: seq<Cmd>, held: seq<Action>, calls: seq<Cmd>, lossy: bool, joined: bool) {
    && Subseq(out + held, calls) && Ends(calls, held)
    && (!lossy && ClosesNothing(calls) ==> ClosesNothing(out) && SameDrawing(out + held, calls))
    && (!lossy && !joined ==> SamePath(out + held, calls))
    && (NoRetrace(calls) ==> !joined)
  }

  /** Nowhere do three path calls in a row fall into the same pixel column. */
  ghost predicate Sparse(calls: seq<Cmd>) {
    forall i, j, k {:trigger calls[i], calls[j], calls[k]} :: 0 <= i && j == i + 1 && k == i + 2 && k < |calls| ==>
      !(OnPath(calls[i]) && OnPath(calls[j]) && OnPath(calls[k])
        && Round(calls[i].p.x) == Round(calls[j].p.x) == Round(calls[k].p.x))
  }

  predicate OnPath(c: Cmd) {
    c.LineTo? || c.MoveTo?
  }

  lemma {:induction false} SubseqLength(a: seq<Cmd>, b: seq<Cmd>)
    requires Subseq(a, b)
    ensures |a| <= |b|
    decreases |b|
  {
    if a != [] {
      if a[0] == b[0] && Subseq(a[1..], b[1..]) {
        SubseqLength(a[1..], b[1..]);
      } else {
        SubseqLength(a, b[1..]);
      }
    }
  }

  /** Only a column of three path calls or more is thinned out, so the calls are not sparse. */
  lemma ThinnedIsNotSparse(calls: seq<Cmd>, held: seq<Action>, noLossy: bool, column: Option<int>)
    requires Ends(calls, held) && Thins(held, noLossy)
    requires forall c :: c in held ==> column == Some(Round(c.p.x))
    ensures !Sparse(calls)
  {
    hide Lossless, Round;
    LosslessDrawsTheSame(held);
    SubseqLength(Lossless(held), held);
    var n := |calls| - |held|;
    assert calls[n] == held[0] && calls[n + 1] == held[1] && calls[n + 2] == held[2];
    assert held[0] in held && held[1] in held && held[2] in held;
  }

  lemma SparseInit(calls: seq<Cmd>, c: Cmd)
    requires Sparse(calls + [c])
    ensures Sparse(calls)
  {
    hide Round;
    assert forall i :: 0 <= i < |calls| ==> (calls + [c])[i] == calls[i];
  }

  lemma NoRetraceTail(calls: seq<Cmd>, held: seq<Action>)
    requires NoRetrace(calls) && Ends(calls, held)
    ensures NoRetrace(held)
  {
    forall i, j | 0 <= i < j < |held| && j == i + 1 && held[i].LineTo? && held[j].MoveTo?
      ensures held[i].p != held[j].p
    {
      var n := |calls| - |held|;
      assert calls[n + i] == held[i] && calls[n + j] == held[j];
    }
  }

  lemma NoRetraceInit(calls: seq<Cmd>, c: Cmd)
    requires NoRetrace(calls + [c])
    ensures NoRetrace(calls)
  {
    forall i, j | 0 <= i < j < |calls| && j == i + 1 && calls[i].LineTo? && calls[j].MoveTo?
      ensures calls[i].p != calls[j].p
    {
      assert (calls + [c])[i] == calls[i] && (calls + [c])[j] == calls[j];
    }
  }

  lemma FaithfulMeans(out: seq<Cmd>, held: seq<Action>, calls: seq<Cmd>, lossy: bool, joined: bool)
    requires Faithful(out, held, calls, lossy, joined)
    ensures !lossy && ClosesNothing(calls) ==> SameDrawing(out + held, calls)
    ensures !lossy && NoRetrace(calls) ==> SamePath(out + held, calls)
  {
  }

  lemma FaithfulEnds(out: seq<Cmd>, held: seq<Action>, calls: seq<Cmd>, lossy: bool, joined: bool)
    requires Faithful(out, held, calls, lossy, joined)
    ensures Ends(calls, held)
  {
  }

  /** The column held ends where the calls do, and so does its lossless remainder. */
  lemma LastHeld(out: seq<Cmd>, held: seq<Action>, calls: seq<Cmd>, lossy: bool, joined: bool)
    requires Faithful(out, held, calls, lossy, joined) && held != []
    ensures calls != [] && OnPath(calls[|calls| - 1]) && Lossless(held) != [] && held[|held| - 1] == calls[|calls| - 1]
    ensures Lossless(held)[|Lossless(held)| - 1].p == calls[|calls| - 1].p
  {
    LosslessEnds(held);
  }

  /** What replacing the held actions by what remains of them does to the invariant. */
  lemma FlushStaysFaithful(out: seq<Cmd>, held: seq<Action>, emitted: seq<Action>, calls: seq<Cmd>,
                           lossy: bool, joined: bool, noLossy: bool)
    requires Faithful(out, held, calls, lossy, joined) && Remains(emitted, held, noLossy)
    ensures Faithful(out + emitted, [], calls, lossy || Thins(held, noLossy), joined || PathKept(held) != Whole)
  {
    SubseqSelf(out);
    SubseqConcat(out, out, emitted, held);
    SubseqTrans(out + emitted, out + held, calls);
    assert out + emitted + [] == out + emitted;
    if NoRetrace(calls) {
      NoRetraceTail(calls, held);
      NoRetraceKeepsPath(held);
    }
    if !Thins(held, noLossy) && !lossy {
      FlushDrawsTheSame(out, held, calls);
    }
  }

  lemma FlushDrawsTheSame(out: seq<Cmd>, held: seq<Action>, calls: seq<Cmd>)
    ensures SameDrawing(out + held, calls) ==> SameDrawing(out + Lossless(held), calls)
    ensures SamePath(out + held, calls) && PathKept(held) == Whole ==> SamePath(out + Lossless(held), calls)
    ensures ClosesNothing(out) ==> ClosesNothing(out + Lossless(held))
  {
    ActionsCloseNothing(held);
    ActionsCloseNothing(Lossless(held));
    LosslessDrawsTheSame(held);
    if SameDrawing(out + held, calls) {
      SameDrawingConcat(out, out, Lossless(held), held);
    }
    if SamePath(out + held, calls) && PathKept(held) == Whole {
      PathKeptIff(held);
      SamePathConcat(out, out, Lossless(held), held);
    }
  }

  /** One more call, appended to both sides. */
  lemma AskStaysFaithful(out: seq<Cmd>, held: seq<Action>, calls: seq<Cmd>, lossy: bool, joined: bool, c: Action)
    requires Faithful(out, held, calls, lossy, joined)
    ensures Faithful(out, held + [c], calls + [c], lossy, joined)
  {
    BothSides(out + held, calls, c);
    assert out + (held + [c]) == out + held + [c];
    if NoRetrace(calls + [c]) {
      NoRetraceInit(calls, c);
    }
  }

  lemma PaintStaysFaithful(out: seq<Cmd>, calls: seq<Cmd>, lossy: bool, joined: bool, c: Cmd)
    requires Faithful(out, [], calls, lossy, joined)
    ensures Faithful(out + [c], [], calls + [c], lossy, joined)
  {
    assert out + [] == out && out + [c] + [] == out + [c];
    BothSides(out, calls, c);
    if NoRetrace(calls + [c]) {
      NoRetraceInit(calls, c);
    }
  }

  lemma BothSides(a: seq<Cmd>, b: seq<Cmd>, c: Cmd)
    requires Subseq(a, b)
    ensures Subseq(a + [c], b + [c])
    ensures ClosesNothing([c]) && SameDrawing(a, b) ==> SameDrawing(a + [c], b + [c])
    ensures SamePath(a, b) ==> SamePath(a + [c], b + [c])
    ensures ClosesNothing(b + [c]) <==> ClosesNothing(b) && ClosesNothing([c])
    ensures ClosesNothing(a + [c]) <==> ClosesNothing(a) && ClosesNothing([c])
  {
    SubseqSelf([c]);
    SubseqConcat(a, b, [c], [c]);
    if ClosesNothing([c]) && SameDrawing(a, b) {
      SameDrawingConcat(a, b, [c], [c]);
    }
    if SamePath(a, b) {
      SamePathConcat(a, b, [c], [c]);
    }
  }

  class FastCanvasProxy {
    var pendingActions: seq<Action>
    var lastRoundedX: Option<int>
    var lastFlushedX: Option<real>
    var actionCount: nat
    /** What has reached the canvas. */
    var out: seq<Cmd>
    /** What the renderer has asked for, whether a lossy flush has dropped anything, and whether any joined subpaths. */
    ghost var calls: seq<Cmd>
    ghost var lossy: bool
    ghost var joined: bool

    ghost predicate Valid()
      reads this
    {
      Sound() && (calls != [] && OnPath(calls[|calls| - 1]) ==> pendingActions != [])
    }

    /** The same, also between a flush and the call that has caused it. */
    ghost predicate Sound()
      reads this
    {
      Kept() && lastRoundedX == LastColumn(calls)
    }

    /** The same, also while the new column has been noted and its call has not. */
    ghost predicate Kept()
      reads this
    {
      && lastFlushedX == LastX(out)
      && Faithful(out, pendingActions, calls, lossy, joined)
      && actionCount == PathCount(out) && (Sparse(calls) ==> !lossy)
      && (forall c :: c in pendingActions ==> lastRoundedX == Some(Round(c.p.x)))
    }

    constructor ()
      ensures Valid() && calls == [] && out == [] && pendingActions == [] && !lossy && !joined
    {
      pendingActions, lastRoundedX, lastFlushedX, actionCount, out := [], None, None, 0, [];
      calls, lossy, joined := [], false, false;
    }

    /** The first loop of compressActions: from the back, so that a predecessor is always an original one. */
    method DropRepeats()
      modifies `pendingActions
      ensures pendingActions == WithoutRepeats(old(pendingActions))
    {
      hide *;
      var i := |pendingActions| - 1;
      ghost var was := pendingActions;
      ghost var done: seq<Action> := [];
      assert was[..|was|] == was && was + done == was;
      while i > 0
        invariant -1 <= i < |was| && (was != [] ==> i >= 0)
        invariant pendingActions == was[..i + 1] + done
        invariant WithoutRepeats(was) == WithoutRepeats(was[..i + 1]) + done
        decreases i
      {
        var action := pendingActions[i];
        RepeatDropped(was, i);
        if action.MoveTo? {
          var prevAction := pendingActions[i - 1];
          if prevAction.p.x == action.p.x && prevAction.p.y == action.p.y {
            pendingActions := pendingActions[..i] + pendingActions[i + 1..];
            i := i - 1;
            continue;
          }
        }
        assert WithoutRepeats(was[..i]) + [action] + done == WithoutRepeats(was[..i]) + ([action] + done);
        done := [action] + done;
        i := i - 1;
      }
      WithoutRepeatsShort(was[..i + 1]);
    }

    /** The second loop of compressActions. */
    method DropMoveRuns()
      modifies `pendingActions
      ensures pendingActions == LastOfRuns(old(pendingActions))
    {
      var i := 0;
      while i < |pendingActions| - 1
        invariant 0 <= i <= |pendingActions|
        invariant pendingActions[..i] + LastOfRuns(pendingActions[i..]) == LastOfRuns(old(pendingActions))
        decreases |pendingActions| - i
      {
        ghost var was, rest := pendingActions, pendingActions[i..];
        assert rest[1..] == was[i + 1..];
        if pendingActions[i].MoveTo? && pendingActions[i + 1].MoveTo? {
          pendingActions := pendingActions[..i] + pendingActions[i + 1..];
          assert pendingActions[..i] == was[..i] && pendingActions[i..] == was[i + 1..];
        } else {
          assert was[..i + 1] == was[..i] + [was[i]];
          i := i + 1;
        }
      }
    }

    /** The lossy part of compressActions: only the extremes of a column survive. */
    method KeepExtremes() returns (ghost lo: nat, ghost hi: nat)
      requires |pendingActions| > 2 && NoAdjacentMoves(pendingActions)
      modifies `pendingActions
      ensures IsLowest(old(pendingActions), lo) && IsHighest(old(pendingActions), hi)
      ensures pendingActions == Column(old(pendingActions), lo, hi)
    {
      var startIdx := 0;
      if pendingActions[0].MoveTo? {
        startIdx := startIdx + 1;
      }
      var minIdx, maxIdx := FindExtremes(startIdx);
      // The first two actions are not both moveTos, so a lineTo has been seen.
      assert !(pendingActions[0].MoveTo? && pendingActions[1].MoveTo?);
      lo, hi := minIdx.value, maxIdx.value;
      var minAction, maxAction := pendingActions[minIdx.value], pendingActions[maxIdx.value];
      pendingActions := pendingActions[..startIdx];
      if minIdx.value < maxIdx.value {
        pendingActions := pendingActions + [minAction];
        pendingActions := pendingActions + [maxAction];
      } else if minIdx.value > maxIdx.value {
        pendingActions := pendingActions + [maxAction];
        pendingActions := pendingActions + [minAction];
      } else {
        pendingActions := pendingActions + [minAction];
      }
    }

    /** The search loop: null, or the first lineTo with the least and with the greatest y. */
    method FindExtremes(startIdx: nat) returns (minIdx: Option<nat>, maxIdx: Option<nat>)
      requires startIdx <= |pendingActions| && forall k :: 0 <= k < startIdx ==> pendingActions[k].MoveTo?
      ensures minIdx.Some? == maxIdx.Some?
      ensures minIdx.None? ==> forall k :: 0 <= k < |pendingActions| ==> !pendingActions[k].LineTo?
      ensures minIdx.Some? ==> IsLowest(pendingActions, minIdx.value) && IsHighest(pendingActions, maxIdx.value)
    {
      minIdx, maxIdx := None, None;
      var i := startIdx;
      while i < |pendingActions|
        invariant startIdx <= i <= |pendingActions|
        invariant minIdx.Some? == maxIdx.Some?
        invariant minIdx.None? ==> forall k :: 0 <= k < i ==> !pendingActions[k].LineTo?
        invariant minIdx.Some? ==>
                    LowestOf(pendingActions, i, minIdx.value) && HighestOf(pendingActions, i, maxIdx.value)
      {
        var action := pendingActions[i];
        if action.LineTo? {
          if minIdx.None? && maxIdx.None? {
            minIdx := Some(i);
            maxIdx := Some(i);
          } else {
            var y := action.p.y;
            if y < pendingActions[minIdx.value].p.y {
              minIdx := Some(i);
            } else if y > pendingActions[maxIdx.value].p.y {
              maxIdx := Some(i);
            }
          }
        }
        i := i + 1;
      }
    }

    /** compressActions: `lossy` tells whether the extremes were all that was kept. */
    method CompressActions(losslessOnly: bool) returns (ghost dropped: bool)
      modifies `pendingActions
      ensures dropped == Thins(old(pendingActions), losslessOnly)
      ensures Remains(pendingActions, old(pendingActions), losslessOnly)
      ensures !dropped ==> pendingActions == Lossless(old(pendingActions))
      ensures forall c :: c in pendingActions ==> c in old(pendingActions)
    {
      dropped := false;
      ghost var was := pendingActions;
      LosslessDrawsTheSame(was);
      LosslessKeepsExtent(was);
      if |pendingActions| <= 1 {
        SubseqMember(pendingActions, was);
        return;
      }
      DropRepeats();
      DropMoveRuns();
      if |pendingActions| > 2 && !losslessOnly {
        ghost var lo, hi := KeepExtremes();
        dropped := true;
        ColumnKeepsExtremes(was, lo, hi);
      }
      SubseqMember(pendingActions, was);
    }

    /** The loop of flushActions that passes the held actions on. */
    method PassOn()
      modifies `out
      ensures out == old(out) + pendingActions
    {
      var i, len := 0, |pendingActions|;
      while i < len
        invariant 0 <= i <= len && out == old(out) + pendingActions[..i]
      {
        var action := pendingActions[i];
        if action.LineTo? {
          out := out + [LineTo(action.p)];
        } else if action.MoveTo? {
          out := out + [MoveTo(action.p)];
        }
        i := i + 1;
      }
      assert pendingActions[..i] == pendingActions;
    }

    /** flushActions */
    method FlushActions(noLossy: bool) returns (ghost emitted: seq<Action>)
      requires Sound()
      modifies `pendingActions, `lastFlushedX, `actionCount, `out, `lossy, `joined
      ensures Sound() && pendingActions == []
      // Only a lossy flush of more than two actions drops lineTos.
      ensures noLossy || |Lossless(old(pendingActions))| <= 2 ==> emitted == Lossless(old(pendingActions)) && lossy == old(lossy)
      ensures !noLossy && |Lossless(old(pendingActions))| > 2 ==> lossy && |emitted| <= 3
      ensures out == old(out) + emitted && Remains(emitted, old(pendingActions), noLossy)
      ensures lossy == (old(lossy) || Thins(old(pendingActions), noLossy))
      ensures joined == (old(joined) || PathKept(old(pendingActions)) != Whole)
      ensures lastFlushedX == if emitted == [] then old(lastFlushedX) else Some(emitted[|emitted| - 1].p.x)
    {
      hide Faithful, PathKept, Lossless, PathCount, Remains, Thins, Round, Sparse, LastColumn, LastX;
      ghost var before := this.out;
      ghost var held := pendingActions;
      ghost var dropped := CompressActions(noLossy);
      emitted := pendingActions;
      FlushStaysFaithful(before, held, emitted, calls, lossy, joined, noLossy);
      if dropped {
        FaithfulEnds(before, held, calls, lossy, joined);
        ThinnedIsNotSparse(calls, held, noLossy, lastRoundedX);
      }
      PathCountConcat(before, emitted);
      PathCountActions(emitted);
      LastAfterAll(before, emitted);
      ThinsWhen(held, emitted, noLossy);
      PassOn();
      if |pendingActions| != 0 {
        lastFlushedX := Some(pendingActions[|pendingActions| - 1].p.x);
      }
      actionCount := actionCount + |pendingActions|;
      pendingActions := [];
      lossy, joined := lossy || dropped, joined || PathKept(held) != Whole;
    }

    /** addAction */
    method AddAction(action: Action) returns (ghost emitted: seq<Action>)
      requires Valid()
      modifies this
      ensures Valid() && calls == old(calls) + [action]
      ensures lastRoundedX == Some(Round(action.p.x)) && out == old(out) + emitted
      ensures old(lastRoundedX) == Some(Round(action.p.x)) ==>
                pendingActions == old(pendingActions) + [action] && emitted == [] && lossy == old(lossy) && joined == old(joined)
      // A new column flushes the old one, and loses nothing next to a gap of more than a pixel on either side.
      ensures old(lastRoundedX) != Some(Round(action.p.x)) ==>
                var last := if old(lastRoundedX).Some? then old(lastRoundedX).value as real else 0.0;
                var flushed := if old(lastFlushedX).Some? then old(lastFlushedX).value else 0.0;
                var gap := last - flushed > 1.0 || Round(action.p.x) as real - last > 1.0;
                && pendingActions == [action] && Remains(emitted, old(pendingActions), gap)
                && lossy == (old(lossy) || (!gap && |Lossless(old(pendingActions))| > 2))
                && (gap || |Lossless(old(pendingActions))| <= 2 ==> emitted == Lossless(old(pendingActions)))
                && joined == (old(joined) || PathKept(old(pendingActions)) != Whole)
      // In any run, a path call over an empty pixel column finds the canvas where the path call before it has ended.
      ensures old(calls) != [] && OnPath(old(calls)[|old(calls)| - 1])
              && Round(action.p.x) > Round(old(calls)[|old(calls)| - 1].p.x) + 1 ==>
                && lossy == old(lossy) && out != [] && OnPath(out[|out| - 1])
                && out[|out| - 1].p == old(calls)[|old(calls)| - 1].p
    {
      hide Faithful, Remains, Thins, PathKept, Sparse, Lossless, Round, LastX, LastColumn, PathCount, Ends;
      if pendingActions != [] {
        LastHeld(out, pendingActions, calls, lossy, joined);
      }
      emitted := [];
      var rx := Round(action.p.x);
      if lastRoundedX.None? || rx != lastRoundedX.value {
        emitted := EndColumn(rx);
        lastRoundedX := Some(rx);
      }
      Hold(action);
    }

    /** The action joins its column. */
    method Hold(action: Action)
      requires Kept() && lastRoundedX == Some(Round(action.p.x))
      modifies `pendingActions, `calls
      ensures Valid() && pendingActions == old(pendingActions) + [action] && calls == old(calls) + [action]
    {
      hide Faithful, Sparse, Round, LastX, LastColumn, PathCount;
      if Sparse(calls + [action]) {
        SparseInit(calls, action);
      }
      LastAfter(calls, action);
      AskStaysFaithful(out, pendingActions, calls, lossy, joined, action);
      pendingActions := pendingActions + [action];
      calls := calls + [action];
    }

    /** The end of a column, when `rx` is the next one: if it is far away, or this one was, nothing may be lost (1619-1624). */
    method EndColumn(rx: int) returns (ghost emitted: seq<Action>)
      requires Sound()
      modifies `pendingActions, `lastFlushedX, `actionCount, `out, `lossy, `joined
      ensures Sound() && pendingActions == [] && out == old(out) + emitted
      ensures var last := if lastRoundedX.Some? then lastRoundedX.value as real else 0.0;
              var flushed := if old(lastFlushedX).Some? then old(lastFlushedX).value else 0.0;
              var gap := last - flushed > 1.0 || rx as real - last > 1.0;
              && Remains(emitted, old(pendingActions), gap)
              && lossy == (old(lossy) || (!gap && |Lossless(old(pendingActions))| > 2))
              && (gap || |Lossless(old(pendingActions))| <= 2 ==> emitted == Lossless(old(pendingActions)))
      ensures joined == (old(joined) || PathKept(old(pendingActions)) != Whole)
    {
      hide Remains, Thins, PathKept, Lossless, Faithful, Sparse, Round, LastX, LastColumn, PathCount;
      var last := if lastRoundedX.None? then 0.0 else lastRoundedX.value as real;
      var flushed := if lastFlushedX.None? then 0.0 else lastFlushedX.value;
      var hasGapOnLeft := last - flushed > 1.0;
      var hasGapOnRight := rx as real - last > 1.0;
      emitted := FlushActions(hasGapOnLeft || hasGapOnRight);
    }

    /** stroke, fill, beginPath and closePath: flush without loss, then pass the call on. */
    method Major(c: Cmd)
      requires Valid() && !c.LineTo? && !c.MoveTo?
      modifies this
      ensures Valid() && calls == old(calls) + [c] && pendingActions == []
      ensures out == old(out) + Lossless(old(pendingActions)) + [c] && lossy == old(lossy)
      ensures joined == (old(joined) || PathKept(old(pendingActions)) != Whole)
    {
      hide Faithful, PathKept, Lossless, Remains, Thins, Sparse, PathCount, LastColumn, LastX, Round;
      if Sparse(calls + [c]) {
        SparseInit(calls, c);
      }
      LastAfter(calls, c);
      ghost var emitted := FlushActions(true);
      LastAfter(out, c);
      PaintStaysFaithful(out, calls, lossy, joined, c);
      PathCountOther(out, c);
      out := out + [c];
      calls := calls + [c];
    }

    /**
      Any list of calls. If no three path calls in a row share a column, nothing is lost: without closing or filling the
      canvas draws what was asked for; and with it, too, as long as no call moves to where a line has just ended.
    */
    method DrawAll(cs: seq<Cmd>)
      requires Valid()
      modifies this
      ensures Valid() && calls == old(calls) + cs
      ensures cs != [] && !OnPath(cs[|cs| - 1]) ==> pendingActions == []
      ensures Sparse(calls) && ClosesNothing(calls) ==> SameDrawing(out + pendingActions, calls)
      ensures Sparse(calls) && NoRetrace(calls) ==> SamePath(out + pendingActions, calls)
    {
      hide SameDrawing, SamePath, Sparse, NoRetrace, ClosesNothing, Remains, Thins, PathKept, Lossless, Round, LastColumn, LastX;
      hide Faithful, PathCount;
      for i := 0 to |cs|
        invariant Valid() && calls == old(calls) + cs[..i]
        invariant i > 0 && !OnPath(cs[i - 1]) ==> pendingActions == []
      {
        ghost var before := calls;
        if cs[i].LineTo? || cs[i].MoveTo? {
          var _ := AddAction(cs[i]);
        } else {
          Major(cs[i]);
        }
        assert before + [cs[i]] == old(calls) + cs[..i + 1];
      }
      assert cs[..|cs|] == cs;
      FaithfulMeans(out, pendingActions, calls, lossy, joined);
    }
  }

  lemma {:induction false} SubseqMember(a: seq<Cmd>, b: seq<Cmd>)
    requires Subseq(a, b)
    ensures forall x :: x in a ==> x in b
    decreases |b|
  {
    if a != [] {
      if a[0] == b[0] && Subseq(a[1..], b[1..]) {
        SubseqMember(a[1..], b[1..]);
        assert forall x :: x in a ==> x == a[0] || x in a[1..];
      } else {
        SubseqMember(a, b[1..]);
      }
    }
  }
}
