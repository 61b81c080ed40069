/** Intervals of solving/interval.py: a start and an end that are exact
    rationals or None (minus and plus infinity), and an open flag for each
    side. Membership, intersection and printing; `to_float` of
    solving/core.py orders endpoints, with exact values in place of floats. */
module Intervals {
  import opened Outcome
  import opened Exact
  import opened Digits

  datatype Interval = Interval(start: Option<Const>, end: Option<Const>, openStart: bool, openEnd: bool)

  /** Endpoints are Consts as their constructor leaves them. */
  predicate ValidBound(b: Option<Const>) {
    b.Some? ==> Exact.Valid(b.value)
  }

  predicate ValidInterval(i: Interval) {
    ValidBound(i.start) && ValidBound(i.end)
  }

  /** `INF`: the whole line, open on both sides. */
  const INF := Interval(None, None, true, true)

  /** The values `to_float` gives: a float, or an infinity. */
  datatype Extended = NegInf | Finite(value: real) | PosInf

  predicate Below(a: Extended, b: Extended) {
    (a.NegInf? && !b.NegInf?) || (a.Finite? && b.PosInf?)
    || (a.Finite? && b.Finite? && a.value < b.value)
  }

  /** `to_float(val, scale)`: None is infinity times the scale; the two
      scales the callers pass are -1 (a start) and 1 (an end). */
  function ToFloat(val: Option<Const>, scale: int): (r: Extended)
    requires ValidBound(val) && (scale == 1 || scale == -1)
    ensures val.None? ==> r == (if scale == 1 then PosInf else NegInf)
    ensures val.Some? ==> r == Finite(Value(val.value))
  {
    match val
    case None => if scale == 1 then PosInf else NegInf
    case Some(c) => Finite(Value(c))
  }

  /** `x in interval` for an exact value: strict on an open side, not strict
      on a closed one, and no bound on a None side. */
  predicate Contains(i: Interval, x: real)
    requires ValidInterval(i)
    // the whole line holds every point
    ensures i.start.None? && i.end.None? ==> Contains(i, x)
    // [a, a] holds a alone; with either side open it holds nothing
    ensures i.start.Some? && i.end.Some? && Value(i.start.value) == Value(i.end.value) ==>
      (Contains(i, x) <==> x == Value(i.start.value) && !i.openStart && !i.openEnd)
  {
    (match i.start
     case None => true
     case Some(s) => if i.openStart then x > Value(s) else x >= Value(s))
    && (match i.end
        case None => true
        case Some(e) => if i.openEnd then x < Value(e) else x <= Value(e))
  }

  /** `Interval.intersect` as written. The later start and the earlier end
      are taken, the first argument winning ties as `max` and `min` do; an
      empty overlap is None; a single point survives only when it is closed
      as the start of both and as the end of both; each flag comes from the
      first argument when its endpoint equals the one chosen. */
  function Intersect(a: Interval, b: Interval): (r: Option<Interval>)
    requires ValidInterval(a) && ValidInterval(b)
    ensures r.Some? ==> ValidInterval(r.value)
    // the start is the later one, a's when it is not below b's
    ensures r.Some? ==> r.value.start == a.start || r.value.start == b.start
    ensures r.Some? ==> !Below(ToFloat(r.value.start, -1), ToFloat(a.start, -1))
    ensures r.Some? ==> !Below(ToFloat(r.value.start, -1), ToFloat(b.start, -1))
    ensures r.Some? && !Below(ToFloat(a.start, -1), ToFloat(b.start, -1)) ==> r.value.start == a.start
    // the end is the earlier one, a's when it is not above b's
    ensures r.Some? ==> r.value.end == a.end || r.value.end == b.end
    ensures r.Some? ==> !Below(ToFloat(a.end, 1), ToFloat(r.value.end, 1))
    ensures r.Some? ==> !Below(ToFloat(b.end, 1), ToFloat(r.value.end, 1))
    ensures r.Some? && !Below(ToFloat(b.end, 1), ToFloat(a.end, 1)) ==> r.value.end == a.end
    // each flag is a's when a's endpoint is the one chosen, else b's
    ensures r.Some? ==> r.value.openStart == (if a.start == r.value.start then a.openStart else b.openStart)
    ensures r.Some? ==> r.value.openEnd == (if a.end == r.value.end then a.openEnd else b.openEnd)
    ensures r.Some? ==> !Below(ToFloat(r.value.end, 1), ToFloat(r.value.start, -1))
  {
    var left := if Below(ToFloat(a.start, -1), ToFloat(b.start, -1)) then b.start else a.start;
    var right := if Below(ToFloat(b.end, 1), ToFloat(a.end, 1)) then b.end else a.end;
    if Below(ToFloat(right, 1), ToFloat(left, -1)) then None
    else
      var leftIncluded := (a.start == left && !a.openStart) && (b.start == left && !b.openStart);
      var rightIncluded := (a.end == right && !a.openEnd) && (b.end == right && !b.openEnd);
      if left == right && !(leftIncluded || rightIncluded) then None
      else
        var leftOpen := if a.start == left then a.openStart else b.openStart;
        var rightOpen := if a.end == right then a.openEnd else b.openEnd;
        Some(Interval(left, right, leftOpen, rightOpen))
  }

  /** x is the value of a finite end of i. */
  predicate AtEndpoint(i: Interval, x: real)
    requires ValidInterval(i)
  {
    (i.start.Some? && Value(i.start.value) == x) || (i.end.Some? && Value(i.end.value) == x)
  }

  /** What `intersect` keeps: every point the two intervals share, and
      besides those at most its own endpoints (a flag taken from one side at
      a tie can close an end the other leaves open). */
  lemma IntersectWithin(a: Interval, b: Interval, x: real)
    requires ValidInterval(a) && ValidInterval(b)
    ensures Intersect(a, b).Some? && Contains(a, x) && Contains(b, x) ==> Contains(Intersect(a, b).value, x)
    ensures Intersect(a, b).Some? && Contains(Intersect(a, b).value, x) ==>
      (Contains(a, x) && Contains(b, x)) || AtEndpoint(Intersect(a, b).value, x)
  {
  }

  /** Of two intervals that are not empty, `intersect` returns an interval
      only when they share a point, so then the meet is not None either. */
  lemma IntersectShares(a: Interval, b: Interval) returns (x: real)
    requires ValidInterval(a) && ValidInterval(b) && !Empty(a) && !Empty(b)
    requires Intersect(a, b).Some?
    ensures Contains(a, x) && Contains(b, x)
    ensures Meet(a, b).Some?
  {
    var i := Intersect(a, b).value;
    if i.start.Some? && i.end.Some? && Value(i.start.value) == Value(i.end.value) {
      x := Value(i.start.value);
      PointShared(a, b, x);
    } else {
      hide Intersect, Contains, AtEndpoint;
      x := InteriorPoint(i);
      IntersectWithin(a, b, x);
    }
    MeetContains(a, b, x);
  }

  /** With an empty argument `intersect` can still return an interval:
      [1, 1) met with [1, 1] is [1, 1), while the two share no point. */
  lemma EmptyArgumentKept()
    ensures var a, b := Interval(Num(1), Num(1), false, true), Interval(Num(1), Num(1), false, false);
      ValidInterval(a) && ValidInterval(b) && Empty(a) && Intersect(a, b) == Some(a) && Meet(a, b).None?
  {
    var a, b := Interval(Num(1), Num(1), false, true), Interval(Num(1), Num(1), false, false);
    assert Value(FromInt(1)) == 1.0;
    assert !Contains(a, 1.0);
    MeetEmpty(a, b);
  }

  /** A point strictly inside an interval whose start is below its end. */
  lemma InteriorPoint(i: Interval) returns (x: real)
    requires ValidInterval(i) && !Below(ToFloat(i.end, 1), ToFloat(i.start, -1))
    requires !(i.start.Some? && i.end.Some? && Value(i.start.value) == Value(i.end.value))
    ensures Contains(i, x) && !AtEndpoint(i, x)
  {
    match (i.start, i.end)
    case (None, None) => x := 0.0;
    case (Some(s), None) => x := Value(s) + 1.0;
    case (None, Some(e)) => x := Value(e) - 1.0;
    case (Some(s), Some(e)) => x := (Value(s) + Value(e)) / 2.0;
  }

  /** A one-point result of `intersect` is the closed start, or the closed
      end, of both intervals, so both hold it when neither is empty. */
  lemma PointShared(a: Interval, b: Interval, x: real)
    requires ValidInterval(a) && ValidInterval(b) && !Empty(a) && !Empty(b)
    requires Intersect(a, b).Some?
    requires Intersect(a, b).value.start.Some? && Value(Intersect(a, b).value.start.value) == x
    requires Intersect(a, b).value.end.Some? && Value(Intersect(a, b).value.end.value) == x
    ensures Contains(a, x) && Contains(b, x)
  {
    var i := Intersect(a, b).value;
    Canonical(i.start.value, i.end.value);
  }

  /** When `intersect` returns None although the intervals share x, the two
      are the whole line or share x alone. */
  lemma IntersectLosesOnlyTies(a: Interval, b: Interval, x: real)
    requires ValidInterval(a) && ValidInterval(b) && Contains(a, x) && Contains(b, x)
    requires Intersect(a, b).None?
    ensures (a.start.None? && b.start.None? && a.end.None? && b.end.None?)
      || (Meet(a, b).Some? && Meet(a, b).value.start.Some? && Meet(a, b).value.start == Meet(a, b).value.end
          && Value(Meet(a, b).value.start.value) == x)
  {
    MeetContains(a, b, x);
  }

  function Num(n: int): Option<Const> {
    Some(FromInt(n))
  }

  /** The whole line met with itself: both chosen endpoints are None, which
      compare equal, and the single-point test then drops the result. */
  lemma WholeLineLost()
    ensures Intersect(INF, INF) == None
    ensures Contains(INF, 0.0)
  {
  }

  /** [1, 3] and [0, 1] share the point 1, closed in both, but it is the
      start of one and the end of the other, so it is dropped. */
  lemma SharedPointLost()
    ensures var a, b := Interval(Num(1), Num(3), false, false), Interval(Num(0), Num(1), false, false);
      Intersect(a, b) == None && Contains(a, 1.0) && Contains(b, 1.0)
  {
    var a, b := Interval(Num(1), Num(3), false, false), Interval(Num(0), Num(1), false, false);
    assert Value(FromInt(0)) == 0.0 && Value(FromInt(1)) == 1.0 && Value(FromInt(3)) == 3.0;
    assert Intersect(a, b) == None;
  }

  /** [1, 3] and (1, 3) have the same endpoints, so the closed flags of the
      first are kept and the result holds 1, which (1, 3) does not. */
  lemma OpenSideIgnored()
    ensures var a, b := Interval(Num(1), Num(3), false, false), Interval(Num(1), Num(3), true, true);
      Intersect(a, b) == Some(a) && Contains(a, 1.0) && !Contains(b, 1.0)
  {
    var a, b := Interval(Num(1), Num(3), false, false), Interval(Num(1), Num(3), true, true);
    assert Value(FromInt(1)) == 1.0 && Value(FromInt(3)) == 3.0;
    assert Intersect(a, b) == Some(a);
  }

  /** The later of two starts, open when every start at that place is. */
  function LaterStart(a: Interval, b: Interval): (r: (Option<Const>, bool))
    requires ValidInterval(a) && ValidInterval(b)
  {
    match (a.start, b.start)
    case (None, _) => (b.start, b.openStart)
    case (_, None) => (a.start, a.openStart)
    case (Some(x), Some(y)) =>
      if Value(x) > Value(y) then (a.start, a.openStart)
      else if Value(y) > Value(x) then (b.start, b.openStart)
      else (a.start, a.openStart || b.openStart)
  }

  function EarlierEnd(a: Interval, b: Interval): (r: (Option<Const>, bool))
    requires ValidInterval(a) && ValidInterval(b)
  {
    match (a.end, b.end)
    case (None, _) => (b.end, b.openEnd)
    case (_, None) => (a.end, a.openEnd)
    case (Some(x), Some(y)) =>
      if Value(x) < Value(y) then (a.end, a.openEnd)
      else if Value(y) < Value(x) then (b.end, b.openEnd)
      else (a.end, a.openEnd || b.openEnd)
  }

  /** Whether an interval holds no point at all. */
  predicate Empty(i: Interval)
    requires ValidInterval(i)
  {
    i.start.Some? && i.end.Some?
    && (Value(i.start.value) > Value(i.end.value)
        || (Value(i.start.value) == Value(i.end.value) && (i.openStart || i.openEnd)))
  }

  /** The intersection as the comment at solving/interval.py:45 intends it: the set of
      common points, None exactly when there is none. */
  function Meet(a: Interval, b: Interval): (r: Option<Interval>)
    requires ValidInterval(a) && ValidInterval(b)
    ensures r.Some? ==> ValidInterval(r.value) && !Empty(r.value)
  {
    var (left, leftOpen) := LaterStart(a, b);
    var (right, rightOpen) := EarlierEnd(a, b);
    var i := Interval(left, right, leftOpen, rightOpen);
    if Empty(i) then None else Some(i)
  }

  /** A point is in the meet exactly when it is in both intervals. */
  lemma MeetContains(a: Interval, b: Interval, x: real)
    requires ValidInterval(a) && ValidInterval(b)
    ensures (Meet(a, b).Some? && Contains(Meet(a, b).value, x)) <==> Contains(a, x) && Contains(b, x)
  {
    var (left, leftOpen) := LaterStart(a, b);
    var (right, rightOpen) := EarlierEnd(a, b);
    var i := Interval(left, right, leftOpen, rightOpen);
    assert Contains(i, x) <==> Contains(a, x) && Contains(b, x);
  }

  /** An interval that is not empty holds a point. */
  lemma NonEmptyHasPoint(i: Interval) returns (x: real)
    requires ValidInterval(i) && !Empty(i)
    ensures Contains(i, x)
  {
    match (i.start, i.end)
    case (None, None) => x := 0.0;
    case (Some(s), None) => x := Value(s) + 1.0;
    case (None, Some(e)) => x := Value(e) - 1.0;
    case (Some(s), Some(e)) => x := (Value(s) + Value(e)) / 2.0;
  }

  /** None is returned exactly when the intervals share no point. */
  lemma MeetEmpty(a: Interval, b: Interval)
    requires ValidInterval(a) && ValidInterval(b)
    ensures Meet(a, b).None? <==> forall x :: !(Contains(a, x) && Contains(b, x))
  {
    if Meet(a, b).Some? {
      var x := NonEmptyHasPoint(Meet(a, b).value);
      MeetContains(a, b, x);
    } else {
      forall x
        ensures !(Contains(a, x) && Contains(b, x))
      {
        MeetContains(a, b, x);
      }
    }
  }

  /** Away from ties, the code as written computes the intended meet: with
      four distinct finite endpoint values and a proper overlap, both agree. */
  lemma IntersectAgrees(a: Interval, b: Interval)
    requires ValidInterval(a) && ValidInterval(b)
    requires a.start.Some? && b.start.Some? && a.end.Some? && b.end.Some?
    requires Value(a.start.value) != Value(b.start.value) && Value(a.end.value) != Value(b.end.value)
    requires Meet(a, b).Some? && Meet(a, b).value.start != Meet(a, b).value.end
    ensures Intersect(a, b) == Meet(a, b)
  {
  }

  /** The printed start side: the bracket, then the start or "-∞". */
  function StartText(i: Interval): (r: string)
    ensures |r| >= 2
    ensures r[0] == '[' <==> i.start.Some? && !i.openStart
    ensures i.start.None? <==> |r| >= 3 && r[2] == '∞'
  {
    match i.start
    case Some(s) =>
      ReprShape(i.start);
      (if i.openStart then "(" else "[") + Exact.Repr(s)
    case None => "(-∞"
  }

  /** The printed end side: the end or "∞", then the bracket. */
  function EndText(i: Interval): (r: string)
    ensures |r| >= 2
    ensures r[|r| - 1] == ']' <==> i.end.Some? && !i.openEnd
    ensures i.end.None? <==> r[|r| - 2] == '∞'
  {
    match i.end
    case Some(e) =>
      ReprShape(i.end);
      Exact.Repr(e) + (if i.openEnd then ")" else "]")
    case None => "∞)"
  }

  /** `Interval.__repr__`: '[' or '(' by the start flag, then the start or
      "-∞", ", ", the end or "∞", then ']' or ')' by the end flag; an
      infinite side always prints open. */
  function Repr(i: Interval): (r: string)
    ensures |r| >= 6
    ensures r[0] == '[' <==> i.start.Some? && !i.openStart
    ensures r[|r| - 1] == ']' <==> i.end.Some? && !i.openEnd
    ensures i.start.None? <==> r[2] == '∞'
    ensures i.end.None? <==> r[|r| - 2] == '∞'
  {
    var first, last := StartText(i), EndText(i);
    assert (first + ", " + last)[2] == if |first| >= 3 then first[2] else ',';
    first + ", " + last
  }

  /** A printed Const starts with a digit or '-' followed by a digit, and
      ends with a digit. */
  lemma ReprShape(b: Option<Const>)
    ensures b.Some? ==> var s := Exact.Repr(b.value);
      |s| >= 1 && (IsDigit(s[0]) || (s[0] == '-' && |s| >= 2 && IsDigit(s[1]))) && IsDigit(s[|s| - 1])
  {
    if b.Some? {
      var c := b.value;
      var n := IntToString(c.numerator);
      if c.denominator != 1 {
        var d := IntToString(c.denominator);
        assert Exact.Repr(c) == n + "/" + d;
        assert Exact.Repr(c)[|Exact.Repr(c)| - 1] == d[|d| - 1];
        if d[0] == '-' {
          assert |d| >= 2;
        }
      }
    }
  }
}
