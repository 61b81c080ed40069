/** The interval helpers of solving/core.py: merging a list of intervals
    into disjoint pieces, splitting a domain at the roots of an inequality,
    and intersecting unions of intervals. */
module Domains {
  import opened Outcome
  import opened Exact
  import opened Intervals

  predicate AllValid(xs: seq<Interval>) {
    forall k :: 0 <= k < |xs| ==> ValidInterval(xs[k])
  }

  /** The sort key of both sorts of this file: the start as `to_float`
      gives it and, when `withFlag` holds, the open flag of the start
      (closed sorting before open at an equal start). */
  predicate KeyLe(a: Interval, b: Interval, withFlag: bool)
    requires ValidInterval(a) && ValidInterval(b)
  {
    var x, y := ToFloat(a.start, -1), ToFloat(b.start, -1);
    Below(x, y) || (x == y && (!withFlag || !a.openStart || b.openStart))
  }

  /** Each element's key is at most the next one's. */
  predicate Adjacent(xs: seq<Interval>, withFlag: bool)
    requires AllValid(xs)
  {
    forall k :: 0 < k < |xs| ==> KeyLe(xs[k - 1], xs[k], withFlag)
  }

  predicate SortedBy(xs: seq<Interval>, withFlag: bool)
    requires AllValid(xs)
  {
    forall i, j :: 0 <= i < j < |xs| ==> KeyLe(xs[i], xs[j], withFlag)
  }

  lemma KeyTotal(a: Interval, b: Interval, withFlag: bool)
    requires ValidInterval(a) && ValidInterval(b)
    ensures KeyLe(a, b, withFlag) || KeyLe(b, a, withFlag)
  {
  }

  lemma KeyTrans(a: Interval, b: Interval, c: Interval, withFlag: bool)
    requires ValidInterval(a) && ValidInterval(b) && ValidInterval(c)
    requires KeyLe(a, b, withFlag) && KeyLe(b, c, withFlag)
    ensures KeyLe(a, c, withFlag)
  {
  }

  /** Adjacent order is order between any two elements. */
  lemma {:induction false} AdjacentSorted(xs: seq<Interval>, withFlag: bool)
    requires AllValid(xs) && Adjacent(xs, withFlag)
    ensures SortedBy(xs, withFlag)
  {
    if |xs| > 1 {
      var init := xs[..|xs| - 1];
      assert forall k :: 0 <= k < |init| ==> init[k] == xs[k];
      AdjacentSorted(init, withFlag);
      forall i, j | 0 <= i < j < |xs| ensures KeyLe(xs[i], xs[j], withFlag) {
        if j == |xs| - 1 && i < j - 1 {
          KeyTrans(xs[i], xs[j - 1], xs[j], withFlag);
        }
      }
    }
  }

  /** Places x before the first element it does not follow, so that of two
      equal keys the one inserted first stays first. */
  function Insert(x: Interval, s: seq<Interval>, withFlag: bool): (r: seq<Interval>)
    requires ValidInterval(x) && AllValid(s)
    ensures AllValid(r)
    ensures multiset(r) == multiset(s) + multiset{x} && |r| == |s| + 1
    ensures r[0] == x || (s != [] && r[0] == s[0])
  {
    if s == [] then [x]
    else if KeyLe(x, s[0], withFlag) then [x] + s
    else
      assert s == [s[0]] + s[1..];
      [s[0]] + Insert(x, s[1..], withFlag)
  }

  lemma {:induction false} InsertAdjacent(x: Interval, s: seq<Interval>, withFlag: bool)
    requires ValidInterval(x) && AllValid(s) && Adjacent(s, withFlag)
    ensures Adjacent(Insert(x, s, withFlag), withFlag)
  {
    if s != [] && !KeyLe(x, s[0], withFlag) {
      var t := Insert(x, s[1..], withFlag);
      InsertAdjacent(x, s[1..], withFlag);
      KeyTotal(x, s[0], withFlag);
      var r := [s[0]] + t;
      assert r[1..] == t;
      assert r == Insert(x, s, withFlag);
    }
  }

  /** `list.sort` with the key above: a stable insertion sort. */
  function SortBy(xs: seq<Interval>, withFlag: bool): (r: seq<Interval>)
    requires AllValid(xs)
    ensures AllValid(r) && Adjacent(r, withFlag)
    ensures multiset(r) == multiset(xs) && |r| == |xs|
  {
    if xs == [] then []
    else
      assert xs == [xs[0]] + xs[1..];
      InsertAdjacent(xs[0], SortBy(xs[1..], withFlag), withFlag);
      Insert(xs[0], SortBy(xs[1..], withFlag), withFlag)
  }

  /** The sorted copy is in order and has the same elements. */
  lemma SortedMembers(xs: seq<Interval>, withFlag: bool)
    requires AllValid(xs)
    ensures SortedBy(SortBy(xs, withFlag), withFlag)
    ensures forall k :: 0 <= k < |SortBy(xs, withFlag)| ==> SortBy(xs, withFlag)[k] in xs
    ensures forall k :: 0 <= k < |xs| ==> xs[k] in SortBy(xs, withFlag)
  {
    var r := SortBy(xs, withFlag);
    AdjacentSorted(r, withFlag);
    assert forall k :: 0 <= k < |r| ==> r[k] in multiset(r);
    assert forall k :: 0 <= k < |xs| ==> xs[k] in multiset(xs);
  }

  /** The intervals of xs whose key equals k's, in their order in xs. */
  function SameKey(xs: seq<Interval>, k: Interval, withFlag: bool): (r: seq<Interval>)
    requires AllValid(xs) && ValidInterval(k)
    ensures |r| <= |xs|
  {
    if xs == [] then [] else KeyOf(xs[0], k, withFlag) + SameKey(xs[1..], k, withFlag)
  }

  /** Inserting x puts it first among the intervals of its key and leaves
      every other key alone. */
  lemma {:induction false} InsertStable(x: Interval, s: seq<Interval>, k: Interval, withFlag: bool)
    requires ValidInterval(x) && AllValid(s) && ValidInterval(k)
    ensures SameKey(Insert(x, s, withFlag), k, withFlag) == KeyOf(x, k, withFlag) + SameKey(s, k, withFlag)
  {
    if s == [] || KeyLe(x, s[0], withFlag) {
      assert Insert(x, s, withFlag) == [x] + s;
      SameKeyCons(x, s, k, withFlag);
    } else {
      var t := Insert(x, s[1..], withFlag);
      assert Insert(x, s, withFlag) == [s[0]] + t;
      assert s == [s[0]] + s[1..];
      InsertStable(x, s[1..], k, withFlag);
      SameKeyCons(s[0], t, k, withFlag);
      SameKeyCons(s[0], s[1..], k, withFlag);
      if KeyLe(x, k, withFlag) && KeyLe(k, x, withFlag) && KeyLe(k, s[0], withFlag) {
        KeyTrans(x, k, s[0], withFlag);
      }
      hide *;
      assert KeyOf(x, k, withFlag) == [] || KeyOf(s[0], k, withFlag) == [];
    }
  }

  /** [y] when y has k's key, [] otherwise. */
  function KeyOf(y: Interval, k: Interval, withFlag: bool): seq<Interval>
    requires ValidInterval(y) && ValidInterval(k)
  {
    if KeyLe(y, k, withFlag) && KeyLe(k, y, withFlag) then [y] else []
  }

  lemma SameKeyCons(y: Interval, s: seq<Interval>, k: Interval, withFlag: bool)
    requires ValidInterval(y) && AllValid(s) && ValidInterval(k)
    ensures AllValid([y] + s)
    ensures SameKey([y] + s, k, withFlag) == KeyOf(y, k, withFlag) + SameKey(s, k, withFlag)
  {
    assert ([y] + s)[1..] == s;
  }

  /** The sort is stable: for every key, the intervals of that key keep
      their order. */
  lemma {:induction false} SortStable(xs: seq<Interval>, k: Interval, withFlag: bool)
    requires AllValid(xs) && ValidInterval(k)
    ensures SameKey(SortBy(xs, withFlag), k, withFlag) == SameKey(xs, k, withFlag)
  {
    if xs != [] {
      SortStable(xs[1..], k, withFlag);
      InsertStable(xs[0], SortBy(xs[1..], withFlag), k, withFlag);
      assert SortBy(xs, withFlag) == Insert(xs[0], SortBy(xs[1..], withFlag), withFlag);
    }
  }

  /** One piece of a merged list: an interval, or the single point an
      interval [p, p] becomes (`SolutionSet([p])`). */
  datatype Piece = Span(interval: Interval) | Single(point: Const)

  predicate ValidPiece(p: Piece) {
    match p
    case Span(i) => ValidInterval(i)
    case Single(c) => Exact.Valid(c)
  }

  predicate PieceContains(p: Piece, x: real)
    requires ValidPiece(p)
  {
    match p
    case Span(i) => Contains(i, x)
    case Single(c) => x == Value(c)
  }

  predicate InSome(ps: seq<Piece>, x: real)
    requires forall k :: 0 <= k < |ps| ==> ValidPiece(ps[k])
  {
    exists k :: 0 <= k < |ps| && PieceContains(ps[k], x)
  }

  predicate InAny(xs: seq<Interval>, x: real)
    requires AllValid(xs)
  {
    exists k :: 0 <= k < |xs| && Contains(xs[k], x)
  }

  function Spans(xs: seq<Interval>): (r: seq<Piece>)
    ensures |r| == |xs| && forall k :: 0 <= k < |xs| ==> r[k] == Span(xs[k])
  {
    if xs == [] then [] else [Span(xs[0])] + Spans(xs[1..])
  }

  /** Whether the next interval n, starting no earlier than c, touches or
      overlaps it: it starts before c ends, or exactly where c ends with
      both of those sides closed. */
  predicate Overlaps(c: Interval, n: Interval)
    requires ValidInterval(c) && ValidInterval(n)
  {
    var cEnd, nStart := ToFloat(c.end, 1), ToFloat(n.start, -1);
    Below(nStart, cEnd) || (nStart == cEnd && !(n.openStart || c.openEnd))
  }

  /** The merge step as written: c's start, then the later end; when c
      ends later, its end is kept but closed if n's end is. */
  function Joined(c: Interval, n: Interval): (r: Interval)
    requires ValidInterval(c) && ValidInterval(n)
    ensures ValidInterval(r) && r.start == c.start && r.openStart == c.openStart
  {
    var cEnd, nEnd := ToFloat(c.end, 1), ToFloat(n.end, 1);
    if Below(cEnd, nEnd) then Interval(c.start, n.end, c.openStart, n.openEnd)
    else Interval(c.start, c.end, c.openStart, c.openEnd && n.openEnd)
  }

  /** [0, 5) merged with [1, 2] gives [0, 5], which holds 5 although
      neither input does. */
  lemma EndClosedByInner()
    ensures var c, n := Interval(Num(0), Num(5), false, true), Interval(Num(1), Num(2), false, false);
      Overlaps(c, n) && Joined(c, n) == Interval(Num(0), Num(5), false, false)
      && Contains(Joined(c, n), 5.0) && !Contains(c, 5.0) && !Contains(n, 5.0)
  {
    var c, n := Interval(Num(0), Num(5), false, true), Interval(Num(1), Num(2), false, false);
    assert Value(FromInt(0)) == 0.0 && Value(FromInt(1)) == 1.0 && Value(FromInt(2)) == 2.0 && Value(FromInt(5)) == 5.0;
    assert Joined(c, n) == Interval(Num(0), Num(5), false, false);
  }

  /** The merge step as intended: the end that reaches further, with its
      own flag; at an equal end, open only when both are. */
  function Union(c: Interval, n: Interval): (r: Interval)
    requires ValidInterval(c) && ValidInterval(n)
    ensures ValidInterval(r) && r.start == c.start && r.openStart == c.openStart
  {
    var cEnd, nEnd := ToFloat(c.end, 1), ToFloat(n.end, 1);
    if Below(cEnd, nEnd) then Interval(c.start, n.end, c.openStart, n.openEnd)
    else if cEnd == nEnd then Interval(c.start, c.end, c.openStart, c.openEnd && n.openEnd)
    else c
  }

  /** The merge step of the sweep: the one of the source when `written`
      holds, the intended one otherwise. */
  function MergeStep(c: Interval, n: Interval, written: bool): (r: Interval)
    requires ValidInterval(c) && ValidInterval(n)
    ensures ValidInterval(r) && r.start == c.start && r.openStart == c.openStart
    ensures r.end == c.end || r.end == n.end
  {
    if written then Joined(c, n) else Union(c, n)
  }

  /** The lower side of Contains: x is at or after i's start. */
  predicate FromStart(i: Interval, x: real)
    requires ValidInterval(i)
  {
    match i.start
    case None => true
    case Some(s) => if i.openStart then x > Value(s) else x >= Value(s)
  }

  /** x is the value of i's finite end. */
  predicate EndOf(i: Interval, x: real)
    requires ValidInterval(i)
  {
    i.end.Some? && Value(i.end.value) == x
  }

  /** When two intervals overlap and c starts first, their union is one
      interval. */
  lemma UnionContains(c: Interval, n: Interval, x: real)
    requires ValidInterval(c) && ValidInterval(n)
    requires KeyLe(c, n, true) && Overlaps(c, n)
    ensures Contains(Union(c, n), x) <==> Contains(c, x) || Contains(n, x)
  {
  }

  /** The step as written holds both intervals, and besides them at most
      the end of c, which it may close. */
  lemma JoinedContains(c: Interval, n: Interval, x: real)
    requires ValidInterval(c) && ValidInterval(n)
    requires KeyLe(c, n, true) && Overlaps(c, n)
    ensures Contains(c, x) || Contains(n, x) ==> Contains(Joined(c, n), x)
    ensures Contains(Joined(c, n), x) ==> Contains(c, x) || Contains(n, x) || EndOf(c, x)
  {
  }

  lemma StepContains(c: Interval, n: Interval, x: real, written: bool)
    requires ValidInterval(c) && ValidInterval(n)
    requires KeyLe(c, n, true) && Overlaps(c, n)
    ensures Contains(c, x) || Contains(n, x) ==> Contains(MergeStep(c, n, written), x)
    ensures Contains(MergeStep(c, n, written), x) ==> Contains(c, x) || Contains(n, x) || (written && EndOf(c, x))
    ensures EndOf(MergeStep(c, n, written), x) ==> EndOf(c, x) || EndOf(n, x)
  {
    if written {
      JoinedContains(c, n, x);
    } else {
      UnionContains(c, n, x);
    }
  }

  /** An interval the merge emits on its own: a single point when its two
      ends are the same value. */
  function Emit(c: Interval): (r: Piece)
    requires ValidInterval(c) && c.end.Some?
    ensures ValidPiece(r)
  {
    if c.start == c.end then Single(c.start.value) else Span(c)
  }

  /** The sweep of `merge_intervals` over a sorted list: c is the piece
      being grown, rest the intervals still to come. */
  function Sweep(c: Interval, rest: seq<Interval>, written: bool): (r: seq<Piece>)
    requires ValidInterval(c) && AllValid(rest)
    ensures forall k :: 0 <= k < |r| ==> ValidPiece(r[k])
    decreases |rest|
  {
    if rest == [] then [Span(c)]
    else if !Overlaps(c, rest[0]) then [Emit(c)] + Sweep(rest[0], rest[1..], written)
    else Sweep(MergeStep(c, rest[0], written), rest[1..], written)
  }

  /** `merge_intervals`: a list of at most one interval is returned as it
      is; otherwise the sweep of its sorted copy. With `written` the sweep
      takes the source's step, without it the intended one. */
  function Merge(intervals: seq<Interval>, written: bool): (r: seq<Piece>)
    requires AllValid(intervals)
    ensures forall k :: 0 <= k < |r| ==> ValidPiece(r[k])
  {
    if |intervals| <= 1 then Spans(intervals)
    else
      var sorted := SortBy(intervals, true);
      Sweep(sorted[0], sorted[1..], written)
  }

  /** `merge_intervals` with its loop, as written. */
  method MergeIntervals(intervals: seq<Interval>) returns (merged: seq<Piece>)
    requires AllValid(intervals)
    ensures merged == Merge(intervals, true)
  {
    hide Overlaps, Joined, Union, Emit, KeyLe, Contains, Empty, SortBy;
    if |intervals| <= 1 {
      return Spans(intervals);
    }
    var sorted := SortBy(intervals, true);
    merged := [];
    var c := sorted[0];
    var k := 1;
    while k < |sorted|
      invariant 1 <= k <= |sorted|
      invariant ValidInterval(c)
      invariant merged + Sweep(c, sorted[k..], true) == Sweep(sorted[0], sorted[1..], true)
    {
      var n := sorted[k];
      assert sorted[k..] == [n] + sorted[k + 1..];
      if !Overlaps(c, n) {
        ApartEnds(c, n);
        merged := merged + [Emit(c)];
        c := n;
      } else {
        c := Joined(c, n);
      }
      k := k + 1;
    }
    merged := merged + [Span(c)];
  }

  /** Every interval in the list starts, by the merge key, no earlier than c. */
  predicate AllAfter(c: Interval, rest: seq<Interval>)
    requires ValidInterval(c) && AllValid(rest)
  {
    forall j :: 0 <= j < |rest| ==> KeyLe(c, rest[j], true)
  }

  predicate NoneEmpty(xs: seq<Interval>)
    requires AllValid(xs)
  {
    forall j :: 0 <= j < |xs| ==> !Empty(xs[j])
  }

  /** Some interval of the list ends at x. */
  predicate EndsAny(xs: seq<Interval>, x: real)
    requires AllValid(xs)
  {
    exists k :: 0 <= k < |xs| && EndOf(xs[k], x)
  }

  /** A point of an interval starting after c is past c's start. */
  lemma AfterFromStart(c: Interval, n: Interval, x: real)
    requires ValidInterval(c) && ValidInterval(n) && KeyLe(c, n, true) && FromStart(n, x)
    ensures FromStart(c, x)
  {
  }

  lemma ContainsFromStart(c: Interval, x: real)
    requires ValidInterval(c) && Contains(c, x)
    ensures FromStart(c, x)
  {
  }

  /** The end of an interval that is not empty is past its start. */
  lemma EndFromStart(c: Interval, x: real)
    requires ValidInterval(c) && !Empty(c) && EndOf(c, x)
    ensures FromStart(c, x)
  {
  }

  /** An emitted piece has the points of its interval. */
  lemma EmitContains(c: Interval, x: real)
    requires ValidInterval(c) && c.end.Some? && !Empty(c)
    ensures PieceContains(Emit(c), x) <==> Contains(c, x)
  {
  }

  /** A merge step keeps a non-empty interval non-empty. */
  lemma StepNonEmpty(c: Interval, n: Interval, written: bool)
    requires ValidInterval(c) && ValidInterval(n) && KeyLe(c, n, true) && Overlaps(c, n) && !Empty(c)
    ensures !Empty(MergeStep(c, n, written))
  {
    var y := NonEmptyHasPoint(c);
    StepContains(c, n, y, written);
  }

  /** An interval that does not reach the next start has a finite end. */
  lemma ApartEnds(c: Interval, n: Interval)
    requires ValidInterval(c) && ValidInterval(n) && !Overlaps(c, n)
    ensures c.end.Some?
  {
  }

  /** The facts the sweep hands on from one interval to the next. */
  lemma {:induction false} Handover(c: Interval, rest: seq<Interval>, written: bool)
    requires ValidInterval(c) && AllValid(rest) && rest != []
    requires AllAfter(c, rest) && SortedBy(rest, true) && NoneEmpty(rest)
    ensures AllValid(rest[1..]) && SortedBy(rest[1..], true) && NoneEmpty(rest[1..])
    ensures AllAfter(rest[0], rest[1..]) && !Empty(rest[0]) && KeyLe(c, rest[0], true)
    ensures Overlaps(c, rest[0]) ==> AllAfter(MergeStep(c, rest[0], written), rest[1..])
  {
    var tail := rest[1..];
    assert forall j :: 0 <= j < |tail| ==> tail[j] == rest[j + 1];
    var u := MergeStep(c, rest[0], written);
    assert forall j :: 0 <= j < |tail| ==> KeyLe(u, tail[j], true) == KeyLe(c, tail[j], true);
  }

  lemma InAnyCons(xs: seq<Interval>, x: real)
    requires AllValid(xs) && xs != []
    ensures AllValid(xs[1..])
    ensures InAny(xs, x) <==> Contains(xs[0], x) || InAny(xs[1..], x)
    ensures EndsAny(xs, x) <==> EndOf(xs[0], x) || EndsAny(xs[1..], x)
  {
    var tail := xs[1..];
    if InAny(xs, x) {
      var j :| 0 <= j < |xs| && Contains(xs[j], x);
      if j > 0 { assert tail[j - 1] == xs[j]; }
    }
    if InAny(tail, x) {
      var j :| 0 <= j < |tail| && Contains(tail[j], x);
      assert xs[j + 1] == tail[j];
    }
    if EndsAny(xs, x) {
      var j :| 0 <= j < |xs| && EndOf(xs[j], x);
      if j > 0 { assert tail[j - 1] == xs[j]; }
    }
    if EndsAny(tail, x) {
      var j :| 0 <= j < |tail| && EndOf(tail[j], x);
      assert xs[j + 1] == tail[j];
    }
  }

  lemma InSomeCons(p: Piece, ps: seq<Piece>, x: real)
    requires ValidPiece(p) && forall k :: 0 <= k < |ps| ==> ValidPiece(ps[k])
    ensures forall k :: 0 <= k < |[p] + ps| ==> ValidPiece(([p] + ps)[k])
    ensures InSome([p] + ps, x) <==> PieceContains(p, x) || InSome(ps, x)
  {
    var r := [p] + ps;
    if PieceContains(p, x) {
      assert PieceContains(r[0], x);
    }
    if InSome(r, x) {
      var j :| 0 <= j < |r| && PieceContains(r[j], x);
      if j > 0 { assert ps[j - 1] == r[j]; }
    }
    if InSome(ps, x) {
      var j :| 0 <= j < |ps| && PieceContains(ps[j], x);
      assert r[j + 1] == ps[j];
      assert PieceContains(r[j + 1], x);
    }
  }

  lemma LastPiece(c: Interval, x: real)
    requires ValidInterval(c)
    ensures InSome([Span(c)], x) <==> Contains(c, x)
  {
    assert PieceContains([Span(c)][0], x) <==> Contains(c, x);
  }

  /** The sweep keeps every point of its inputs. The intended sweep keeps
      nothing else; the sweep as written may besides hold the end of one of
      its inputs. */
  lemma {:induction false} SweepCovers(c: Interval, rest: seq<Interval>, x: real, written: bool)
    requires ValidInterval(c) && AllValid(rest) && !Empty(c)
    requires AllAfter(c, rest) && SortedBy(rest, true) && NoneEmpty(rest)
    ensures Contains(c, x) || InAny(rest, x) ==> InSome(Sweep(c, rest, written), x)
    ensures InSome(Sweep(c, rest, written), x) ==>
      Contains(c, x) || InAny(rest, x) || (written && (EndOf(c, x) || EndsAny(rest, x)))
    decreases |rest|
  {
    hide Contains, PieceContains, Overlaps, MergeStep, Emit, Empty, KeyLe, AllAfter, SortedBy, NoneEmpty, EndOf;
    if rest == [] {
      assert Sweep(c, rest, written) == [Span(c)];
      LastPiece(c, x);
    } else {
      var n, tail := rest[0], rest[1..];
      InAnyCons(rest, x);
      Handover(c, rest, written);
      if !Overlaps(c, n) {
        ApartEnds(c, n);
        var s := Sweep(n, tail, written);
        assert Sweep(c, rest, written) == [Emit(c)] + s;
        SweepCovers(n, tail, x, written);
        EmitContains(c, x);
        InSomeCons(Emit(c), s, x);
      } else {
        var u := MergeStep(c, n, written);
        StepContains(c, n, x, written);
        StepNonEmpty(c, n, written);
        assert Sweep(c, rest, written) == Sweep(u, tail, written);
        SweepCovers(u, tail, x, written);
      }
    }
  }

  /** Every point of the sweep lies at or after the start of c. */
  lemma SweepFromStart(c: Interval, rest: seq<Interval>, x: real, written: bool)
    requires ValidInterval(c) && AllValid(rest) && !Empty(c)
    requires AllAfter(c, rest) && SortedBy(rest, true) && NoneEmpty(rest)
    requires InSome(Sweep(c, rest, written), x)
    ensures FromStart(c, x)
  {
    hide Contains, FromStart, KeyLe, Sweep, EndOf, Empty;
    SweepCovers(c, rest, x, written);
    if Contains(c, x) {
      ContainsFromStart(c, x);
    } else if InAny(rest, x) {
      var j :| 0 <= j < |rest| && Contains(rest[j], x);
      assert KeyLe(c, rest[j], true);
      ContainsFromStart(rest[j], x);
      AfterFromStart(c, rest[j], x);
    } else if EndOf(c, x) {
      EndFromStart(c, x);
    } else {
      var j :| 0 <= j < |rest| && EndOf(rest[j], x);
      assert KeyLe(c, rest[j], true) && !Empty(rest[j]);
      EndFromStart(rest[j], x);
      AfterFromStart(c, rest[j], x);
    }
  }

  /** Pieces come out in order and apart: every point of a piece lies
      below every point of any later piece. */
  ghost predicate Separated(ps: seq<Piece>)
    requires forall k :: 0 <= k < |ps| ==> ValidPiece(ps[k])
  {
    forall i, j, x, y :: 0 <= i < j < |ps| && PieceContains(ps[i], x) && PieceContains(ps[j], y) ==> x < y
  }

  /** The points of c lie below those of an interval it does not reach. */
  lemma ApartBelow(c: Interval, n: Interval, x: real, y: real)
    requires ValidInterval(c) && ValidInterval(n) && !Overlaps(c, n)
    requires Contains(c, x) && FromStart(n, y)
    ensures x < y
  {
  }

  /** Both sweeps emit pieces in order and apart: the test for the next
      interval is made against the grown piece, whatever its end flag. */
  lemma {:induction false} SweepSeparated(c: Interval, rest: seq<Interval>, written: bool)
    requires ValidInterval(c) && AllValid(rest) && !Empty(c)
    requires AllAfter(c, rest) && SortedBy(rest, true) && NoneEmpty(rest)
    ensures Separated(Sweep(c, rest, written))
    decreases |rest|
  {
    hide Contains, PieceContains, Overlaps, MergeStep, Emit, Empty, KeyLe, AllAfter, SortedBy, NoneEmpty, FromStart;
    if rest != [] {
      var n, tail := rest[0], rest[1..];
      Handover(c, rest, written);
      if !Overlaps(c, n) {
        ApartEnds(c, n);
        var s := Sweep(n, tail, written);
        SweepSeparated(n, tail, written);
        var r := [Emit(c)] + s;
        assert Sweep(c, rest, written) == r;
        forall i, j, x, y | 0 <= i < j < |r| && PieceContains(r[i], x) && PieceContains(r[j], y)
          ensures x < y
        {
          if i == 0 {
            assert PieceContains(s[j - 1], y);
            assert InSome(s, y);
            SweepFromStart(n, tail, y, written);
            EmitContains(c, x);
            ApartBelow(c, n, x, y);
          } else {
            assert r[i] == s[i - 1] && r[j] == s[j - 1];
          }
        }
      } else {
        StepNonEmpty(c, n, written);
        assert Sweep(c, rest, written) == Sweep(MergeStep(c, n, written), tail, written);
        SweepSeparated(MergeStep(c, n, written), tail, written);
      }
    }
  }

  /** The merged list holds every point of the input, in disjoint pieces
      that come in increasing order. The intended merge holds nothing else;
      the merge as written may besides hold the end of an input interval. */
  lemma MergeCovers(intervals: seq<Interval>, x: real, written: bool)
    requires AllValid(intervals) && NoneEmpty(intervals)
    ensures InAny(intervals, x) ==> InSome(Merge(intervals, written), x)
    ensures InSome(Merge(intervals, written), x) ==> InAny(intervals, x) || (written && EndsAny(intervals, x))
    ensures |intervals| > 1 ==> Separated(Merge(intervals, written))
  {
    if |intervals| <= 1 {
      var m := Merge(intervals, written);
      assert InSome(m, x) <==> InAny(intervals, x) by {
        if InSome(m, x) {
          var j :| 0 <= j < |m| && PieceContains(m[j], x);
          assert Contains(intervals[j], x);
        }
        if InAny(intervals, x) {
          var j :| 0 <= j < |intervals| && Contains(intervals[j], x);
          assert PieceContains(m[j], x);
        }
      }
    } else {
      var sorted := SortBy(intervals, true);
      SortedMembers(intervals, true);
      SortedCover(intervals, sorted, x);
      assert AllAfter(sorted[0], sorted) by {
        forall j | 0 <= j < |sorted| ensures KeyLe(sorted[0], sorted[j], true) {
          if j > 0 { assert KeyLe(sorted[0], sorted[j], true); } else { KeyTotal(sorted[0], sorted[0], true); }
        }
      }
      assert !Empty(sorted[0]) && AllAfter(sorted[0], sorted) && SortedBy(sorted, true) && NoneEmpty(sorted);
      Handover(sorted[0], sorted, written);
      hide Contains, PieceContains, Empty, KeyLe, SortBy, Sweep, EndOf;
      assert Merge(intervals, written) == Sweep(sorted[0], sorted[1..], written);
      SweepCovers(sorted[0], sorted[1..], x, written);
      SweepSeparated(sorted[0], sorted[1..], written);
      InAnyCons(sorted, x);
    }
  }

  /** Reordering keeps the points, the ends and the non-emptiness of the
      list. */
  lemma SortedCover(xs: seq<Interval>, sorted: seq<Interval>, x: real)
    requires AllValid(xs) && AllValid(sorted)
    requires forall k :: 0 <= k < |sorted| ==> sorted[k] in xs
    requires forall k :: 0 <= k < |xs| ==> xs[k] in sorted
    ensures NoneEmpty(xs) ==> NoneEmpty(sorted)
    ensures InAny(sorted, x) <==> InAny(xs, x)
    ensures EndsAny(sorted, x) <==> EndsAny(xs, x)
  {
    if InAny(sorted, x) {
      var j :| 0 <= j < |sorted| && Contains(sorted[j], x);
      var k :| 0 <= k < |xs| && xs[k] == sorted[j];
    }
    if InAny(xs, x) {
      var j :| 0 <= j < |xs| && Contains(xs[j], x);
      var k :| 0 <= k < |sorted| && sorted[k] == xs[j];
    }
    if EndsAny(sorted, x) {
      var j :| 0 <= j < |sorted| && EndOf(sorted[j], x);
      var k :| 0 <= k < |xs| && xs[k] == sorted[j];
    }
    if EndsAny(xs, x) {
      var j :| 0 <= j < |xs| && EndOf(xs[j], x);
      var k :| 0 <= k < |sorted| && sorted[k] == xs[j];
    }
  }

  /** [0, 5) and [1, 2] merge, as written, to [0, 5], which holds 5; the
      intended merge gives [0, 5) and holds exactly the points of the
      input. */
  lemma MergeClosesEnd()
    ensures var xs := [Interval(Num(0), Num(5), false, true), Interval(Num(1), Num(2), false, false)];
      Merge(xs, true) == [Span(Interval(Num(0), Num(5), false, false))]
      && Merge(xs, false) == [Span(Interval(Num(0), Num(5), false, true))]
      && !InAny(xs, 5.0)
  {
    var c, n := Interval(Num(0), Num(5), false, true), Interval(Num(1), Num(2), false, false);
    var xs := [c, n];
    assert Value(FromInt(0)) == 0.0 && Value(FromInt(1)) == 1.0 && Value(FromInt(2)) == 2.0 && Value(FromInt(5)) == 5.0;
    assert SortBy(xs[1..], true) == [n];
    assert KeyLe(c, n, true);
    assert SortBy(xs, true) == xs;
    assert Overlaps(c, n);
    assert Sweep(c, [n], true) == Sweep(Joined(c, n), [], true);
    assert Sweep(c, [n], false) == Sweep(Union(c, n), [], false);
    assert !Contains(c, 5.0) && !Contains(n, 5.0);
    assert !InAny(xs, 5.0) by {
      forall k | 0 <= k < 2 ensures !Contains(xs[k], 5.0) {
        if k == 0 { assert xs[k] == c; } else { assert xs[k] == n; }
      }
    }
  }

  predicate AllValidConst(cs: seq<Const>) {
    forall k :: 0 <= k < |cs| ==> Exact.Valid(cs[k])
  }

  /** The roots `split_domain_by_roots` keeps: those whose value scaled by
      0.999 lies in the domain. */
  function KeepRoots(domain: Interval, roots: seq<Const>): (r: seq<Const>)
    requires ValidInterval(domain) && AllValidConst(roots)
    ensures AllValidConst(r)
    ensures forall k :: 0 <= k < |r| ==> r[k] in roots && Contains(domain, Value(r[k]) * 0.999)
    ensures forall k :: 0 <= k < |roots| ==> (Contains(domain, Value(roots[k]) * 0.999) <==> roots[k] in r)
  {
    if roots == [] then []
    else
      var rest := KeepRoots(domain, roots[1..]);
      assert forall k :: 0 < k < |roots| ==> roots[k] == roots[1..][k - 1];
      if Contains(domain, Value(roots[0]) * 0.999) then [roots[0]] + rest else rest
  }

  /** The pieces between consecutive cut points: the first starts as the
      domain does, the last ends as it does, every cut is open or closed
      as `open` says. */
  function Splits(start: Option<Const>, openStart: bool, cuts: seq<Const>, end: Option<Const>, openEnd: bool, open: bool): (r: seq<Interval>)
    requires ValidBound(start) && ValidBound(end) && AllValidConst(cuts)
    ensures AllValid(r) && |r| == |cuts| + 1
    ensures r[0].start == start && r[0].openStart == openStart
    ensures r[|r| - 1].end == end && r[|r| - 1].openEnd == openEnd
    decreases |cuts|
  {
    if cuts == [] then [Interval(start, end, openStart, openEnd)]
    else [Interval(start, Some(cuts[0]), openStart, open)] + Splits(Some(cuts[0]), open, cuts[1..], end, openEnd, open)
  }

  /** `split_domain_by_roots` with its loop over consecutive cut points. */
  method SplitDomainByRoots(domain: Interval, roots: seq<Const>, open: bool) returns (res: seq<Interval>)
    requires ValidInterval(domain) && AllValidConst(roots)
    ensures res == Splits(domain.start, domain.openStart, KeepRoots(domain, roots), domain.end, domain.openEnd, open)
    ensures KeepRoots(domain, roots) == [] ==> res == [domain]
  {
    hide Contains, KeepRoots;
    var kept := KeepRoots(domain, roots);
    if kept == [] {
      return [domain];
    }
    res := [];
    var left := domain.start;
    var i := 0;
    while i < |kept| + 1
      invariant 0 <= i <= |kept| + 1 && |res| == i
      invariant i <= |kept| ==> left == CutPoint(domain.start, kept, domain.end, i)
      invariant forall k :: 0 <= k < i ==>
        res[k] == SplitPiece(domain.start, domain.openStart, kept, domain.end, domain.openEnd, open, k)
    {
      var leftOpen := if i == 0 then domain.openStart else open;
      var right := if i < |kept| then Some(kept[i]) else domain.end;
      var rightOpen := if i == |kept| then domain.openEnd else open;
      res := res + [Interval(left, right, leftOpen, rightOpen)];
      left := right;
      i := i + 1;
    }
    SplitsPieces(domain.start, domain.openStart, kept, domain.end, domain.openEnd, open);
  }

  /** The k-th of the points `[domain.start, *roots, domain.end]`. */
  function CutPoint(start: Option<Const>, cuts: seq<Const>, end: Option<Const>, k: nat): Option<Const>
    requires k <= |cuts| + 1
  {
    if k == 0 then start else if k <= |cuts| then Some(cuts[k - 1]) else end
  }

  /** The k-th piece the loop of `split_domain_by_roots` appends. */
  function SplitPiece(start: Option<Const>, openStart: bool, cuts: seq<Const>, end: Option<Const>, openEnd: bool, open: bool, k: nat): Interval
    requires k <= |cuts|
  {
    Interval(CutPoint(start, cuts, end, k), CutPoint(start, cuts, end, k + 1),
      if k == 0 then openStart else open, if k == |cuts| then openEnd else open)
  }

  /** The recursive split is the sequence of those pieces. */
  lemma {:induction false} SplitsPieces(start: Option<Const>, openStart: bool, cuts: seq<Const>, end: Option<Const>, openEnd: bool, open: bool)
    requires ValidBound(start) && ValidBound(end) && AllValidConst(cuts)
    ensures |Splits(start, openStart, cuts, end, openEnd, open)| == |cuts| + 1
    ensures forall k :: 0 <= k <= |cuts| ==>
      Splits(start, openStart, cuts, end, openEnd, open)[k] == SplitPiece(start, openStart, cuts, end, openEnd, open, k)
    decreases |cuts|
  {
    if cuts != [] {
      var tail := cuts[1..];
      assert AllValidConst(tail);
      SplitsPieces(Some(cuts[0]), open, tail, end, openEnd, open);
      var r := Splits(start, openStart, cuts, end, openEnd, open);
      var s := Splits(Some(cuts[0]), open, tail, end, openEnd, open);
      assert r == [Interval(start, Some(cuts[0]), openStart, open)] + s;
      forall k | 1 <= k <= |cuts|
        ensures r[k] == SplitPiece(start, openStart, cuts, end, openEnd, open, k)
      {
        assert r[k] == s[k - 1];
        assert k - 1 >= 1 ==> CutPoint(Some(cuts[0]), tail, end, k - 1) == Some(cuts[k - 1]);
        assert k + 1 <= |cuts| ==> CutPoint(Some(cuts[0]), tail, end, k) == Some(cuts[k]);
      }
    }
  }

  predicate Increasing(cs: seq<Const>)
    requires AllValidConst(cs)
  {
    forall i, j :: 0 <= i < j < |cs| ==> Value(cs[i]) < Value(cs[j])
  }

  /** Every cut lies strictly inside the domain. */
  predicate Inside(start: Option<Const>, cuts: seq<Const>, end: Option<Const>)
    requires ValidBound(start) && ValidBound(end) && AllValidConst(cuts)
  {
    forall k :: 0 <= k < |cuts| ==>
      Below(ToFloat(start, -1), Finite(Value(cuts[k]))) && Below(Finite(Value(cuts[k])), ToFloat(end, 1))
  }

  predicate IsCut(cuts: seq<Const>, x: real)
    requires AllValidConst(cuts)
  {
    exists k :: 0 <= k < |cuts| && Value(cuts[k]) == x
  }

  /** Cutting a domain at increasing points inside it keeps every point
      that is not a cut, and the cuts exactly when they are closed. */
  lemma {:induction false} SplitCovers(start: Option<Const>, openStart: bool, cuts: seq<Const>, end: Option<Const>, openEnd: bool, open: bool, x: real)
    requires ValidBound(start) && ValidBound(end) && AllValidConst(cuts)
    requires Increasing(cuts) && Inside(start, cuts, end)
    ensures AllValid(Splits(start, openStart, cuts, end, openEnd, open))
    ensures InAny(Splits(start, openStart, cuts, end, openEnd, open), x)
      <==> Contains(Interval(start, end, openStart, openEnd), x) && !(open && IsCut(cuts, x))
    decreases |cuts|
  {
    hide Contains, Increasing, Inside, IsCut;
    var r := Splits(start, openStart, cuts, end, openEnd, open);
    if cuts == [] {
      assert r == [Interval(start, end, openStart, openEnd)];
      assert r[1..] == [];
      InAnyCons(r, x);
      NoCut(x);
    } else {
      var c, tail := cuts[0], cuts[1..];
      CutsTail(start, cuts, end, x);
      var s := Splits(Some(c), open, tail, end, openEnd, open);
      SplitCovers(Some(c), open, tail, end, openEnd, open, x);
      var first := Interval(start, Some(c), openStart, open);
      assert r == [first] + s;
      assert r[1..] == s;
      InAnyCons(r, x);
      SplitStep(start, c, end, openStart, open, openEnd, x, IsCut(tail, x));
    }
  }

  lemma NoCut(x: real)
    ensures !IsCut([], x)
  {
  }

  /** What the cuts after the first inherit. */
  lemma CutsTail(start: Option<Const>, cuts: seq<Const>, end: Option<Const>, x: real)
    requires ValidBound(start) && ValidBound(end) && AllValidConst(cuts) && cuts != []
    requires Increasing(cuts) && Inside(start, cuts, end)
    ensures AllValidConst(cuts[1..]) && Increasing(cuts[1..]) && Inside(Some(cuts[0]), cuts[1..], end)
    ensures Below(ToFloat(start, -1), Finite(Value(cuts[0]))) && Below(Finite(Value(cuts[0])), ToFloat(end, 1))
    ensures IsCut(cuts, x) <==> Value(cuts[0]) == x || IsCut(cuts[1..], x)
    ensures IsCut(cuts[1..], x) ==> x > Value(cuts[0])
  {
    var c, tail := cuts[0], cuts[1..];
    assert forall k :: 0 <= k < |tail| ==> tail[k] == cuts[k + 1];
    assert forall k :: 0 <= k < |tail| ==> Value(c) < Value(tail[k]);
    if IsCut(cuts, x) {
      var k :| 0 <= k < |cuts| && Value(cuts[k]) == x;
      if k > 0 { assert Value(tail[k - 1]) == x; }
    }
  }

  /** One cut: the piece before it and the pieces after it make up the
      domain less the cut, and the cut itself when it is closed. */
  lemma SplitStep(start: Option<Const>, c: Const, end: Option<Const>, openStart: bool, open: bool, openEnd: bool, x: real, laterCut: bool)
    requires ValidBound(start) && ValidBound(end) && Exact.Valid(c)
    requires Below(ToFloat(start, -1), Finite(Value(c))) && Below(Finite(Value(c)), ToFloat(end, 1))
    requires laterCut ==> x > Value(c)
    ensures (Contains(Interval(start, Some(c), openStart, open), x)
             || (Contains(Interval(Some(c), end, open, openEnd), x) && !(open && laterCut)))
      <==> Contains(Interval(start, end, openStart, openEnd), x) && !(open && (Value(c) == x || laterCut))
  {
  }

  predicate AllDomainsValid(ds: seq<seq<Interval>>) {
    forall d :: 0 <= d < |ds| ==> AllValid(ds[d])
  }

  /** Each tuple of ts with x in front. */
  function Cons(x: Interval, ts: seq<seq<Interval>>): (r: seq<seq<Interval>>)
    ensures |r| == |ts| && forall i :: 0 <= i < |ts| ==> r[i] == [x] + ts[i]
  {
    if ts == [] then [] else [[x] + ts[0]] + Cons(x, ts[1..])
  }

  /** Every element of xs in front of every tuple of ts, the element
      varying slowest. */
  function Prefix(xs: seq<Interval>, ts: seq<seq<Interval>>): seq<seq<Interval>> {
    if xs == [] then [] else Cons(xs[0], ts) + Prefix(xs[1..], ts)
  }

  /** `itertools.product(*domains)`: of no iterables, one empty tuple. */
  function Product(ds: seq<seq<Interval>>): (r: seq<seq<Interval>>)
    ensures ds == [] ==> r == [[]]
  {
    if ds == [] then [[]] else Prefix(ds[0], Product(ds[1..]))
  }

  /** Where a tuple of the prefix list comes from. */
  lemma {:induction false} PrefixSource(xs: seq<Interval>, ts: seq<seq<Interval>>, m: nat) returns (j: nat, i: nat)
    requires m < |Prefix(xs, ts)|
    ensures j < |xs| && i < |ts| && Prefix(xs, ts)[m] == [xs[j]] + ts[i]
  {
    var c := Cons(xs[0], ts);
    assert Prefix(xs, ts) == c + Prefix(xs[1..], ts);
    if m < |c| {
      j, i := 0, m;
    } else {
      var j1, i1 := PrefixSource(xs[1..], ts, m - |c|);
      j, i := j1 + 1, i1;
    }
  }

  /** Where the prefix list holds a given pairing. */
  lemma {:induction false} PrefixHas(xs: seq<Interval>, ts: seq<seq<Interval>>, j: nat, i: nat) returns (m: nat)
    requires j < |xs| && i < |ts|
    ensures m < |Prefix(xs, ts)| && Prefix(xs, ts)[m] == [xs[j]] + ts[i]
  {
    var c := Cons(xs[0], ts);
    assert Prefix(xs, ts) == c + Prefix(xs[1..], ts);
    if j == 0 {
      m := i;
    } else {
      var m1 := PrefixHas(xs[1..], ts, j - 1, i);
      m := |c| + m1;
    }
  }

  /** A tuple of the product takes its d-th element from the d-th domain. */
  lemma {:induction false} ProductShape(ds: seq<seq<Interval>>, m: nat)
    requires m < |Product(ds)|
    ensures |Product(ds)[m]| == |ds| && forall d :: 0 <= d < |ds| ==> Product(ds)[m][d] in ds[d]
  {
    hide Prefix, Cons;
    if ds != [] {
      var rest := Product(ds[1..]);
      var j, i := PrefixSource(ds[0], rest, m);
      ProductShape(ds[1..], i);
      var t := Product(ds)[m];
      assert t == [ds[0][j]] + rest[i];
      assert forall d :: 1 <= d < |ds| ==> t[d] == rest[i][d - 1] && ds[d] == ds[1..][d - 1];
    }
  }

  /** Every choice of one interval per domain is a tuple of the product. */
  lemma {:induction false} ProductHas(ds: seq<seq<Interval>>, t: seq<Interval>) returns (m: nat)
    requires |t| == |ds| && forall d :: 0 <= d < |ds| ==> t[d] in ds[d]
    ensures m < |Product(ds)| && Product(ds)[m] == t
  {
    hide Prefix, Cons;
    if ds == [] {
      m := 0;
    } else {
      var rest := Product(ds[1..]);
      assert forall d :: 0 <= d < |ds| - 1 ==> t[1..][d] == t[d + 1] && ds[1..][d] == ds[d + 1];
      var i := ProductHas(ds[1..], t[1..]);
      var j :| 0 <= j < |ds[0]| && ds[0][j] == t[0];
      m := PrefixHas(ds[0], rest, j, i);
      assert t == [t[0]] + t[1..];
    }
  }

  lemma ProductValid(ds: seq<seq<Interval>>)
    requires AllDomainsValid(ds)
    ensures forall m :: 0 <= m < |Product(ds)| ==> |Product(ds)[m]| == |ds| && AllValid(Product(ds)[m])
    ensures ds != [] ==> Tuples(Product(ds))
  {
    forall m | 0 <= m < |Product(ds)| ensures |Product(ds)[m]| == |ds| && AllValid(Product(ds)[m]) {
      ProductShape(ds, m);
      var t := Product(ds)[m];
      forall d | 0 <= d < |t| ensures ValidInterval(t[d]) {
        var k :| 0 <= k < |ds[d]| && ds[d][k] == t[d];
      }
    }
  }

  /** The step of the inner loop of `intersect_domains`: the source's
      `intersect` when `written` holds, the intended meet otherwise. */
  function IntersectStep(a: Interval, b: Interval, written: bool): (r: Option<Interval>)
    requires ValidInterval(a) && ValidInterval(b)
    ensures r.Some? ==> ValidInterval(r.value)
    ensures r.Some? ==> r.value.start == a.start || r.value.start == b.start
    ensures r.Some? ==> r.value.end == a.end || r.value.end == b.end
  {
    if written then Intersect(a, b) else Meet(a, b)
  }

  /** The inner loop of `intersect_domains`: acc is met with each interval
      in turn, stopping at the first empty result. */
  function Chain(acc: Interval, rest: seq<Interval>, written: bool): (r: Option<Interval>)
    requires ValidInterval(acc) && AllValid(rest)
    ensures r.Some? ==> ValidInterval(r.value)
    decreases |rest|
  {
    if rest == [] then Some(acc)
    else match IntersectStep(acc, rest[0], written)
      case None => None
      case Some(m) => Chain(m, rest[1..], written)
  }

  /** Tuples of at least one valid interval each, as the product yields
      for at least one domain. */
  predicate Tuples(ts: seq<seq<Interval>>) {
    forall m :: 0 <= m < |ts| ==> |ts[m]| >= 1 && AllValid(ts[m])
  }

  lemma TuplesTail(ts: seq<seq<Interval>>)
    requires Tuples(ts) && ts != []
    ensures Tuples(ts[1..]) && |ts[0]| >= 1 && AllValid(ts[0]) && ValidInterval(ts[0][0]) && AllValid(ts[0][1..])
  {
    assert forall m :: 0 <= m < |ts| - 1 ==> ts[1..][m] == ts[m + 1];
    var t := ts[0];
    assert forall k :: 0 <= k < |t| - 1 ==> t[1..][k] == t[k + 1];
  }

  /** The non-empty meet of every tuple, in the order of the tuples. */
  function Kept(ts: seq<seq<Interval>>, written: bool): (r: seq<Interval>)
    requires Tuples(ts)
    ensures AllValid(r)
  {
    if ts == [] then []
    else
      TuplesTail(ts);
      var rest := Kept(ts[1..], written);
      match Chain(ts[0][0], ts[0][1..], written)
      case Some(i) => [i] + rest
      case None => rest
  }

  /** `intersect_domains`: with no domains the first element of the empty
      tuple is an IndexError; otherwise the non-empty meets, sorted by
      start (stable). With `written` each meet is the source's `intersect`,
      without it the intended one. */
  function IntersectAll(ds: seq<seq<Interval>>, written: bool): (r: Result<seq<Interval>>)
    requires AllDomainsValid(ds)
    ensures ds == [] <==> r.Err?
  {
    if ds == [] then Err(IndexError)
    else
      ProductValid(ds);
      Ok(SortBy(Kept(Product(ds), written), false))
  }

  /** The inner loop of `intersect_domains`: the first interval of the
      tuple is intersected with the others, breaking off at the first
      empty result. */
  method IntersectTuple(vals: seq<Interval>) returns (i: Option<Interval>)
    requires |vals| >= 1 && AllValid(vals)
    ensures i == Chain(vals[0], vals[1..], true)
  {
    i := Some(vals[0]);
    var j := 1;
    while j < |vals| && i.Some?
      invariant 1 <= j <= |vals|
      invariant i.Some? ==> ValidInterval(i.value) && Chain(i.value, vals[j..], true) == Chain(vals[0], vals[1..], true)
      invariant i.None? ==> Chain(vals[0], vals[1..], true) == None
    {
      assert vals[j..] == [vals[j]] + vals[j + 1..];
      i := Intersect(i.value, vals[j]);
      j := j + 1;
    }
    if i.Some? {
      assert vals[j..] == [];
    }
  }

  /** `intersect_domains` with its loop over the product, as written. */
  method IntersectDomains(domains: seq<seq<Interval>>) returns (r: Result<seq<Interval>>)
    requires AllDomainsValid(domains)
    ensures r == IntersectAll(domains, true)
  {
    if domains == [] {
      // the one empty tuple of the product has no first element
      return Err(IndexError);
    }
    var tuples := Product(domains);
    ProductValid(domains);
    hide Product, Kept, SortBy, Chain, Tuples, Intersect, Meet, IntersectStep, AllValid;
    var res := [];
    var k := 0;
    while k < |tuples|
      invariant 0 <= k <= |tuples|
      invariant AllValid(res) && res + Kept(tuples[k..], true) == Kept(tuples, true)
    {
      TuplesFrom(tuples, k);
      var i := IntersectTuple(tuples[k]);
      KeptStep(tuples, k, res, i, true);
      if i.Some? {
        res := res + [i.value];
      }
      k := k + 1;
    }
    assert tuples[k..] == [];
    KeptUnfold(tuples[k..], true);
    assert res == Kept(tuples, true) by {
      assert res + Kept(tuples[k..], true) == res + [] == res;
    }
    r := Ok(SortBy(res, false));
  }

  /** One turn of the loop of `intersect_domains`: the kept list grows by
      the tuple's meet when there is one. */
  lemma KeptStep(ts: seq<seq<Interval>>, k: nat, res: seq<Interval>, i: Option<Interval>, written: bool)
    requires Tuples(ts) && k < |ts| && AllValid(res)
    requires res + Kept(ts[k..], written) == Kept(ts, written)
    requires |ts[k]| >= 1 && AllValid(ts[k]) && i == Chain(ts[k][0], ts[k][1..], written)
    ensures i.Some? ==> AllValid(res + [i.value]) && (res + [i.value]) + Kept(ts[k + 1..], written) == Kept(ts, written)
    ensures i.None? ==> res + Kept(ts[k + 1..], written) == Kept(ts, written)
  {
    hide Chain, Intersect, Meet, IntersectStep;
    TuplesFrom(ts, k);
    KeptUnfold(ts[k..], written);
    assert ts[k..][0] == ts[k] && ts[k..][1..] == ts[k + 1..];
    var rest := Kept(ts[k + 1..], written);
    if i.Some? {
      assert Kept(ts[k..], written) == [i.value] + rest;
      assert (res + [i.value]) + rest == res + ([i.value] + rest);
    }
  }

  lemma TuplesFrom(ts: seq<seq<Interval>>, k: nat)
    requires Tuples(ts) && k < |ts|
    ensures Tuples(ts[k..]) && |ts[k]| >= 1 && AllValid(ts[k])
  {
    assert forall m :: 0 <= m < |ts| - k ==> ts[k..][m] == ts[k + m];
  }

  lemma KeptUnfold(ts: seq<seq<Interval>>, written: bool)
    requires ts == [] || Tuples(ts)
    ensures ts == [] ==> Kept(ts, written) == []
    ensures ts != [] ==> Tuples(ts[1..]) && |ts[0]| >= 1 && AllValid(ts[0]) && AllValid(ts[0][1..])
    ensures ts != [] ==> Chain(ts[0][0], ts[0][1..], written).Some? ==>
      Kept(ts, written) == [Chain(ts[0][0], ts[0][1..], written).value] + Kept(ts[1..], written)
    ensures ts != [] ==> Chain(ts[0][0], ts[0][1..], written).None? ==> Kept(ts, written) == Kept(ts[1..], written)
  {
    if ts != [] {
      TuplesTail(ts);
    }
  }

  predicate AllContain(t: seq<Interval>, x: real)
    requires AllValid(t)
  {
    forall k :: 0 <= k < |t| ==> Contains(t[k], x)
  }

  /** Some interval of the list has x as a finite endpoint. */
  predicate EndpointAny(xs: seq<Interval>, x: real)
    requires AllValid(xs)
  {
    exists k :: 0 <= k < |xs| && AtEndpoint(xs[k], x)
  }

  /** The whole line, with no finite endpoint. */
  predicate Whole(i: Interval) {
    i.start.None? && i.end.None?
  }

  predicate WholeAny(xs: seq<Interval>) {
    exists k :: 0 <= k < |xs| && Whole(xs[k])
  }

  /** Some tuple has x in all its intervals. */
  predicate SomeCommon(ts: seq<seq<Interval>>, x: real)
    requires forall m :: 0 <= m < |ts| ==> AllValid(ts[m])
  {
    exists m :: 0 <= m < |ts| && AllContain(ts[m], x)
  }

  /** Some interval of some tuple has x as a finite endpoint. */
  predicate SomeEndpoint(ts: seq<seq<Interval>>, x: real)
    requires forall m :: 0 <= m < |ts| ==> AllValid(ts[m])
  {
    exists m :: 0 <= m < |ts| && EndpointAny(ts[m], x)
  }

  /** Some tuple holds the whole line. */
  predicate SomeWhole(ts: seq<seq<Interval>>) {
    exists m :: 0 <= m < |ts| && WholeAny(ts[m])
  }

  /** One step of the chain. Both steps keep the common points whenever
      they return an interval; the intended one returns one whenever there
      are common points and holds nothing else. The step as written may
      besides hold an endpoint, and may drop the common points only when
      they are a shared endpoint or the second interval is the whole line. */
  lemma StepWithin(a: Interval, b: Interval, x: real, written: bool)
    requires ValidInterval(a) && ValidInterval(b)
    ensures IntersectStep(a, b, written).Some? && Contains(a, x) && Contains(b, x) ==>
      Contains(IntersectStep(a, b, written).value, x)
    ensures IntersectStep(a, b, written).Some? && Contains(IntersectStep(a, b, written).value, x) ==>
      (Contains(a, x) && Contains(b, x)) || (written && AtEndpoint(IntersectStep(a, b, written).value, x))
    ensures IntersectStep(a, b, written).Some? && AtEndpoint(IntersectStep(a, b, written).value, x) ==>
      AtEndpoint(a, x) || AtEndpoint(b, x)
    ensures Contains(a, x) && Contains(b, x) ==>
      IntersectStep(a, b, written).Some? || (written && (Whole(b) || AtEndpoint(a, x) || AtEndpoint(b, x)))
  {
    StepEndpoint(a, b, x, written);
    hide Intersect, Meet, Contains, AtEndpoint, LaterStart, EarlierEnd;
    if written {
      assert IntersectStep(a, b, written) == Intersect(a, b);
      IntersectWithin(a, b, x);
      if Contains(a, x) && Contains(b, x) && Intersect(a, b).None? {
        IntersectLosesOnlyTies(a, b, x);
        if !Whole(b) {
          TieAtEndpoint(a, b, x);
        }
      }
    } else {
      assert IntersectStep(a, b, written) == Meet(a, b);
      MeetContains(a, b, x);
    }
  }

  /** The endpoints of a step are endpoints of its inputs. */
  lemma StepEndpoint(a: Interval, b: Interval, x: real, written: bool)
    requires ValidInterval(a) && ValidInterval(b)
    ensures IntersectStep(a, b, written).Some? && AtEndpoint(IntersectStep(a, b, written).value, x) ==>
      AtEndpoint(a, x) || AtEndpoint(b, x)
  {
    hide Intersect, Meet;
  }

  /** A single point the meet is reduced to is an endpoint of an input. */
  lemma TieAtEndpoint(a: Interval, b: Interval, x: real)
    requires ValidInterval(a) && ValidInterval(b)
    requires Meet(a, b).Some? && Meet(a, b).value.start.Some? && Value(Meet(a, b).value.start.value) == x
    ensures AtEndpoint(a, x) || AtEndpoint(b, x)
  {
  }

  /** Splitting the first interval off a list. */
  lemma ListCons(t: seq<Interval>, x: real)
    requires AllValid(t) && t != []
    ensures AllValid(t[1..])
    ensures AllContain(t, x) <==> Contains(t[0], x) && AllContain(t[1..], x)
    ensures EndpointAny(t, x) <==> AtEndpoint(t[0], x) || EndpointAny(t[1..], x)
    ensures WholeAny(t) <==> Whole(t[0]) || WholeAny(t[1..])
  {
    var tail := t[1..];
    assert forall k :: 0 < k < |t| ==> t[k] == tail[k - 1];
    if EndpointAny(tail, x) {
      var k :| 0 <= k < |tail| && AtEndpoint(tail[k], x);
      assert t[k + 1] == tail[k];
    }
    if WholeAny(tail) {
      var k :| 0 <= k < |tail| && Whole(tail[k]);
      assert t[k + 1] == tail[k];
    }
  }

  /** Splitting the first tuple off a list of tuples. */
  lemma TuplesCons(ts: seq<seq<Interval>>, x: real)
    requires Tuples(ts) && ts != []
    ensures Tuples(ts[1..])
    ensures SomeCommon(ts, x) <==> AllContain(ts[0], x) || SomeCommon(ts[1..], x)
    ensures SomeEndpoint(ts, x) <==> EndpointAny(ts[0], x) || SomeEndpoint(ts[1..], x)
    ensures SomeWhole(ts) <==> WholeAny(ts[0]) || SomeWhole(ts[1..])
  {
    TuplesTail(ts);
    var tail := ts[1..];
    assert forall m :: 0 < m < |ts| ==> ts[m] == tail[m - 1];
    if SomeCommon(tail, x) {
      var m :| 0 <= m < |tail| && AllContain(tail[m], x);
      assert ts[m + 1] == tail[m];
    }
    if SomeEndpoint(tail, x) {
      var m :| 0 <= m < |tail| && EndpointAny(tail[m], x);
      assert ts[m + 1] == tail[m];
    }
    if SomeWhole(tail) {
      var m :| 0 <= m < |tail| && WholeAny(tail[m]);
      assert ts[m + 1] == tail[m];
    }
  }

  /** The chained meet keeps the points common to all whenever it returns
      an interval. The intended chain returns one whenever there is such a
      point and holds nothing else; the chain as written may besides hold
      an endpoint of an input, and may break off although a point is
      common only when that point is an endpoint or a later interval is
      the whole line. */
  lemma {:induction false} ChainContains(acc: Interval, rest: seq<Interval>, x: real, written: bool)
    requires ValidInterval(acc) && AllValid(rest)
    ensures Chain(acc, rest, written).Some? && Contains(acc, x) && AllContain(rest, x) ==>
      Contains(Chain(acc, rest, written).value, x)
    ensures Chain(acc, rest, written).Some? && Contains(Chain(acc, rest, written).value, x) ==>
      (Contains(acc, x) && AllContain(rest, x)) || (written && (AtEndpoint(acc, x) || EndpointAny(rest, x)))
    ensures Contains(acc, x) && AllContain(rest, x) ==>
      Chain(acc, rest, written).Some? || (written && (AtEndpoint(acc, x) || EndpointAny(rest, x) || WholeAny(rest)))
    decreases |rest|
  {
    if rest != [] {
      var tail := rest[1..];
      ListCons(rest, x);
      StepWithin(acc, rest[0], x, written);
      match IntersectStep(acc, rest[0], written)
      case None =>
      case Some(m) =>
        ChainContains(m, tail, x, written);
    }
  }

  /** The kept meets hold the points some tuple has in common, and at most
      besides an endpoint when the source's step is used; with the intended
      step they hold exactly those points. */
  lemma {:induction false} KeptCovers(ts: seq<seq<Interval>>, x: real, written: bool)
    requires Tuples(ts)
    ensures InAny(Kept(ts, written), x) ==> SomeCommon(ts, x) || (written && SomeEndpoint(ts, x))
    ensures SomeCommon(ts, x) ==> InAny(Kept(ts, written), x) || (written && (SomeEndpoint(ts, x) || SomeWhole(ts)))
  {
    hide Contains, AtEndpoint, Whole;
    if ts != [] {
      var t := ts[0];
      KeptUnfold(ts, written);
      KeptCovers(ts[1..], x, written);
      TuplesCons(ts, x);
      ListCons(t, x);
      ChainContains(t[0], t[1..], x, written);
      if Chain(t[0], t[1..], written).Some? {
        InAnyCons(Kept(ts, written), x);
        assert Kept(ts, written)[1..] == Kept(ts[1..], written);
      }
    }
  }

  /** One interval per domain, each holding x, when every domain holds x. */
  lemma {:induction false} Choose(ds: seq<seq<Interval>>, x: real) returns (t: seq<Interval>)
    requires AllDomainsValid(ds)
    requires forall d :: 0 <= d < |ds| ==> InAny(ds[d], x)
    ensures |t| == |ds| && forall d :: 0 <= d < |ds| ==> t[d] in ds[d]
    ensures AllValid(t) && AllContain(t, x)
  {
    if ds == [] {
      t := [];
    } else {
      var tail := ds[1..];
      assert forall d :: 0 <= d < |tail| ==> tail[d] == ds[d + 1];
      var rest := Choose(tail, x);
      var j :| 0 <= j < |ds[0]| && Contains(ds[0][j], x);
      t := [ds[0][j]] + rest;
      assert forall d :: 1 <= d < |ds| ==> t[d] == rest[d - 1];
    }
  }

  /** Some tuple of the product has x in common exactly when every domain
      holds x; an endpoint or a whole line in a tuple is one of a domain. */
  lemma ProductCovers(ds: seq<seq<Interval>>, x: real)
    requires AllDomainsValid(ds)
    ensures forall m :: 0 <= m < |Product(ds)| ==> AllValid(Product(ds)[m])
    ensures SomeCommon(Product(ds), x) <==> forall d :: 0 <= d < |ds| ==> InAny(ds[d], x)
    ensures SomeEndpoint(Product(ds), x) ==> SomeEndpoint(ds, x)
    ensures SomeWhole(Product(ds)) ==> SomeWhole(ds)
  {
    ProductValid(ds);
    if exists m :: 0 <= m < |Product(ds)| && AllContain(Product(ds)[m], x) {
      var m :| 0 <= m < |Product(ds)| && AllContain(Product(ds)[m], x);
      ProductShape(ds, m);
      var t := Product(ds)[m];
      forall d | 0 <= d < |ds| ensures InAny(ds[d], x) {
        var k :| 0 <= k < |ds[d]| && ds[d][k] == t[d];
        assert Contains(ds[d][k], x);
      }
    }
    if forall d :: 0 <= d < |ds| ==> InAny(ds[d], x) {
      var t := Choose(ds, x);
      var m := ProductHas(ds, t);
      assert AllContain(Product(ds)[m], x);
    }
    if SomeEndpoint(Product(ds), x) {
      var m :| 0 <= m < |Product(ds)| && EndpointAny(Product(ds)[m], x);
      ProductShape(ds, m);
      var t := Product(ds)[m];
      var d :| 0 <= d < |t| && AtEndpoint(t[d], x);
      var k :| 0 <= k < |ds[d]| && ds[d][k] == t[d];
      assert EndpointAny(ds[d], x);
    }
    if SomeWhole(Product(ds)) {
      var m :| 0 <= m < |Product(ds)| && WholeAny(Product(ds)[m]);
      ProductShape(ds, m);
      var t := Product(ds)[m];
      var d :| 0 <= d < |t| && Whole(t[d]);
      var k :| 0 <= k < |ds[d]| && ds[d][k] == t[d];
      assert WholeAny(ds[d]);
    }
  }

  /** `intersect_domains` of at least one domain lists its meets sorted by
      start. The intended version holds exactly the points that every
      domain holds. The version as written holds them too, except where
      such a point is an endpoint of an input or some domain holds the
      whole line, and holds nothing more than endpoints of inputs besides. */
  lemma IntersectCovers(ds: seq<seq<Interval>>, x: real, written: bool)
    requires AllDomainsValid(ds) && ds != []
    ensures IntersectAll(ds, written).Ok? && SortedBy(IntersectAll(ds, written).value, false)
    ensures InAny(IntersectAll(ds, written).value, x) ==>
      (forall d :: 0 <= d < |ds| ==> InAny(ds[d], x)) || (written && SomeEndpoint(ds, x))
    ensures (forall d :: 0 <= d < |ds| ==> InAny(ds[d], x)) ==>
      InAny(IntersectAll(ds, written).value, x) || (written && (SomeEndpoint(ds, x) || SomeWhole(ds)))
  {
    hide Product, Kept, SortBy, Contains, AllContain, InAny, Tuples, AllValid, SomeCommon, SomeEndpoint, SomeWhole;
    ProductValid(ds);
    var kept := Kept(Product(ds), written);
    assert IntersectAll(ds, written) == Ok(SortBy(kept, false));
    var tuples := Product(ds);
    KeptCovers(tuples, x, written);
    ProductCovers(ds, x);
    SortedMembers(kept, false);
    SortedCover(kept, SortBy(kept, false), x);
  }

  /** Two domains of one interval each: the result is their one step. */
  lemma PairIntersect(a: Interval, b: Interval, written: bool)
    requires ValidInterval(a) && ValidInterval(b)
    ensures AllDomainsValid([[a], [b]])
    ensures IntersectStep(a, b, written).None? ==> IntersectAll([[a], [b]], written) == Ok([])
    ensures IntersectStep(a, b, written).Some? ==>
      IntersectAll([[a], [b]], written) == Ok([IntersectStep(a, b, written).value])
  {
    var ds := [[a], [b]];
    assert ds[1..] == [[b]] && [[b]][1..] == [];
    var cb, ca := Cons(b, [[]]), Cons(a, [[b]]);
    assert cb[0] == [b] + [] == [b];
    assert cb == [[b]];
    assert Product([[b]]) == Prefix([b], [[]]) == cb + Prefix([], [[]]) == [[b]];
    assert ca[0] == [a] + [b] == [a, b];
    assert ca == [[a, b]];
    assert Product(ds) == Prefix([a], [[b]]) == ca + Prefix([], [[b]]) == [[a, b]];
    var t := [a, b];
    assert t[1..] == [b] && [b][1..] == [];
    assert Kept([[a, b]][1..], written) == [];
    match IntersectStep(a, b, written)
    case None =>
      assert Chain(a, [b], written) == None;
    case Some(m) =>
      assert Chain(a, [b], written) == Chain(m, [], written) == Some(m);
  }

  /** The whole line twice: the source drops it, the intended meet keeps it. */
  lemma DomainsWholeLine()
    ensures IntersectAll([[INF], [INF]], true) == Ok([])
    ensures IntersectAll([[INF], [INF]], false) == Ok([INF])
  {
    WholeLineLost();
    PairIntersect(INF, INF, true);
    PairIntersect(INF, INF, false);
  }

  /** [1, 3] and [0, 1]: the source drops the shared point 1, the
      intended meet keeps it as [1, 1]. */
  lemma DomainsSharedPoint()
    ensures var a, b := Interval(Num(1), Num(3), false, false), Interval(Num(0), Num(1), false, false);
      IntersectAll([[a], [b]], true) == Ok([])
      && IntersectAll([[a], [b]], false) == Ok([Interval(Num(1), Num(1), false, false)])
  {
    var a, b := Interval(Num(1), Num(3), false, false), Interval(Num(0), Num(1), false, false);
    SharedPointLost();
    assert Value(FromInt(0)) == 0.0 && Value(FromInt(1)) == 1.0 && Value(FromInt(3)) == 3.0;
    assert Meet(a, b) == Some(Interval(Num(1), Num(1), false, false));
    PairIntersect(a, b, true);
    PairIntersect(a, b, false);
  }

  /** [1, 3] and (1, 3): the source keeps [1, 3], which holds 1, the
      intended meet gives (1, 3). */
  lemma DomainsOpenSide()
    ensures var a, b := Interval(Num(1), Num(3), false, false), Interval(Num(1), Num(3), true, true);
      IntersectAll([[a], [b]], true) == Ok([a])
      && IntersectAll([[a], [b]], false) == Ok([b])
  {
    var a, b := Interval(Num(1), Num(3), false, false), Interval(Num(1), Num(3), true, true);
    OpenSideIgnored();
    assert Value(FromInt(1)) == 1.0 && Value(FromInt(3)) == 3.0;
    assert Meet(a, b) == Some(b);
    PairIntersect(a, b, true);
    PairIntersect(a, b, false);
  }
}
