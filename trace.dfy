/** The step trace's branch stack (`ETSteps`): a tree of nested lists of
    step nodes, a stack `history` of the lists being written to, and a stack
    `idx` of how many branches of each open fan have been entered.

    Python shares list objects between `data`, the lists inside it and the
    frames of `history`. The model gives every list the trace creates an
    identity, its index in `lists`, and an element of a list that is itself
    a list is a reference `List(id)`; appending through one reference is
    then seen through all of them, as in the source. */
module Trace {
  import opened Outcome
  import opened Ansi

  /** A step node as the trace uses it: its `str()` text and its `totex`
      markup. */
  datatype Node = Node(text: string, tex: string)

  /** An element of one of the trace's lists, and also a frame of `history`. */
  datatype Entry = Step(node: Node) | List(id: nat)

  function Last<T>(s: seq<T>): T
    requires s != []
  {
    s[|s| - 1]
  }

  function Front<T>(s: seq<T>): seq<T>
    requires s != []
  {
    s[..|s| - 1]
  }

  /** References to `n` consecutive lists from `first`. */
  function Refs(first: nat, n: nat): (r: seq<Entry>)
    ensures |r| == n
    ensures forall i :: 0 <= i < n ==> r[i] == List(first + i)
  {
    seq(n, i requires 0 <= i < n => List(first + i))
  }

  function Empties(n: nat): (r: seq<seq<Entry>>)
    ensures |r| == n
    ensures forall i :: 0 <= i < n ==> r[i] == []
  {
    seq(n, i => [])
  }

  /** Each list refers only to lists made after it, so the lists form a
      forest and can be walked recursively. */
  predicate Linked(lists: seq<seq<Entry>>) {
    forall k, j :: 0 <= k < |lists| && 0 <= j < |lists[k]| && lists[k][j].List? ==>
      k < lists[k][j].id < |lists|
  }

  /** Every list a frame refers to exists. */
  predicate Allocated(lists: seq<seq<Entry>>, frames: seq<Entry>) {
    forall i :: 0 <= i < |frames| && frames[i].List? ==> frames[i].id < |lists|
  }

  const NoAppend := AttributeError("object has no attribute 'append'")
  const NoExtend := AttributeError("object has no attribute 'extend'")
  const NotSubscriptable := TypeError("object is not subscriptable")

  /** The two stacks of a trace. */
  datatype Frames = Frames(history: seq<Entry>, idx: seq<nat>)

  /** The outcome of a call and the stacks it leaves, which a failing call
      may already have changed. */
  datatype Move = Move(result: Result<()>, after: Frames)

  /** `next_branch`: pop the branch entered last when `idx[-1]` is nonzero,
      enter entry `idx[-1]` of the fan on top, and count it. */
  function Advance(lists: seq<seq<Entry>>, f: Frames): (m: Move)
    requires Linked(lists) && Allocated(lists, f.history)
    ensures Allocated(lists, m.after.history)
    ensures m.result.Ok? ==> f.idx != [] && m.after.idx == Front(f.idx) + [Last(f.idx) + 1]
    ensures m.result.Err? ==> m.after.idx == f.idx
  {
    if f.idx == [] then Move(Err(IndexError), f)
    else
      var top := Last(f.idx);
      if top != 0 && f.history == [] then Move(Err(IndexError), f)
      else
        var h := if top != 0 then Front(f.history) else f.history;
        if h == [] then Move(Err(IndexError), Frames(h, f.idx))
        else match Last(h)
          case Step(_) => Move(Err(NotSubscriptable), Frames(h, f.idx))
          case List(k) =>
            if top >= |lists[k]| then Move(Err(IndexError), Frames(h, f.idx))
            else Move(Ok(()), Frames(h + [lists[k][top]], Front(f.idx) + [top + 1]))
  }

  /** `end_branches` as written: pop two frames and one counter. */
  function Retreat(f: Frames): (m: Move)
    ensures m.result.Ok? <==> |f.history| >= 2 && f.idx != []
    ensures m.after.history == f.history[..if |f.history| >= 2 then |f.history| - 2 else 0]
    ensures m.after.idx == if m.result.Ok? then Front(f.idx) else f.idx
  {
    if f.history == [] then Move(Err(IndexError), f)
    else if |f.history| == 1 then Move(Err(IndexError), Frames([], f.idx))
    else
      var h := f.history[..|f.history| - 2];
      if f.idx == [] then Move(Err(IndexError), Frames(h, f.idx))
      else Move(Ok(()), Frames(h, Front(f.idx)))
  }

  /** `end_branches` as evidently intended: pop the branch entered last only
      when one was entered (`idx[-1]` nonzero), then the fan and its counter. */
  function Close(f: Frames): (m: Move)
    ensures m.result.Ok? ==> f.idx != [] && m.after.idx == Front(f.idx)
    ensures m.result.Ok? ==> |f.history| >= (if Last(f.idx) != 0 then 2 else 1)
    ensures m.result.Ok? ==> m.after.history == f.history[..|f.history| - (if Last(f.idx) != 0 then 2 else 1)]
  {
    if f.idx == [] then Move(Err(IndexError), f)
    else
      var entered := Last(f.idx) != 0;
      if entered && f.history == [] then Move(Err(IndexError), f)
      else
        var h := if entered then Front(f.history) else f.history;
        if h == [] then Move(Err(IndexError), Frames(h, f.idx))
        else Move(Ok(()), Frames(Front(h), Front(f.idx)))
  }

  /** The numbers `0 .. n - 1` that a branch iterator yields. */
  function Upto(n: nat): (r: seq<int>)
    ensures |r| == n && forall i :: 0 <= i < n ==> r[i] == i
  {
    seq(n, i => i)
  }

  /** The lists after `create_branches(amount)` on list `k`: the fan is made
      first and the `amount` new branches after it, all empty, and `k` and
      the fan both refer to the branches. */
  function Fanned(lists: seq<seq<Entry>>, k: nat, n: nat): (r: seq<seq<Entry>>)
    requires k < |lists|
    ensures |r| == |lists| + 1 + n
    ensures r[k] == lists[k] + Refs(|lists| + 1, n) && r[|lists|] == Refs(|lists| + 1, n)
    ensures forall j :: 0 <= j < |lists| && j != k ==> r[j] == lists[j]
    ensures forall j :: |lists| < j < |r| ==> r[j] == []
  {
    lists[k := lists[k] + Refs(|lists| + 1, n)] + [Refs(|lists| + 1, n)] + Empties(n)
  }

  lemma FannedLinked(lists: seq<seq<Entry>>, k: nat, n: nat)
    requires k < |lists| && Linked(lists)
    ensures Linked(Fanned(lists, k, n))
  {
    var r: seq<seq<Entry>> := Fanned(lists, k, n);
    forall a: nat, j: nat | a < |r| && 0 <= j < |r[a]| && r[a][j].List?
      ensures a < r[a][j].id < |r|
    {
      if a == k && j >= |lists[k]| {
        assert r[a][j] == Refs(|lists| + 1, n)[j - |lists[k]|];
      }
    }
  }

  /** The `$$`-free LaTeX of list `k`, as `ETSteps(list).totex(_depth=depth)`
      builds it: "" for an empty list, otherwise the entries joined by a
      line break inside an aligned environment inside a box, after `depth`
      alignment marks. */
  function TexAt(lists: seq<seq<Entry>>, k: nat, depth: nat): (r: string)
    requires Linked(lists) && k < |lists|
    ensures r == [] <==> lists[k] == []
    decreases |lists| - k, 1
  {
    if lists[k] == [] then ""
    else Repeat('&', depth) + "\\boxed{" + "\\begin{aligned}" + TexEntries(lists, k, 0) + "\\end{aligned}" + "}"
  }

  /** The entries of list `k` from position `j`, separated by "\\". */
  function TexEntries(lists: seq<seq<Entry>>, k: nat, j: nat): string
    requires Linked(lists) && k < |lists|
    decreases |lists| - k, 0, |lists[k]| - j
  {
    if j >= |lists[k]| then ""
    else
      var first := match lists[k][j]
        case Step(node) => node.tex
        case List(c) => TexAt(lists, c, 1);
      if j + 1 == |lists[k]| then first else first + "\\\\" + TexEntries(lists, k, j + 1)
  }

  class ETSteps {
    /** Every list the trace has made, by identity; `lists[0]` is `data`. */
    var lists: seq<seq<Entry>>
    var history: seq<Entry>
    var idx: seq<nat>

    predicate Valid()
      reads this
    {
      |lists| > 0 && Linked(lists) && Allocated(lists, history)
    }

    /** `ETSteps()`: empty data, written to directly, no fan open. */
    constructor ()
      ensures Valid() && lists == [[]] && history == [List(0)] && idx == [0]
    {
      lists := [[]];
      history := [List(0)];
      idx := [0];
    }

    /** `clear`: empties `data` in place and resets both stacks. */
    method Clear()
      requires Valid()
      modifies this
      ensures Valid()
      ensures lists == old(lists)[0 := []] && history == [List(0)] && idx == [0]
    {
      lists := lists[0 := []];
      history := [List(0)];
      idx := [0];
    }

    /** `register`: appends the step to the list on top of `history`, and to
        no other list. */
    method Register(node: Node) returns (r: Result<()>)
      requires Valid()
      modifies this
      ensures Valid() && history == old(history) && idx == old(idx)
      ensures old(history) == [] ==> r == Err(IndexError) && lists == old(lists)
      ensures old(history) != [] && Last(old(history)).Step? ==> r == Err(NoAppend) && lists == old(lists)
      ensures old(history) != [] && Last(old(history)).List? ==>
        var k := Last(old(history)).id;
        r == Ok(()) && lists == old(lists)[k := old(lists)[k] + [Step(node)]]
    {
      if history == [] {
        return Err(IndexError);
      }
      match Last(history)
      case Step(_) =>
        r := Err(NoAppend);
      case List(k) =>
        lists := lists[k := lists[k] + [Step(node)]];
        r := Ok(());
    }

    /** `create_branches`: `amount` new empty lists (none for a negative
        amount) are appended to the list on top of `history`, and a fan
        holding them is pushed with a counter of 0. */
    method CreateBranches(amount: int) returns (r: Result<()>)
      requires Valid()
      modifies this
      ensures Valid()
      ensures old(history) == [] ==> r == Err(IndexError) && unchanged(this)
      ensures old(history) != [] && Last(old(history)).Step? ==> r == Err(NoExtend) && unchanged(this)
      ensures old(history) != [] && Last(old(history)).List? ==>
        r == Ok(()) && lists == Fanned(old(lists), Last(old(history)).id, if amount < 0 then 0 else amount)
        && history == old(history) + [List(|old(lists)|)] && idx == old(idx) + [0]
    {
      if history == [] {
        return Err(IndexError);
      }
      match Last(history)
      case Step(_) =>
        r := Err(NoExtend);
      case List(k) =>
        var n: nat := if amount < 0 then 0 else amount;
        FannedLinked(lists, k, n);
        var fan := |lists|;
        lists := Fanned(lists, k, n);
        history := history + [List(fan)];
        idx := idx + [0];
        r := Ok(());
    }

    /** `next_branch`. */
    method NextBranch() returns (r: Result<()>)
      requires Valid()
      modifies this
      ensures Valid() && lists == old(lists)
      ensures Move(r, Frames(history, idx)) == Advance(lists, Frames(old(history), old(idx)))
    {
      if idx == [] {
        return Err(IndexError);
      }
      var top := idx[|idx| - 1];
      if top != 0 {
        if history == [] {
          return Err(IndexError);
        }
        history := history[..|history| - 1];
      }
      if history == [] {
        return Err(IndexError);
      }
      match history[|history| - 1]
      case Step(_) =>
        r := Err(NotSubscriptable);
      case List(k) =>
        if top >= |lists[k]| {
          return Err(IndexError);
        }
        history := history + [lists[k][top]];
        idx := idx[|idx| - 1 := top + 1];
        r := Ok(());
    }

    /** `end_branches`, as written. */
    method EndBranches() returns (r: Result<()>)
      requires Valid()
      modifies this
      ensures Valid() && lists == old(lists)
      ensures Move(r, Frames(history, idx)) == Retreat(Frames(old(history), old(idx)))
    {
      if history == [] {
        return Err(IndexError);
      }
      history := history[..|history| - 1];
      if history == [] {
        return Err(IndexError);
      }
      history := history[..|history| - 1];
      if idx == [] {
        return Err(IndexError);
      }
      idx := idx[..|idx| - 1];
      r := Ok(());
    }

    /** `end_branches` corrected: the fan is closed whether or not one of
        its branches was entered. */
    method CloseBranches() returns (r: Result<()>)
      requires Valid()
      modifies this
      ensures Valid() && lists == old(lists)
      ensures Move(r, Frames(history, idx)) == Close(Frames(old(history), old(idx)))
    {
      if idx == [] {
        return Err(IndexError);
      }
      if idx[|idx| - 1] != 0 {
        if history == [] {
          return Err(IndexError);
        }
        history := history[..|history| - 1];
      }
      if history == [] {
        return Err(IndexError);
      }
      history := history[..|history| - 1];
      idx := idx[..|idx| - 1];
      r := Ok(());
    }

    /** `with branching(amount) as br:` around a body that takes at most
        `rounds` items from `br` (a `for` loop that breaks after `rounds`
        items) and writes nothing; `taken` are the items it got. As written,
        `end_branches` runs at the end. When the body entered a branch, both
        stacks are back as they were; when it entered none, one frame too
        many is popped. */
    method Branching(amount: int, rounds: nat) returns (r: Result<()>, taken: seq<int>)
      requires Valid() && history != [] && Last(history).List?
      modifies this
      ensures Valid()
      ensures var n := if amount < 0 then 0 else amount;
        lists == Fanned(old(lists), Last(old(history)).id, n)
        && taken == Upto(if rounds < n then rounds else n)
      ensures taken != [] ==> r == Ok(()) && history == old(history) && idx == old(idx)
      ensures taken == [] ==> r == Ok(()) && history == Front(old(history)) && idx == old(idx)
    {
      var start, fan := history, |lists|;
      var created := CreateBranches(amount);
      assert created.Ok?;
      taken := Pull(amount, rounds, start, fan);
      r := EndBranches();
    }

    /** The same `with` block with `end_branches` corrected: both stacks are
        restored for every amount and every number of rounds. */
    method SafeBranching(amount: int, rounds: nat) returns (r: Result<()>, taken: seq<int>)
      requires Valid() && history != [] && Last(history).List?
      modifies this
      ensures Valid()
      ensures var n := if amount < 0 then 0 else amount;
        lists == Fanned(old(lists), Last(old(history)).id, n)
        && taken == Upto(if rounds < n then rounds else n)
      ensures r == Ok(()) && history == old(history) && idx == old(idx)
    {
      var start, fan := history, |lists|;
      var created := CreateBranches(amount);
      assert created.Ok?;
      taken := Pull(amount, rounds, start, fan);
      r := CloseBranches();
    }

    /** The body of a `branching` block: a fresh iterator over the fan just
        opened, asked for at most `rounds` items. */
    method Pull(amount: int, rounds: nat, ghost start: seq<Entry>, ghost fan: nat) returns (taken: seq<int>)
      requires Valid() && fan + 1 <= |lists|
      requires var n := if amount < 0 then 0 else amount;
        fan + 1 + n == |lists| && lists[fan] == Refs(fan + 1, n)
      requires history == start + [List(fan)] && idx != [] && Last(idx) == 0
      modifies this
      ensures Valid() && lists == old(lists)
      ensures var n := if amount < 0 then 0 else amount;
        taken == Upto(if rounds < n then rounds else n)
      ensures idx == Front(old(idx)) + [|taken|]
      ensures history == start + [List(fan)] + (if taken == [] then [] else [List(fan + |taken|)])
    {
      hide Advance, Linked, Allocated, Refs;
      AllocatedPrefix(lists, start, [List(fan)]);
      var n: nat := if amount < 0 then 0 else amount;
      var it := new BranchIterator(this, amount);
      ghost var below := Front(idx);
      assert idx == below + [0];
      taken := [];
      while |taken| < rounds
        invariant Valid() && lists == old(lists) && it.steps == this && it.num == amount
        invariant it.count == |taken| <= n && |taken| <= rounds && taken == Upto(|taken|) && Allocated(lists, start)
        invariant idx == below + [|taken|]
        invariant history == start + [List(fan)] + (if taken == [] then [] else [List(fan + |taken|)])
        decreases rounds - |taken|
      {
        if |taken| < n {
          EnterNext(lists, start, fan, n, |taken|, below);
        }
        var item := it.Next();
        if item.Err? {
          assert |taken| == n;
          break;
        }
        taken := taken + [item.value];
      }
    }
  }

  /** The frames below a stack's top name lists that exist. */
  lemma AllocatedPrefix(lists: seq<seq<Entry>>, start: seq<Entry>, top: seq<Entry>)
    requires Allocated(lists, start + top)
    ensures Allocated(lists, start)
  {
    assert forall i :: 0 <= i < |start| ==> start[i] == (start + top)[i];
  }

  /** Inside a fan of `n` fresh branches, the next branch is always there to
      enter: `next_branch` succeeds and leaves branch `t` on top. */
  lemma EnterNext(lists: seq<seq<Entry>>, start: seq<Entry>, fan: nat, n: nat, t: nat, below: seq<nat>)
    requires Linked(lists) && Allocated(lists, start) && fan + 1 + n == |lists| && lists[fan] == Refs(fan + 1, n)
    requires t < n
    ensures var f := Frames(start + [List(fan)] + (if t == 0 then [] else [List(fan + t)]), below + [t]);
      Allocated(lists, f.history)
      && Advance(lists, f) == Move(Ok(()), Frames(start + [List(fan)] + [List(fan + t + 1)], below + [t + 1]))
  {
    var h := start + [List(fan)] + (if t == 0 then [] else [List(fan + t)]);
    assert Allocated(lists, h);
    if t != 0 {
      assert Front(h) == start + [List(fan)];
    }
  }

  /** `_BranchIterator`: yields 0, 1, ... `num - 1`, entering the next
      branch before each, then raises StopIteration. */
  class BranchIterator {
    var steps: ETSteps
    var num: int
    var count: int

    constructor (steps: ETSteps, num: int)
      ensures this.steps == steps && this.num == num && count == 0
    {
      this.steps := steps;
      this.num := num;
      count := 0;
    }

    method Next() returns (r: Result<int>)
      requires steps.Valid()
      modifies this, steps
      ensures steps == old(steps) && num == old(num) && steps.Valid() && steps.lists == old(steps.lists)
      ensures old(count) >= num ==> r == Err(StopIteration) && count == old(count) && unchanged(steps)
      ensures old(count) < num ==>
        var m := Advance(old(steps.lists), Frames(old(steps.history), old(steps.idx)));
        Frames(steps.history, steps.idx) == m.after
        && (m.result.Ok? ==> r == Ok(old(count)) && count == old(count) + 1)
        && (m.result.Err? ==> r == Err(m.result.error) && count == old(count))
    {
      if count >= num {
        return Err(StopIteration);
      }
      var entered := steps.NextBranch();
      if entered.Err? {
        return Err(entered.error);
      }
      count := count + 1;
      r := Ok(count - 1);
    }
  }

  /** `branching(0)` on a fresh trace, as written: the fan and `data`'s own
      frame are both popped, so the next `register` raises IndexError. */
  method LostFrame() returns (t: ETSteps, r: Result<()>)
    ensures t.history == [] && r == Err(IndexError)
  {
    t := new ETSteps();
    var closed, taken := t.Branching(0, 0);
    r := t.Register(Node("x", "x"));
  }

  /** The same with the corrected `end_branches`: `data` is still written to. */
  method KeptFrame() returns (t: ETSteps, r: Result<()>)
    ensures t.Valid() && t.history == [List(0)] && r == Ok(()) && t.lists[0] == [Step(Node("x", "x"))]
  {
    t := new ETSteps();
    var closed, taken := t.SafeBranching(0, 0);
    r := t.Register(Node("x", "x"));
  }
}
