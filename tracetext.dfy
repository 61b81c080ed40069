/** The text form of the step trace (`tostr`): every list becomes a box of
    rounded corners around the lines of its entries, with its first line as
    the box's title; and the ordering of a branch node's results. */
module TraceText {
  import opened Outcome
  import opened Ansi
  import opened Trace

  /** `s.split("\n")`. */
  function SplitLines(s: string): (r: seq<string>)
    ensures |r| >= 1
    ensures forall i :: 0 <= i < |r| ==> '\n' !in r[i]
  {
    if s == [] then [[]]
    else
      var rest := SplitLines(s[1..]);
      if s[0] == '\n' then [[]] + rest else [[s[0]] + rest[0]] + rest[1..]
  }

  /** `"\n".join(lines)`. */
  function JoinLines(lines: seq<string>): string {
    if lines == [] then ""
    else if |lines| == 1 then lines[0]
    else lines[0] + "\n" + JoinLines(lines[1..])
  }

  lemma JoinPrepend(c: char, x: string, tail: seq<string>)
    ensures JoinLines([[c] + x] + tail) == [c] + JoinLines([x] + tail)
  {
    if tail != [] {
      assert ([[c] + x] + tail)[1..] == tail;
      assert ([x] + tail)[1..] == tail;
    }
  }

  lemma JoinNewline(rest: seq<string>)
    requires rest != []
    ensures JoinLines([[]] + rest) == "\n" + JoinLines(rest)
  {
    assert ([[]] + rest)[1..] == rest;
  }

  /** Joining the pieces of a split gives the text back. */
  lemma {:induction false} JoinSplit(s: string)
    ensures JoinLines(SplitLines(s)) == s
    decreases |s|
  {
    if s != [] {
      hide JoinLines;
      var rest := SplitLines(s[1..]);
      JoinSplit(s[1..]);
      if s[0] == '\n' {
        assert SplitLines(s) == [[]] + rest;
        JoinNewline(rest);
      } else {
        assert SplitLines(s) == [[s[0]] + rest[0]] + rest[1..];
        JoinPrepend(s[0], rest[0], rest[1..]);
        assert [rest[0]] + rest[1..] == rest;
      }
      assert s == [s[0]] + s[1..];
    }
  }

  /** The marks `box` counts as one column wider than a character. */
  predicate Wide(c: char) {
    c == '\U{274C}' || c == '\U{2705}' || c == '\U{1F4C9}'
  }

  function Mark(c: char): nat {
    if Wide(c) then 1 else 0
  }

  /** The width `box` gives a line: its length without escape sequences,
      plus one when its last character is a wide mark. */
  function LineWidth(line: string): nat
    requires line != []
  {
    |StripAnsi(line)| + Mark(line[|line| - 1])
  }

  predicate NoEmptyLine(lines: seq<string>) {
    forall i :: 0 <= i < |lines| ==> lines[i] != []
  }

  /** `max_len`: the widest line. */
  function MaxWidth(lines: seq<string>): (m: nat)
    requires lines != [] && NoEmptyLine(lines)
    ensures forall i :: 0 <= i < |lines| ==> LineWidth(lines[i]) <= m
    ensures exists i :: 0 <= i < |lines| && LineWidth(lines[i]) == m
  {
    if |lines| == 1 then LineWidth(lines[0])
    else
      var rest := MaxWidth(lines[1..]);
      assert forall i :: 1 <= i < |lines| ==> lines[i] == lines[1..][i - 1];
      if LineWidth(lines[0]) >= rest then LineWidth(lines[0]) else rest
  }

  /** `pad_line`: one space each side and trailing spaces up to `max_len`. */
  function PadLine(line: string, maxLen: nat): (r: string)
    requires StripAnsi(line) != []
    ensures var visible := StripAnsi(line); var room := maxLen - |visible| - Mark(visible[|visible| - 1]);
      |r| == 2 + |line| + (if room < 0 then 0 else room)
    ensures r[1..1 + |line|] == line
  {
    var visible := StripAnsi(line);
    var room := maxLen - |visible| - Mark(visible[|visible| - 1]);
    var trailing := Repeat(' ', room);
    var r := " " + line + trailing + " ";
    assert r[1..1 + |line|] == line;
    r
  }

  /** The top row: the first line as a title, centred in the rule (the
      extra column of an odd spacing goes left). */
  function Top(title: string, maxLen: nat): (r: string)
    ensures |r| >= 4 + |title| && r[0] == '╭' && r[|r| - 1] == '╮'
    ensures |title| <= maxLen ==> |r| == maxLen + 4
  {
    var width := maxLen + 2;
    var tittle := " " + title + " ";
    var spacing := width - |tittle|;
    "╭" + Repeat('─', spacing / 2 + spacing % 2) + tittle + Repeat('─', spacing / 2) + "╮"
  }

  function Bottom(maxLen: nat): (r: string)
    ensures |r| == maxLen + 4
  {
    "╰" + Repeat('─', maxLen + 2) + "╯"
  }

  /** Every line from position `from` on has a visible character. */
  predicate Visible(lines: seq<string>, from: nat) {
    forall i :: from <= i < |lines| ==> StripAnsi(lines[i]) != []
  }

  /** A row holds a line between two '│', the line after one space. */
  predicate Framed(row: string, line: string) {
    |row| >= 2 + |line| && row[0] == '│' && row[|row| - 1] == '│' && row[2..2 + |line|] == line
  }

  /** A row for a line after the first: the padded line between two '│'. */
  function Row(line: string, maxLen: nat): (r: string)
    requires StripAnsi(line) != []
    ensures |r| == 2 + |PadLine(line, maxLen)| && Framed(r, line)
  {
    var pad := PadLine(line, maxLen);
    var r := "│" + pad + "│";
    assert r[2..2 + |line|] == pad[1..1 + |line|];
    r
  }

  /** The rows for the lines after the first. */
  function Body(lines: seq<string>, maxLen: nat): (rows: seq<string>)
    requires lines != [] && Visible(lines, 1)
    ensures |rows| == |lines| - 1 && forall i :: 1 <= i < |lines| ==> rows[i - 1] == Row(lines[i], maxLen)
  {
    var tail := lines[1..];
    assert forall i :: 0 <= i < |tail| ==> StripAnsi(tail[i]) != [];
    var rows := seq(|tail|, i requires 0 <= i < |tail| => Row(tail[i], maxLen));
    assert forall i :: 1 <= i < |lines| ==> lines[i] == tail[i - 1];
    rows
  }

  /** `box`: no rows for no lines; IndexError for an empty line (`line[-1]`)
      or for a line after the first that is only escape sequences
      (`visible[-1]`), and for nothing else. */
  function Box(lines: seq<string>): (r: Result<seq<string>>)
    ensures r.Err? <==>
      (exists i :: 0 <= i < |lines| && lines[i] == [])
      || (exists i :: 1 <= i < |lines| && StripAnsi(lines[i]) == [])
  {
    if lines == [] then Ok([])
    else if !NoEmptyLine(lines) then Err(IndexError)
    else if !Visible(lines, 1) then Err(IndexError)
    else
      var m := MaxWidth(lines);
      Ok([Top(lines[0], m)] + Body(lines, m) + [Bottom(m)])
  }

  lemma BoxRows(lines: seq<string>)
    requires lines != [] && Box(lines).Ok?
    ensures NoEmptyLine(lines) && Visible(lines, 1)
    ensures var m := MaxWidth(lines); var rows := Box(lines).value;
      |rows| == |lines| + 1 && rows[0] == Top(lines[0], m) && rows[|lines|] == Bottom(m)
      && forall i :: 1 <= i < |lines| ==> rows[i] == Row(lines[i], m)
  {
    hide Top, Bottom, Row, PadLine, MaxWidth, StripAnsi, Repeat;
    var m := MaxWidth(lines);
    var rows := Box(lines).value;
    assert rows == [Top(lines[0], m)] + Body(lines, m) + [Bottom(m)];
  }

  /** A box has one row more than it has lines: the title row, a row per
      further line wrapped in '│' with the line after one space, and the
      bottom rule of `max_len + 2` dashes. */
  lemma BoxShape(lines: seq<string>)
    requires lines != [] && Box(lines).Ok?
    ensures NoEmptyLine(lines)
    ensures var rows := Box(lines).value;
      |rows| == |lines| + 1
      && |rows[0]| >= 2 && rows[0][0] == '╭' && rows[0][|rows[0]| - 1] == '╮'
      && rows[|lines|] == "╰" + Repeat('─', MaxWidth(lines) + 2) + "╯"
      && forall i :: 1 <= i < |lines| ==> Framed(rows[i], lines[i])
  {
    hide Box, Framed;
    BoxRows(lines);
  }

  /** On lines without escape sequences the box is aligned: the top and
      bottom rows are `max_len + 4` characters, and so is every other row
      once a wide mark ending its line is counted twice. */
  lemma BoxAligned(lines: seq<string>)
    requires lines != [] && NoEmptyLine(lines)
    requires forall i :: 0 <= i < |lines| ==> ESC !in lines[i]
    ensures Box(lines).Ok?
    ensures var rows := Box(lines).value; var w := MaxWidth(lines) + 4;
      |rows[0]| == w && |rows[|lines|]| == w
      && forall i :: 1 <= i < |lines| ==> |rows[i]| + Mark(lines[i][|lines[i]| - 1]) == w
  {
    hide Box, Top, Row, PadLine, MaxWidth, StripAnsi;
    var m := MaxWidth(lines);
    forall i | 0 <= i < |lines|
      ensures StripAnsi(lines[i]) == lines[i]
    {
      StripEscapeFree(lines[i]);
    }
    BoxRows(lines);
    assert LineWidth(lines[0]) <= m;
    forall i | 1 <= i < |lines|
      ensures |Box(lines).value[i]| + Mark(lines[i][|lines[i]| - 1]) == m + 4
    {
      assert LineWidth(lines[i]) <= m;
    }
  }

  /** The rows of list `k` of a trace: its entries' lines, boxed. */
  function Render(lists: seq<seq<Entry>>, k: nat): Result<seq<string>>
    requires Linked(lists) && k < |lists|
    decreases |lists| - k, 1
  {
    var inner :- RenderEntries(lists, k, 0);
    Box(inner)
  }

  /** The lines of the entries of list `k` from position `j` on: a step's
      text split at newlines, a nested list's box. */
  function RenderEntries(lists: seq<seq<Entry>>, k: nat, j: nat): Result<seq<string>>
    requires Linked(lists) && k < |lists|
    decreases |lists| - k, 0, |lists[k]| - j
  {
    if j >= |lists[k]| then Ok([])
    else
      var first :- match lists[k][j]
        case Step(node) => Ok(SplitLines(node.text))
        case List(c) => Render(lists, c);
      var rest :- RenderEntries(lists, k, j + 1);
      Ok(first + rest)
  }

  /** `tostr`: "" for an empty trace, otherwise the rows of the box around
      `data`, one per line. */
  function ToStr(lists: seq<seq<Entry>>): (r: Result<string>)
    requires |lists| > 0 && Linked(lists)
    ensures lists[0] == [] ==> r == Ok("")
  {
    if lists[0] == [] then Ok("")
    else
      var rows :- Render(lists, 0);
      Ok(JoinLines(rows))
  }

  /** `__bool__` of the class-level trace: whether `data` has an entry. */
  function IsNonEmpty(lists: seq<seq<Entry>>): (b: bool)
    requires |lists| > 0
    ensures b <==> lists[0] != []
  {
    |lists[0]| > 0
  }

  /** A result shown in a branch node: its class name and its `str()`. */
  datatype Shown = Shown(kind: string, text: string)

  /** Python's `<=` on strings: code points compared left to right, a
      prefix before any longer string. */
  predicate TextLe(a: string, b: string) {
    a == [] || (b != [] && (a[0] < b[0] || (a[0] == b[0] && TextLe(a[1..], b[1..]))))
  }

  lemma {:induction false} TextLeTotal(a: string, b: string)
    ensures TextLe(a, b) || TextLe(b, a)
    decreases |a|
  {
    if a != [] && b != [] && a[0] == b[0] {
      TextLeTotal(a[1..], b[1..]);
    }
  }

  /** Each result's text is at most the next one's. */
  predicate SortedByText(s: seq<Shown>) {
    forall i :: 0 <= i < |s| - 1 ==> TextLe(s[i].text, s[i + 1].text)
  }

  /** Puts `x` before the first element whose text is not below it, so a
      sort built on it keeps equal texts in their original order. */
  function Insert(x: Shown, s: seq<Shown>): (r: seq<Shown>)
    requires SortedByText(s)
    ensures SortedByText(r) && multiset(r) == multiset(s) + multiset{x}
    ensures r != [] && (r[0] == x || (s != [] && r[0] == s[0]))
  {
    if s == [] then [x]
    else if TextLe(x.text, s[0].text) then [x] + s
    else
      var rest := Insert(x, s[1..]);
      TextLeTotal(x.text, s[0].text);
      assert s == [s[0]] + s[1..];
      [s[0]] + rest
  }

  /** `list.sort(key=str)`, stable. */
  function SortByText(s: seq<Shown>): (r: seq<Shown>)
    ensures SortedByText(r) && multiset(r) == multiset(s)
  {
    if s == [] then []
    else
      assert s == [s[0]] + s[1..];
      Insert(s[0], SortByText(s[1..]))
  }

  /** The results of s whose text is t, in their order in s. */
  function WithText(s: seq<Shown>, t: string): (r: seq<Shown>)
    ensures |r| <= |s|
  {
    if s == [] then [] else TextOf(s[0], t) + WithText(s[1..], t)
  }

  lemma {:induction false} TextLeRefl(a: string)
    ensures TextLe(a, a)
    decreases |a|
  {
    if a != [] {
      TextLeRefl(a[1..]);
    }
  }

  /** Inserting x puts it first among the results of its text and leaves
      every other text alone. */
  lemma {:induction false} InsertStable(x: Shown, s: seq<Shown>, t: string)
    requires SortedByText(s)
    ensures WithText(Insert(x, s), t) == TextOf(x, t) + WithText(s, t)
  {
    if s == [] || TextLe(x.text, s[0].text) {
      assert Insert(x, s) == [x] + s;
      WithTextCons(x, s, t);
    } else {
      var u := Insert(x, s[1..]);
      assert Insert(x, s) == [s[0]] + u;
      assert s == [s[0]] + s[1..];
      InsertStable(x, s[1..], t);
      WithTextCons(s[0], u, t);
      WithTextCons(s[0], s[1..], t);
      if x.text == t && s[0].text == t {
        TextLeRefl(t);
      }
      hide *;
      assert TextOf(x, t) == [] || TextOf(s[0], t) == [];
    }
  }

  /** [y] when y's text is t, [] otherwise. */
  function TextOf(y: Shown, t: string): seq<Shown> {
    if y.text == t then [y] else []
  }

  lemma WithTextCons(y: Shown, s: seq<Shown>, t: string)
    ensures WithText([y] + s, t) == TextOf(y, t) + WithText(s, t)
  {
    assert ([y] + s)[1..] == s;
  }

  /** The sort is stable: for every text, the results of that text keep
      their order. */
  lemma {:induction false} SortStable(s: seq<Shown>, t: string)
    ensures WithText(SortByText(s), t) == WithText(s, t)
  {
    if s != [] {
      SortStable(s[1..], t);
      InsertStable(s[0], SortByText(s[1..]), t);
      assert SortByText(s) == Insert(s[0], SortByText(s[1..]));
    }
  }

  /** `ETBranchNode`: the results, sorted by their text when the first is a
      Comparison; an empty list of results raises IndexError (`result[0]`). */
  function BranchNode(results: seq<Shown>): (r: Result<seq<Shown>>)
    ensures r.Err? <==> results == []
    ensures r.Ok? ==> multiset(r.value) == multiset(results)
    ensures r.Ok? && results[0].kind == "Comparison" ==> SortedByText(r.value)
    ensures r.Ok? && results[0].kind != "Comparison" ==> r.value == results
  {
    if results == [] then Err(IndexError)
    else if results[0].kind == "Comparison" then Ok(SortByText(results))
    else Ok(results)
  }
}
