/** Incremental line/indent table (Pegparse::LineCounter).
    The table is fed every fragment the cursor matches, grows forward only,
    and answers offset -> (line, column) and offset -> indent queries. */
module LineCounter {
  import opened Wrappers
  import Scanner

  /** `starts` are the offsets where lines begin, `noindent` the offsets of
      the first non-indentation byte of each line (as far as seen so far),
      `farthest` the end of the farthest fragment observed. */
  datatype Lines = Lines(starts: seq<nat>, noindent: seq<nat>, farthest: nat)

  ghost predicate Valid(l: Lines) {
    && |l.starts| >= 1
    && |l.noindent| == |l.starts|
    && l.starts[0] == 0
    && (forall i :: 0 <= i < |l.starts| ==> l.starts[i] <= l.noindent[i])
  }

  /** Every table the counter can hold satisfies the invariant. */
  type Table = l: Lines | Valid(l) witness Lines([0], [0], 0)

  /** The fresh counter: one line starting at 0, nothing observed. */
  const Init: Table := Lines([0], [0], 0)

  function Max(a: nat, b: nat): nat {
    if a < b then b else a
  }

  function Last(s: seq<nat>): nat
    requires |s| > 0
  {
    s[|s| - 1]
  }

  /** `bsearch_index { |x| x > p }` on a sorted table: the first index whose
      entry exceeds `p`, searching from `i`. */
  function FirstAbove(starts: seq<nat>, p: nat, i: nat): (k: nat)
    requires i < |starts| && p < Last(starts)
    ensures i <= k < |starts| && starts[k] > p
    ensures i < k ==> starts[k - 1] <= p
    decreases |starts| - i
  {
    if starts[i] > p then i else FirstAbove(starts, p, i + 1)
  }

  /** The line containing offset `p`. */
  function LineOf(t: Table, p: nat): (line: nat)
    ensures line < |t.starts|
    ensures t.starts[line] <= p
    ensures line + 1 < |t.starts| ==> p < t.starts[line + 1]
  {
    if p >= Last(t.starts) then |t.starts| - 1
    else FirstAbove(t.starts, p, 0) - 1
  }

  /** position(p): the (line, column) of `p`, both counted from 0. */
  function Position(t: Table, p: nat): (r: (nat, nat))
    ensures r.0 < |t.starts| && t.starts[r.0] <= p
    ensures r.1 == p - t.starts[r.0]
    ensures r.0 + 1 < |t.starts| ==> p < t.starts[r.0 + 1]
  {
    var line := LineOf(t, p);
    (line, p - t.starts[line])
  }

  /** indent(p): width of the indentation of the line containing `p`. */
  function Indent(t: Table, p: nat): (r: nat)
    ensures r == t.noindent[Position(t, p).0] - t.starts[Position(t, p).0]
  {
    var line := LineOf(t, p);
    t.noindent[line] - t.starts[line]
  }

  predicate IsBlank(c: char) { c == ' ' || c == '\t' }

  /** `u` extends `t`: the line starts of `t` are a prefix of those of `u`
      and no indent boundary moved backwards. */
  ghost predicate Grows(t: Lines, u: Lines) {
    && |t.starts| <= |u.starts|
    && |t.noindent| <= |u.noindent|
    && (forall i :: 0 <= i < |t.starts| ==> u.starts[i] == t.starts[i])
    && (forall i :: 0 <= i < |t.noindent| ==> t.noindent[i] <= u.noindent[i])
  }

  /** One byte of the scan loop of memo: a blank sitting exactly at the
      current indent boundary of `row` pushes the boundary one further; a
      newline appends a new line start when it lies beyond the last one. */
  function Step(t: Table, pos: nat, ch: char, idx: nat, row: nat): (u: Table)
    ensures u.farthest == t.farthest
    ensures |u.starts| <= |t.starts| + 1
  {
    var t1: Table :=
      if IsBlank(ch) && row < |t.noindent| && pos + idx == t.noindent[row]
      then t.(noindent := t.noindent[row := t.noindent[row] + 1])
      else t;
    if ch == '\n' && Last(t1.starts) < pos + idx + 1 then
      t1.(starts := t1.starts + [pos + idx + 1], noindent := t1.noindent + [pos + idx + 1])
    else t1
  }

  /** The scan loop of memo over `str[i..]`, `row` being the line of byte `i`. */
  function Scan(t: Table, pos: nat, str: string, i: nat, row: nat): (u: Table)
    requires i <= |str|
    ensures u.farthest == t.farthest
    decreases |str| - i
  {
    if i == |str| then t
    else
      Scan(Step(t, pos, str[i], i, row), pos, str, i + 1, NextRow(str[i], row))
  }

  /** Growth is transitive. */
  lemma GrowsTrans(t: Lines, u: Lines, v: Lines)
    requires Grows(t, u) && Grows(u, v)
    ensures Grows(t, v)
  {
  }

  /** One byte never removes a line start nor moves a boundary back. */
  lemma StepGrows(t: Table, pos: nat, ch: char, idx: nat, row: nat)
    ensures Grows(t, Step(t, pos, ch, idx, row))
  {
  }

  /** Nor does the scan loop. */
  lemma {:induction false} ScanGrows(t: Table, pos: nat, str: string, i: nat, row: nat)
    requires i <= |str|
    ensures Grows(t, Scan(t, pos, str, i, row))
    decreases |str| - i
  {
    if i < |str| {
      var u := Step(t, pos, str[i], i, row);
      StepGrows(t, pos, str[i], i, row);
      ScanGrows(u, pos, str, i + 1, NextRow(str[i], row));
      GrowsTrans(t, u, Scan(u, pos, str, i + 1, NextRow(str[i], row)));
    }
  }

  /** Strictly increasing, as the line starts of a counter are. */
  ghost predicate Increasing(s: seq<nat>) {
    forall i, j :: 0 <= i < j < |s| ==> s[i] < s[j]
  }

  /** A step appends a line start only beyond the last one, so the line
      starts stay strictly increasing. */
  lemma StepKeepsIncreasing(t: Table, pos: nat, ch: char, idx: nat, row: nat)
    requires Increasing(t.starts)
    ensures Increasing(Step(t, pos, ch, idx, row).starts)
  {
    var u := Step(t, pos, ch, idx, row);
    if |u.starts| > |t.starts| {
      assert u.starts == t.starts + [pos + idx + 1];
      forall i | 0 <= i < |t.starts|
        ensures t.starts[i] <= Last(t.starts)
      {
      }
    }
  }

  lemma {:induction false} ScanKeepsIncreasing(t: Table, pos: nat, str: string, i: nat, row: nat)
    requires i <= |str| && Increasing(t.starts)
    ensures Increasing(Scan(t, pos, str, i, row).starts)
    decreases |str| - i
  {
    if i < |str| {
      StepKeepsIncreasing(t, pos, str[i], i, row);
      ScanKeepsIncreasing(Step(t, pos, str[i], i, row), pos, str, i + 1, NextRow(str[i], row));
    }
  }

  /** Bytes that are neither blank nor a newline leave the table alone. */
  lemma {:induction false} ScanPlain(t: Table, pos: nat, str: string, i: nat, j: nat, row: nat)
    requires i <= j <= |str|
    requires forall k :: i <= k < j ==> !IsBlank(str[k]) && str[k] != '\n'
    ensures Scan(t, pos, str, i, row) == Scan(t, pos, str, j, row)
    decreases j - i
  {
    if i < j {
      assert Step(t, pos, str[i], i, row) == t;
      ScanPlain(t, pos, str, i + 1, j, row);
    }
  }

  /** A run of blanks starting exactly at the indent boundary of `row`
      pushes the boundary to the end of the run. */
  lemma {:induction false} ScanBlanks(t: Table, pos: nat, str: string, i: nat, j: nat, row: nat)
    requires i <= j <= |str| && row < |t.noindent| && t.noindent[row] == pos + i
    requires forall k :: i <= k < j ==> IsBlank(str[k])
    ensures Valid(t.(noindent := t.noindent[row := pos + j]))
    ensures Scan(t, pos, str, i, row) == Scan(t.(noindent := t.noindent[row := pos + j]), pos, str, j, row)
    decreases j - i
  {
    if i < j {
      var u: Table := t.(noindent := t.noindent[row := pos + i + 1]);
      assert Step(t, pos, str[i], i, row) == u;
      ScanBlanks(u, pos, str, i + 1, j, row);
      assert u.(noindent := u.noindent[row := pos + j]) == t.(noindent := t.noindent[row := pos + j]);
    } else {
      assert t.(noindent := t.noindent[row := pos + j]) == t;
    }
  }

  /** memo(pos, str): observe the fragment `str` found at offset `pos`.
      `None` models the ArgumentError raised when `pos` lies beyond every
      fragment observed so far. */
  function Memo(t: Table, pos: nat, str: string): (r: Option<Table>)
    ensures r.None? <==> pos > t.farthest
    ensures pos + |str| < t.farthest ==> r == Some(t)
    ensures r.Some? ==> Grows(t, r.value)
    ensures r.Some? ==> r.value.farthest >= pos + |str|
    ensures r.Some? ==> r.value.farthest == if t.farthest < pos + |str| then pos + |str| else t.farthest
  {
    if pos + |str| < t.farthest then Some(t)
    else if pos > t.farthest then None
    else
      var u := Scan(t, pos, str, 0, Position(t, pos).0);
      ScanGrows(t, pos, str, 0, Position(t, pos).0);
      Some(u.(farthest := if t.farthest < pos + |str| then pos + |str| else t.farthest))
  }

  /** memo keeps the line starts strictly increasing. */
  lemma MemoKeepsIncreasing(t: Table, pos: nat, str: string)
    requires Increasing(t.starts)
    ensures Memo(t, pos, str).Some? ==> Increasing(Memo(t, pos, str).value.starts)
  {
    if pos + |str| >= t.farthest && pos <= t.farthest {
      ScanKeepsIncreasing(t, pos, str, 0, Position(t, pos).0);
    }
  }


  // ---------------------------------------------------------------------
  // Reference: what the table says about the text observed so far
  // ---------------------------------------------------------------------

  /** The line starts of the first `n` bytes of `text`: offset 0 and every
      offset just after a newline. */
  function LineStartsOf(text: string, n: nat): (r: seq<nat>)
    requires n <= |text|
    ensures |r| >= 1 && r[0] == 0
    ensures forall i :: 0 <= i < |r| ==> r[i] <= n
    ensures forall i :: 1 <= i < |r| ==> 1 <= r[i] && text[r[i] - 1] == '\n'
    decreases n
  {
    if n == 0 then [0]
    else LineStartsOf(text, n - 1) + (if text[n - 1] == '\n' then [n] else [])
  }

  /** Width of the run of blanks starting at `a`, looking only at the first
      `n` bytes. */
  function BlankRun(text: string, a: nat, n: nat): (w: nat)
    requires a <= n <= |text|
    ensures a + w <= n
    decreases n - a
  {
    if a < n && IsBlank(text[a]) then 1 + BlankRun(text, a + 1, n) else 0
  }

  /** The indent boundaries of `text[..n]`: each line start pushed past
      the blanks that follow it. */
  function NoIndentsOf(text: string, n: nat): seq<nat>
    requires n <= |text|
  {
    var ls := LineStartsOf(text, n);
    seq(|ls|, l requires 0 <= l < |ls| => ls[l] + BlankRun(text, ls[l], n))
  }

  /** The table a counter holds after observing exactly `text[..n]`: the
      line starts are those of `text[..n]` and the indent boundaries those
      of NoIndentsOf. */
  ghost predicate Describes(t: Lines, text: string, n: nat) {
    && n <= |text|
    && t.starts == LineStartsOf(text, n)
    && t.noindent == NoIndentsOf(text, n)
  }

  /** Describes, entry by entry. */
  ghost predicate DescribesPointwise(t: Lines, text: string, n: nat) {
    && n <= |text|
    && t.starts == LineStartsOf(text, n)
    && |t.noindent| == |t.starts|
    && forall l :: 0 <= l < |t.noindent| ==> t.noindent[l] == t.starts[l] + BlankRun(text, t.starts[l], n)
  }

  /** The two readings of Describes agree. */
  lemma PointwiseIff(t: Lines, text: string, n: nat)
    requires n <= |text|
    ensures Describes(t, text, n) <==> DescribesPointwise(t, text, n)
  {
    if DescribesPointwise(t, text, n) {
      var ni := NoIndentsOf(text, n);
      assert |ni| == |t.noindent|;
      assert forall l :: 0 <= l < |ni| ==> ni[l] == t.noindent[l];
    }
  }

  /** Seeing more text only appends line starts, all beyond what was seen. */
  lemma {:induction false} LineStartsPrefix(text: string, m: nat, n: nat)
    requires m <= n <= |text|
    ensures |LineStartsOf(text, m)| <= |LineStartsOf(text, n)|
    ensures forall k :: 0 <= k < |LineStartsOf(text, m)| ==> LineStartsOf(text, n)[k] == LineStartsOf(text, m)[k]
    ensures forall k :: |LineStartsOf(text, m)| <= k < |LineStartsOf(text, n)| ==> LineStartsOf(text, n)[k] > m
    decreases n - m
  {
    if m < n {
      LineStartsPrefix(text, m, n - 1);
      var q := LineStartsOf(text, n - 1);
      var r := LineStartsOf(text, n);
      assert forall k :: 0 <= k < |q| ==> r[k] == q[k];
    }
  }

  /** A blank run in a longer window either equals the shorter one or, when
      it reached the end of the shorter window on a blank, is one longer. */
  lemma {:induction false} BlankRunExtend(text: string, a: nat, x: nat)
    requires a <= x < |text|
    ensures BlankRun(text, a, x + 1) ==
      BlankRun(text, a, x) + (if a + BlankRun(text, a, x) == x && IsBlank(text[x]) then 1 else 0)
    decreases x - a
  {
    if a < x && IsBlank(text[a]) {
      BlankRunExtend(text, a + 1, x);
    } else if a == x && IsBlank(text[x]) {
      assert BlankRun(text, a + 1, x + 1) == 0;
    }
  }

  /** A blank run stops at the first non-blank inside its window. */
  lemma {:induction false} RunStopsAt(text: string, a: nat, n: nat, y: nat)
    requires a <= y < n <= |text| && !IsBlank(text[y])
    ensures a + BlankRun(text, a, n) <= y
    decreases y - a
  {
    if a < y && IsBlank(text[a]) {
      RunStopsAt(text, a + 1, n, y);
    }
  }

  /** A blank run that ends inside its window ends on a non-blank. */
  lemma {:induction false} RunEndsOnNonBlank(text: string, a: nat, n: nat)
    requires a <= n <= |text| && a + BlankRun(text, a, n) < n
    ensures !IsBlank(text[a + BlankRun(text, a, n)])
    decreases n - a
  {
    if IsBlank(text[a]) {
      RunEndsOnNonBlank(text, a + 1, n);
    }
  }

  /** A line's leading blanks never reach the next line. */
  lemma RunStopsBeforeNextLine(text: string, n: nat, l: nat)
    requires n <= |text| && l + 1 < |LineStartsOf(text, n)|
    ensures LineStartsOf(text, n)[l] + BlankRun(text, LineStartsOf(text, n)[l], n) < LineStartsOf(text, n)[l + 1]
  {
    var starts := LineStartsOf(text, n);
    RunStopsAt(text, starts[l], n, starts[l + 1] - 1);
  }

  /** The line of `p` in a table whose line starts are those of
      `text[..n]`, for `p <= n`, is the number of newlines before `p`. */
  lemma LineOfDescribed(t: Table, text: string, n: nat, p: nat)
    requires n <= |text| && t.starts == LineStartsOf(text, n) && p <= n
    ensures LineOf(t, p) == |LineStartsOf(text, p)| - 1
  {
    LineStartsPrefix(text, p, n);
  }

  /** position(p) on such a table: the line is the number of newlines
      before `p` and the column the distance from the last of them. */
  lemma PositionDescribed(t: Table, text: string, n: nat, p: nat)
    requires n <= |text| && t.starts == LineStartsOf(text, n) && p <= n
    ensures Position(t, p).0 == |LineStartsOf(text, p)| - 1
    ensures Position(t, p).1 == p - Last(LineStartsOf(text, p))
  {
    LineOfDescribed(t, text, n, p);
    LastLineStartKept(text, p, n);
  }

  /** indent(p) on a table that describes `text[..n]`: the number of
      blanks that open the line holding `p`, as far as the text is seen. */
  lemma IndentDescribed(t: Table, text: string, n: nat, p: nat)
    requires Describes(t, text, n) && p <= n
    ensures Indent(t, p) == BlankRun(text, Last(LineStartsOf(text, p)), n)
  {
    PositionDescribed(t, text, n, p);
    PointwiseIff(t, text, n);
    LastLineStartKept(text, p, n);
  }

  /** The start of the last line of `text[..p]` is still listed, at the
      same index, once more text is seen. */
  lemma LastLineStartKept(text: string, p: nat, n: nat)
    requires p <= n <= |text|
    ensures |LineStartsOf(text, p)| <= |LineStartsOf(text, n)|
    ensures LineStartsOf(text, n)[|LineStartsOf(text, p)| - 1] == Last(LineStartsOf(text, p))
  {
    LineStartsPrefix(text, p, n);
  }

  /** A byte already observed changes nothing: its newline is known and a
      blank there cannot sit on an indent boundary. */
  lemma StepBehind(t: Table, text: string, f: nat, pos: nat, i: nat, row: nat)
    requires pos + i < f && DescribesPointwise(t, text, f)
    ensures Step(t, pos, text[pos + i], i, row) == t
  {
    if text[pos + i] == '\n' {
      NewlineKnown(t, text, f, pos + i);
    }
    if row < |t.noindent| && pos + i == t.noindent[row] {
      BoundaryNotBlank(t, text, f, pos + i, row);
    }
  }

  /** A newline already observed has its line start in the table. */
  lemma NewlineKnown(t: Table, text: string, f: nat, x: nat)
    requires x < f && DescribesPointwise(t, text, f) && text[x] == '\n'
    ensures x + 1 <= Last(t.starts)
  {
    LineStartsPrefix(text, x + 1, f);
    assert LineStartsOf(text, x + 1)[|LineStartsOf(text, x + 1)| - 1] == x + 1;
    assert t.starts[|LineStartsOf(text, x + 1)| - 1] == x + 1;
  }

  /** Inside the observed text an indent boundary sits on a non-blank. */
  lemma BoundaryNotBlank(t: Table, text: string, f: nat, x: nat, row: nat)
    requires x < f && DescribesPointwise(t, text, f)
    requires row < |t.noindent| && x == t.noindent[row]
    ensures !IsBlank(text[x])
  {
    RunEndsOnNonBlank(text, t.starts[row], f);
  }

  /** A new byte extends the line starts by the line it may open. */
  lemma StepAheadStarts(t: Table, text: string, pos: nat, i: nat, row: nat)
    requires pos + i < |text| && DescribesPointwise(t, text, pos + i)
    ensures Step(t, pos, text[pos + i], i, row).starts == LineStartsOf(text, pos + i + 1)
  {
  }

  /** The boundaries of the lines seen before the new byte: only the last
      line's moves, by one, for a blank sitting on it. */
  lemma OldLinesAfterStep(t: Table, text: string, x: nat, row: nat, l: nat)
    requires x < |text| && t.starts == LineStartsOf(text, x)
    requires row == |LineStartsOf(text, x)| - 1 && l < |t.noindent|
    requires t.noindent[l] == t.starts[l] + BlankRun(text, t.starts[l], x)
    ensures t.starts[l] + BlankRun(text, t.starts[l], x + 1) ==
      t.noindent[l] + (if l == row && IsBlank(text[x]) && x == t.noindent[row] then 1 else 0)
  {
    BlankRunExtend(text, t.starts[l], x);
    if l < row {
      RunStopsBeforeNextLine(text, x, l);
    }
  }

  /** What one step does to an entry the table already had. */
  lemma StepOldEntry(t: Table, pos: nat, ch: char, idx: nat, row: nat, l: nat)
    requires l < |t.noindent|
    ensures Step(t, pos, ch, idx, row).starts[l] == t.starts[l]
    ensures Step(t, pos, ch, idx, row).noindent[l] ==
      t.noindent[l] + (if l == row && IsBlank(ch) && pos + idx == t.noindent[row] then 1 else 0)
  {
  }

  /** The entry one step may append: a line starting just after the newline,
      with nothing of it seen yet. */
  lemma StepNewEntry(t: Table, pos: nat, ch: char, idx: nat, row: nat)
    requires |Step(t, pos, ch, idx, row).noindent| > |t.noindent|
    ensures Step(t, pos, ch, idx, row).starts[|t.starts|] == pos + idx + 1
    ensures Step(t, pos, ch, idx, row).noindent[|t.noindent|] == pos + idx + 1
  {
  }

  /** A new byte extends the boundary of the current line when it is a blank
      sitting on it, and a newline opens a line with an empty indent. */
  lemma StepAheadNoIndent(t: Table, text: string, pos: nat, i: nat, row: nat)
    requires pos + i < |text| && DescribesPointwise(t, text, pos + i)
    requires row == |LineStartsOf(text, pos + i)| - 1
    ensures var u := Step(t, pos, text[pos + i], i, row);
      forall l :: 0 <= l < |u.noindent| ==> u.noindent[l] == u.starts[l] + BlankRun(text, u.starts[l], pos + i + 1)
  {
    var u := Step(t, pos, text[pos + i], i, row);
    forall l | 0 <= l < |u.noindent|
      ensures u.noindent[l] == u.starts[l] + BlankRun(text, u.starts[l], pos + i + 1)
    {
      StepAheadEntry(t, text, pos, i, row, l);
    }
  }

  /** One entry of the table after a step over a new byte. */
  lemma StepAheadEntry(t: Table, text: string, pos: nat, i: nat, row: nat, l: nat)
    requires pos + i < |text| && t.starts == LineStartsOf(text, pos + i)
    requires row == |LineStartsOf(text, pos + i)| - 1
    requires l < |Step(t, pos, text[pos + i], i, row).noindent|
    requires l < |t.noindent| ==> t.noindent[l] == t.starts[l] + BlankRun(text, t.starts[l], pos + i)
    ensures var u := Step(t, pos, text[pos + i], i, row);
      u.noindent[l] == u.starts[l] + BlankRun(text, u.starts[l], pos + i + 1)
  {
    if l < |t.noindent| {
      StepAheadOldEntry(t, text, pos, i, row, l);
    } else {
      StepNewEntry(t, pos, text[pos + i], i, row);
      assert BlankRun(text, pos + i + 1, pos + i + 1) == 0;
    }
  }

  lemma StepAheadOldEntry(t: Table, text: string, pos: nat, i: nat, row: nat, l: nat)
    requires pos + i < |text| && t.starts == LineStartsOf(text, pos + i)
    requires row == |LineStartsOf(text, pos + i)| - 1
    requires l < |t.noindent|
    requires t.noindent[l] == t.starts[l] + BlankRun(text, t.starts[l], pos + i)
    ensures var u := Step(t, pos, text[pos + i], i, row);
      u.noindent[l] == u.starts[l] + BlankRun(text, u.starts[l], pos + i + 1)
  {
    var x := pos + i;
    var u := Step(t, pos, text[x], i, row);
    var bump := if l == row && IsBlank(text[x]) && x == t.noindent[row] then 1 else 0;
    var a := t.starts[l];
    StepOldEntry(t, pos, text[x], i, row, l);
    OldLinesAfterStep(t, text, x, row, l);
    assert u.starts[l] == a && u.noindent[l] == t.noindent[l] + bump;
    assert a + BlankRun(text, a, x + 1) == t.noindent[l] + bump;
  }

  /** One byte of the scan keeps the table describing the text up to the
      farther of the old frontier and the byte just read. */
  lemma StepDescribes(t: Table, text: string, f: nat, pos: nat, i: nat, row: nat)
    requires pos <= f && pos + i < |text|
    requires DescribesPointwise(t, text, Max(f, pos + i))
    requires row == |LineStartsOf(text, pos + i)| - 1
    ensures DescribesPointwise(Step(t, pos, text[pos + i], i, row), text, Max(f, pos + (i + 1)))
  {
    if pos + i < f {
      StepBehind(t, text, f, pos, i, row);
    } else {
      StepAheadStarts(t, text, pos, i, row);
      StepAheadNoIndent(t, text, pos, i, row);
    }
  }

  /** The row the scan loop carries to the next byte. */
  function NextRow(ch: char, row: nat): nat {
    if ch == '\n' then row + 1 else row
  }

  /** The row carried past byte `k` is the line of byte `k + 1`. */
  lemma NextRowAt(text: string, k: nat, row: nat)
    requires k < |text| && row == |LineStartsOf(text, k)| - 1
    ensures NextRow(text[k], row) == |LineStartsOf(text, k + 1)| - 1
  {
  }

  /** Scan, reading the fragment `text[pos..pos + n]` straight from the
      text it was cut from. */
  ghost function ScanIn(t: Table, text: string, pos: nat, n: nat, i: nat, row: nat): Table
    requires pos + n <= |text| && i <= n
    decreases n - i
  {
    if i == n then t
    else ScanIn(Step(t, pos, text[pos + i], i, row), text, pos, n, i + 1, NextRow(text[pos + i], row))
  }

  /** Scanning a fragment is scanning the text where it was cut from. */
  lemma {:induction false} ScanInText(t: Table, text: string, pos: nat, n: nat, i: nat, row: nat)
    requires pos + n <= |text| && i <= n
    ensures Scan(t, pos, text[pos..pos + n], i, row) == ScanIn(t, text, pos, n, i, row)
    decreases n - i
  {
    if i < n {
      var ch := text[pos + i];
      assert text[pos..pos + n][i] == ch;
      ScanInText(Step(t, pos, ch, i, row), text, pos, n, i + 1, NextRow(ch, row));
    }
  }

  /** The scan loop keeps the table describing the text up to the farther
      of the old frontier and the bytes scanned so far; `x` is that
      frontier and `k` the offset of byte `i`. */
  lemma {:induction false} ScanDescribes(t: Table, text: string, f: nat, pos: nat, n: nat, i: nat, row: nat, x: nat, k: nat)
    requires pos <= f && pos + n <= |text| && i <= n
    requires x == Max(f, pos + i) && k == pos + i
    requires Describes(t, text, x)
    requires row == |LineStartsOf(text, k)| - 1
    ensures Describes(ScanIn(t, text, pos, n, i, row), text, Max(f, pos + n))
    decreases n - i, 1
  {
    if i == n {
      assert ScanIn(t, text, pos, n, i, row) == t;
    } else {
      ScanDescribesTurn(t, text, f, pos, n, i, row, x, k);
    }
  }

  /** StepDescribes, stated on the exact form of the description. */
  lemma StepKeepsDescribes(t: Table, text: string, f: nat, pos: nat, i: nat, row: nat, x: nat)
    requires pos <= f && pos + i < |text| && x == Max(f, pos + i)
    requires Describes(t, text, x)
    requires row == |LineStartsOf(text, pos + i)| - 1
    ensures Describes(Step(t, pos, text[pos + i], i, row), text, Max(f, pos + (i + 1)))
  {
    PointwiseIff(t, text, x);
    StepDescribes(t, text, f, pos, i, row);
    PointwiseIff(Step(t, pos, text[pos + i], i, row), text, Max(f, pos + (i + 1)));
  }

  /** ScanDescribes past one more byte. */
  lemma {:induction false} ScanDescribesTurn(t: Table, text: string, f: nat, pos: nat, n: nat, i: nat, row: nat, x: nat, k: nat)
    requires pos <= f && pos + n <= |text| && i < n
    requires x == Max(f, pos + i) && k == pos + i
    requires Describes(t, text, x)
    requires row == |LineStartsOf(text, k)| - 1
    ensures Describes(ScanIn(t, text, pos, n, i, row), text, Max(f, pos + n))
    decreases n - i, 0
  {
    var u := Step(t, pos, text[k], i, row);
    var r := NextRow(text[k], row);
    StepInText(t, text, f, pos, n, i, row, x, k);
    ScanDescribes(u, text, f, pos, n, i + 1, r, Max(f, pos + (i + 1)), k + 1);
  }

  /** One step of ScanDescribesTurn: the stepped table describes one more
      character, on the row of the next offset, and the rest of the scan
      starts from it. */
  lemma StepInText(t: Table, text: string, f: nat, pos: nat, n: nat, i: nat, row: nat, x: nat, k: nat)
    requires pos <= f && pos + n <= |text| && i < n
    requires x == Max(f, pos + i) && k == pos + i
    requires Describes(t, text, x)
    requires row == |LineStartsOf(text, k)| - 1
    ensures Describes(Step(t, pos, text[k], i, row), text, Max(f, pos + (i + 1)))
    ensures NextRow(text[k], row) == |LineStartsOf(text, k + 1)| - 1
    ensures ScanIn(t, text, pos, n, i, row) == ScanIn(Step(t, pos, text[k], i, row), text, pos, n, i + 1, NextRow(text[k], row))
  {
    StepKeepsDescribes(t, text, f, pos, i, row, x);
    NextRowAt(text, k, row);
  }

  /** A fresh counter describes the empty prefix of any text. */
  lemma InitDescribes(text: string)
    ensures Describes(Init, text, 0)
  {
  }

  /** The frontier is not part of what a table says about the text. */
  lemma DescribesIgnoresFarthest(t: Lines, text: string, n: nat, f: nat)
    requires Describes(t, text, n)
    ensures Describes(t.(farthest := f), text, n)
  {
  }

  /** The row position reports for an offset is the index of its line. */
  lemma RowOfOffset(t: Table, text: string, pos: nat)
    requires Describes(t, text, t.farthest) && pos <= t.farthest
    ensures Position(t, pos).0 == |LineStartsOf(text, pos)| - 1
  {
    PositionDescribed(t, text, t.farthest, pos);
  }

  /** The scan memo starts, from the line of its offset, describes the text
      up to the new frontier. */
  lemma ScanFromOffset(t: Table, text: string, pos: nat, n: nat)
    requires Describes(t, text, t.farthest)
    requires pos <= t.farthest && pos + n <= |text|
    ensures Describes(Scan(t, pos, text[pos..pos + n], 0, Position(t, pos).0), text, Max(t.farthest, pos + n))
  {
    var row := Position(t, pos).0;
    RowOfOffset(t, text, pos);
    ScanDescribes(t, text, t.farthest, pos, n, 0, row, t.farthest, pos);
    ScanInText(t, text, pos, n, 0, row);
  }

  /** Past its early exits, memo is the scan from the offset's line with
      the frontier moved. */
  lemma MemoIsScan(t: Table, pos: nat, str: string)
    requires pos <= t.farthest <= pos + |str|
    ensures Memo(t, pos, str) == Some(Scan(t, pos, str, 0, Position(t, pos).0).(farthest := Max(t.farthest, pos + |str|)))
  {
  }

  /** memo keeps the table exact: fed fragments of one text, each starting
      no later than the frontier, the table lists precisely the line starts
      and indent boundaries of the text observed so far. */
  lemma MemoDescribes(t: Table, u: Table, text: string, pos: nat, n: nat)
    requires Describes(t, text, t.farthest)
    requires pos <= t.farthest && pos + n <= |text|
    requires Some(u) == Memo(t, pos, text[pos..pos + n])
    ensures Describes(u, text, u.farthest)
  {
    if pos + n >= t.farthest {
      var str := text[pos..pos + n];
      var v := Scan(t, pos, str, 0, Position(t, pos).0);
      var f := Max(t.farthest, pos + n);
      ScanFromOffset(t, text, pos, n);
      MemoIsScan(t, pos, str);
      assert u == v.(farthest := f);
      DescribesIgnoresFarthest(v, text, f, f);
    }
  }
}
