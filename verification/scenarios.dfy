/** Worked examples: behaviours the repository's own tests pin down, stated
    on the model with concrete inputs. */
module Scenarios {
  import opened Wrappers
  import PE = ParserErrors
  import LC = LineCounter
  import BC = BiopRuleChain

  /** Failures at 4, then twice at 5 under different optional frames: the
      failure at 4 is forgotten and the later optional start wins. */
  lemma BestErrorsExample()
    ensures var stack0 := [PE.Entry(0, PE.Sym("all")), PE.Entry(2, PE.OptionalTag), PE.Entry(2, PE.Sym("something"))];
      var stack1 := [PE.Entry(0, PE.Sym("all")), PE.Entry(3, PE.OptionalTag), PE.Entry(3, PE.Sym("something"))];
      var e1 := PE.SaveError(PE.Init, 4, stack0, PE.Sym("parse0"));
      var e2 := PE.SaveError(e1, 5, stack0, PE.Sym("parse1"));
      var e3 := PE.SaveError(e2, 5, stack1, PE.Sym("parse2"));
      PE.BestErrors(e3) == [[PE.Entry(3, PE.Sym("something")), PE.Entry(5, PE.Sym("parse2"))]]
  {
    var stack0 := [PE.Entry(0, PE.Sym("all")), PE.Entry(2, PE.OptionalTag), PE.Entry(2, PE.Sym("something"))];
    var stack1 := [PE.Entry(0, PE.Sym("all")), PE.Entry(3, PE.OptionalTag), PE.Entry(3, PE.Sym("something"))];
    var e1 := PE.SaveError(PE.Init, 4, stack0, PE.Sym("parse0"));
    var e2 := PE.SaveError(e1, 5, stack0, PE.Sym("parse1"));
    var e3 := PE.SaveError(e2, 5, stack1, PE.Sym("parse2"));
    assert Record(0, 2, "something", "parse1") == stack0 + [PE.Entry(5, PE.Sym("parse1"))];
    assert Record(0, 3, "something", "parse2") == stack1 + [PE.Entry(5, PE.Sym("parse2"))];
    assert e2.records == [Record(0, 2, "something", "parse1")];
    assert e3.records == [Record(0, 2, "something", "parse1"), Record(0, 3, "something", "parse2")];
    LaterOptionalWins(e3);
  }

  /** Of two records that differ only in where their optional frame began,
      best_errors keeps the later one, trimmed to its last two frames. */
  lemma LaterOptionalWins(e: PE.Errors)
    requires e.records == [Record(0, 2, "something", "parse1"), Record(0, 3, "something", "parse2")]
    ensures PE.BestErrors(e) == [[PE.Entry(3, PE.Sym("something")), PE.Entry(5, PE.Sym("parse2"))]]
  {
    LaterOptionalIndex(e);
    NonOptionalOfOne(0, 3, "something", "parse2");
    assert PE.Trim(e.records[1]) == [PE.Entry(3, PE.Sym("something")), PE.Entry(5, PE.Sym("parse2"))];
  }

  /** The index best_errors keeps for the two records above. */
  lemma LaterOptionalIndex(e: PE.Errors)
    requires e.records == [Record(0, 2, "something", "parse1"), Record(0, 3, "something", "parse2")]
    ensures PE.BestIndices(e) == [1]
  {
    OptionalStartsOfOne(0, 2, "something", "parse1");
    OptionalStartsOfOne(0, 3, "something", "parse2");
    assert PE.CompareOptional([3], [2]) == -1;
    assert PE.NextBest(e.records, 0, []) == [0];
    assert PE.NextBest(e.records, 1, [0]) == [1];
    assert PE.PickBest(e.records, 2, [1]) == [1];
    assert PE.PickBest(e.records, 1, [0]) == [1];
  }

  /** The shape of every record above: a rule frame, an optional frame, a
      rule frame and the failure. */
  function Record(a: nat, b: nat, name: string, failed: string): seq<PE.Entry> {
    [PE.Entry(a, PE.Sym("all")), PE.Entry(b, PE.OptionalTag), PE.Entry(b, PE.Sym(name)), PE.Entry(5, PE.Sym(failed))]
  }

  lemma OptionalStartsOfOne(a: nat, b: nat, name: string, failed: string)
    requires name != "optional" && failed != "optional"
    ensures PE.OptionalStarts(Record(a, b, name, failed)) == [b]
  {
    var r := Record(a, b, name, failed);
    assert r[1..][1..][1..][1..] == [];
    assert PE.OptionalStarts(r[1..][1..][1..]) == [];
    assert PE.OptionalStarts(r[1..][1..]) == [];
  }

  lemma NonOptionalOfOne(a: nat, b: nat, name: string, failed: string)
    requires name != "optional" && failed != "optional"
    ensures PE.NonOptional(Record(a, b, name, failed)) == [PE.Entry(a, PE.Sym("all")), PE.Entry(b, PE.Sym(name)), PE.Entry(5, PE.Sym(failed))]
  {
    var r := Record(a, b, name, failed);
    assert r[1..][1..][1..][1..] == [];
    assert PE.NonOptional(r[1..][1..][1..]) == [PE.Entry(5, PE.Sym(failed))];
    assert PE.NonOptional(r[1..][1..]) == [PE.Entry(b, PE.Sym(name)), PE.Entry(5, PE.Sym(failed))];
    assert PE.NonOptional(r[1..]) == PE.NonOptional(r[1..][1..]);
  }

  // ---------------------------------------------------------------------
  // Line counter: "abc\n  def\n" at 0, then "ef\n    ghi\n      jk" at 7
  // ---------------------------------------------------------------------

  /** The table after the first fragment: lines at 0, 4 and 10, the second
      indented by two. */
  const AfterFirst: LC.Table := LC.Lines([0, 4, 10], [0, 6, 10], 10)

  /** The table after the second fragment, which overlaps the first. */
  const AfterSecond: LC.Table := LC.Lines([0, 4, 10, 18], [0, 6, 14, 24], 26)

  /** `s` is "abc\n  def\n", byte by byte. */
  ghost predicate FirstText(s: string) {
    && |s| == 10
    && s[0] == 'a' && s[1] == 'b' && s[2] == 'c' && s[3] == '\n' && s[4] == ' '
    && s[5] == ' ' && s[6] == 'd' && s[7] == 'e' && s[8] == 'f' && s[9] == '\n'
  }

  // The tables the scan of each fragment passes through.
  const FirstLine1: LC.Table := LC.Lines([0, 4], [0, 4], 0)
  const FirstScanned: LC.Table := LC.Lines([0, 4, 10], [0, 6, 10], 0)

  /** "abc\n": line 1 starts at 4. */
  lemma FirstFragmentLine0(s: string)
    requires FirstText(s)
    ensures LC.Scan(LC.Init, 0, s, 0, 0) == LC.Scan(FirstLine1, 0, s, 4, 1)
  {
    LC.ScanPlain(LC.Init, 0, s, 0, 3, 0);
    assert LC.Step(LC.Init, 0, s[3], 3, 0) == FirstLine1;
  }

  /** Two blanks at the start of line 1, "def\n": line 2 starts at 10. */
  lemma FirstFragmentLine1(s: string)
    requires FirstText(s)
    ensures LC.Scan(FirstLine1, 0, s, 4, 1) == FirstScanned
  {
    var b: LC.Table := LC.Lines([0, 4], [0, 6], 0);
    LC.ScanBlanks(FirstLine1, 0, s, 4, 6, 1);
    assert FirstLine1.(noindent := FirstLine1.noindent[1 := 6]) == b;
    LC.ScanPlain(b, 0, s, 6, 9, 1);
    assert LC.Step(b, 0, s[9], 9, 1) == FirstScanned;
  }

  lemma FirstFragment(s: string)
    requires FirstText(s)
    ensures LC.Memo(LC.Init, 0, s) == Some(AfterFirst)
  {
    FirstFragmentLine0(s);
    FirstFragmentLine1(s);
    assert LC.Position(LC.Init, 0).0 == 0;
  }

  /** `s` is "ef\n    ghi\n      jk", byte by byte. */
  ghost predicate SecondText(s: string) {
    && |s| == 19
    && s[0] == 'e' && s[1] == 'f' && s[2] == '\n' && s[3] == ' ' && s[4] == ' '
    && s[5] == ' ' && s[6] == ' ' && s[7] == 'g' && s[8] == 'h' && s[9] == 'i'
    && s[10] == '\n' && s[11] == ' ' && s[12] == ' ' && s[13] == ' ' && s[14] == ' '
    && s[15] == ' ' && s[16] == ' ' && s[17] == 'j' && s[18] == 'k'
  }

  const SecondLine2: LC.Table := LC.Lines([0, 4, 10], [0, 6, 14], 10)
  const SecondScanned: LC.Table := LC.Lines([0, 4, 10, 18], [0, 6, 14, 24], 10)

  /** "ef\n": the newline at 9 ends line 1, whose successor is known. */
  lemma SecondFragmentLine1(s: string)
    requires SecondText(s)
    ensures LC.Scan(AfterFirst, 7, s, 0, 1) == LC.Scan(AfterFirst, 7, s, 3, 2)
  {
    LC.ScanPlain(AfterFirst, 7, s, 0, 2, 1);
    assert LC.Step(AfterFirst, 7, s[2], 2, 1) == AfterFirst;
  }

  /** Then four blanks at the start of line 2, "ghi". */
  lemma SecondFragmentLine2(s: string)
    requires SecondText(s)
    ensures LC.Scan(AfterFirst, 7, s, 0, 1) == LC.Scan(SecondLine2, 7, s, 10, 2)
  {
    SecondFragmentLine1(s);
    LC.ScanBlanks(AfterFirst, 7, s, 3, 7, 2);
    assert AfterFirst.(noindent := AfterFirst.noindent[2 := 14]) == SecondLine2;
    LC.ScanPlain(SecondLine2, 7, s, 7, 10, 2);
  }

  /** "\n", six blanks at the start of line 3, "jk". */
  lemma SecondFragmentLine3(s: string)
    requires SecondText(s)
    ensures LC.Scan(SecondLine2, 7, s, 10, 2) == SecondScanned
  {
    var e: LC.Table := LC.Lines([0, 4, 10, 18], [0, 6, 14, 18], 10);
    assert LC.Step(SecondLine2, 7, s[10], 10, 2) == e;
    LC.ScanBlanks(e, 7, s, 11, 17, 3);
    assert e.(noindent := e.noindent[3 := 24]) == SecondScanned;
    LC.ScanPlain(SecondScanned, 7, s, 17, 19, 3);
  }

  lemma SecondFragment(s: string)
    requires SecondText(s)
    ensures LC.Memo(AfterFirst, 7, s) == Some(AfterSecond)
  {
    SecondFragmentLine2(s);
    SecondFragmentLine3(s);
    assert LC.Position(AfterFirst, 7).0 == 1;
  }

  /** The positions and indents the repository's line counter test asks
      for, on the table both fragments build. */
  lemma ExampleQueries()
    ensures LC.Position(AfterSecond, 0) == (0, 0) && LC.Indent(AfterSecond, 0) == 0
    ensures LC.Position(AfterSecond, 3) == (0, 3) && LC.Position(AfterSecond, 4) == (1, 0)
    ensures LC.Indent(AfterSecond, 4) == 2
    ensures LC.Position(AfterSecond, 15) == (2, 5) && LC.Indent(AfterSecond, 15) == 4
    ensures LC.Indent(AfterSecond, 25) == 6
  {
  }

  lemma FirstTextOf(s: string)
    requires s == "abc\n  def\n"
    ensures FirstText(s)
  {
  }

  lemma SecondTextOf(s: string)
    requires s == "ef\n    ghi\n      jk"
    ensures SecondText(s)
  {
  }

  /** The repository's line counter test: feeding both fragments builds
      that table. */
  lemma LineCounterExample(first: string, second: string)
    requires first == "abc\n  def\n" && second == "ef\n    ghi\n      jk"
    ensures LC.Memo(LC.Init, 0, first) == Some(AfterFirst)
    ensures LC.Memo(AfterFirst, 7, second) == Some(AfterSecond)
  {
    FirstTextOf(first);
    FirstFragment(first);
    SecondTextOf(second);
    SecondFragment(second);
  }

  // ---------------------------------------------------------------------
  // Precedence chain: 1+2*3-4
  // ---------------------------------------------------------------------

  /** The level of `+` and `-` folds its operands `1`, `+ [*, 2, 3]` and
      `- 4` into the tree the repository's chain test expects. */
  lemma ChainFoldExample()
    ensures
      var product := BC.List([BC.Text("*"), BC.Text("2"), BC.Text("3")]);
      BC.Fold(BC.DefaultConstruct, BC.Text("1"), [(BC.Text("+"), product), (BC.Text("-"), BC.Text("4"))])
      == BC.List([BC.Text("-"), BC.List([BC.Text("+"), BC.Text("1"), product]), BC.Text("4")])
  {
    var product := BC.List([BC.Text("*"), BC.Text("2"), BC.Text("3")]);
    var operands := [(BC.Text("+"), product), (BC.Text("-"), BC.Text("4"))];
    assert operands[..1][..0] == [];
    assert BC.Fold(BC.DefaultConstruct, BC.Text("1"), operands[..1])
      == BC.List([BC.Text("+"), BC.Text("1"), product]);
  }
}
