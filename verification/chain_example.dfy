/** The repository's four-operation chain, end to end: `+ -` bind looser
    than `* /`, a single digit is the term, the spaces and comments are
    ParserBase's. On "1+2*3-4" the start rule returns
    `['-', ['+', '1', ['*', '2', '3']], '4']` and stops at the end. */
module ChainExample {
  import opened Wrappers
  import opened Scanner
  import opened ParserCore
  import PB = ParserBase
  import BC = BiopRuleChain
  import BA = BorrowedAreas
  import PE = ParserErrors

  // ---------------------------------------------------------------------
  // The grammar
  // ---------------------------------------------------------------------

  predicate IsDigit(ch: char) { '0' <= ch <= '9' }

  /** The term's pattern `/[0-9]/`. */
  const Digit: Pattern := Rx("[0-9]", ClassOne(IsDigit))

  /** block_comment as ParserBase defines it, as far as its first read:
      inside its rule frame it reads the opener, a slash and a star, and
      the rest of its body runs only once that read has succeeded. On a
      text without the opener this is the whole rule. */
  function BlockCommentStart(text: string): Parser<string> {
    s => Rule("block_comment", Reader(text, Lit("/*")), s)
  }

  function Comments(text: string): PB.Comments {
    PB.Comments(PB.DefaultLineComment(text), BlockCommentStart(text))
  }

  function Hooks(text: string, fuel: nat): BC.Hooks {
    BC.DefaultHooks(text, Comments(text), fuel)
  }

  /** `->{ parser.read(/[0-9]/) }`. */
  function DigitTerm(text: string): Parser<BC.Value> {
    s =>
      match Read(text, Digit, s)
      case Ok(v, s1) => Ok(BC.Text(v), s1)
      case Backtrack(s1) => Backtrack(s1)
      case Raised(s1) => Raised(s1)
  }

  const AddSub: BC.OperatorMatcher := BC.OneOf([BC.Token(Lit("+")), BC.Token(Lit("-"))])
  const MulDiv: BC.OperatorMatcher := BC.OneOf([BC.Token(Lit("*")), BC.Token(Lit("/"))])

  /** `left_op(['+', '-']).left_op(['*', '/']).term(digit)` on a chain
      with hooks `h`; the repository's chain has `Hooks`. */
  function Calc(text: string, h: BC.Hooks): BC.Chain {
    BC.SetTerm(BC.LeftOp(text, BC.LeftOp(text, BC.NewChain(h), AddSub), MulDiv), DigitTerm(text))
  }

  lemma CalcShape(text: string, h: BC.Hooks)
    ensures Calc(text, h).hooks == h
    ensures Calc(text, h).term == Some(DigitTerm(text))
    ensures Calc(text, h).operators == [BC.OperatorParser(text, h, AddSub), BC.OperatorParser(text, h, MulDiv)]
  {
    var c1 := BC.LeftOp(text, BC.NewChain(h), AddSub);
    var c2 := BC.LeftOp(text, c1, MulDiv);
    assert c2.operators[..1] == c1.operators;
  }

  /** Two levels, the hooks it was built with, and the digit term. */
  lemma CalcLevels(text: string, h: BC.Hooks)
    ensures |Calc(text, h).operators| == 2
    ensures Calc(text, h).hooks == h
    ensures Calc(text, h).term == Some(DigitTerm(text))
  {
  }

  /** "1+2*3-4", character by character. */
  ghost predicate ArithText(text: string) {
    && |text| == 7
    && text[0] == '1' && text[1] == '+' && text[2] == '2' && text[3] == '*'
    && text[4] == '3' && text[5] == '-' && text[6] == '4'
  }

  lemma ArithTextOf(text: string)
    requires text == "1+2*3-4"
    ensures ArithText(text)
  {
  }

  // ---------------------------------------------------------------------
  // States along the parse
  // ---------------------------------------------------------------------

  /** A valid state with no borrowed area: nothing here ever borrows. */
  ghost predicate Ready(text: string, s: State) {
    Valid(text, s) && s.areas == []
  }

  /** `t` is a state a call started at `s` may end in: ready, with the
      same rule stack and a frontier no nearer. */
  ghost predicate Follows(text: string, s: State, t: State) {
    Ready(text, t) && t.stack == s.stack && s.lines.farthest <= t.lines.farthest
  }

  lemma FollowsThen(text: string, s: State, t: State, u: State)
    requires Follows(text, s, t) && Follows(text, t, u)
    ensures Follows(text, s, u)
  {
  }

  /** No space piece can start at offset `p`. */
  ghost predicate Quiet(text: string, p: nat) {
    && MatchLen(PB.BlankRun, text, p).None?
    && MatchLen(PB.NewlineChar, text, p).None?
    && MatchLen(PB.HashComment, text, p).None?
    && MatchLen(Lit("/*"), text, p).None?
  }

  lemma QuietAt(text: string, p: nat)
    requires p < |text| ==> text[p] !in {' ', '\t', '\r', '\n', '#', '/'}
    ensures Quiet(text, p)
  {
    if p < |text| {
      assert !PB.IsNewline(text[p]);
    }
    assert MatchLen(PB.NewlineChar, text, p) == ClassOne(PB.IsNewline)(text, p);
  }

  /** The block comment keeps states valid and the stack as it was. */
  lemma CommentsWellBehaved(text: string)
    ensures PB.WellBehaved(text, Comments(text))
  {
    var block := BlockCommentStart(text);
    ReadKeeps(text, Lit("/*"));
    forall s: State
      ensures Valid(text, s) ==> Valid(text, block(s).st) && s.lines.farthest <= block(s).st.lines.farthest
      ensures block(s).st.stack == s.stack
    {
      var inner := Reader(text, Lit("/*"))(Push(s, PE.Sym("block_comment")));
      assert Valid(text, s) ==> Valid(text, Push(s, PE.Sym("block_comment")));
    }
    PB.DefaultLineCommentWellBehaved(text, block);
  }

  /** A block that backtracks without claiming an area, run through
      `optional`: nil, back at the offset it started from, still without
      areas. */
  lemma OptionalOfMiss<T>(p: Parser<Option<T>>, t: State)
    requires p(Entered(t)).Backtrack? && p(Entered(t)).st.areas == []
    ensures Optional(p, t).Ok? && Optional(p, t).value.None?
    ensures Optional(p, t).st.pos == t.pos && Optional(p, t).st.areas == []
    ensures Optional(p, t).st.lines == p(Entered(t)).st.lines
  {
    assert BA.Backtracked([], t.pos) == [];
  }

  /** A choice whose first alternative misses goes on with the rest. */
  lemma ChoiceSkipsMiss<T>(alts: seq<Parser<Option<T>>>, t: State)
    requires |alts| > 0 && alts[0](Entered(t)).Backtrack? && alts[0](Entered(t)).st.areas == []
    ensures Choice(alts, t) == Choice(alts[1..], Optional(alts[0], t).st)
    ensures Optional(alts[0], t).st.pos == t.pos && Optional(alts[0], t).st.areas == []
  {
    OptionalOfMiss(alts[0], t);
  }

  lemma ReadPieceMiss(text: string, pat: Pattern, t: State)
    requires MatchLen(pat, text, t.pos).None? && t.areas == []
    ensures Lift(Reader(text, pat))(Entered(t)).Backtrack?
    ensures Lift(Reader(text, pat))(Entered(t)).st.areas == []
  {
    assert Lift(Reader(text, pat))(Entered(t)) == Truthy(Read(text, pat, Entered(t)));
  }

  /** The blanks, the newline and the borrowed area all miss: the choice
      goes on with the comments from a state `t` at the same offset. */
  lemma FirstPiecesMiss(text: string, s: State) returns (t: State)
    requires s.areas == [] && Quiet(text, s.pos)
    ensures var alts := LiftAll(PB.SpaceAlternatives(text, Comments(text)));
      Choice(alts, s) == Choice(alts[3..], t)
    ensures t.pos == s.pos && t.areas == []
  {
    var a0 := LiftAll(PB.SpaceAlternatives(text, Comments(text)));
    assert a0[0] == Lift(Reader(text, PB.BlankRun));
    ReadPieceMiss(text, PB.BlankRun, s);
    ChoiceSkipsMiss(a0, s);
    var t1 := Optional(a0[0], s).st;
    var a1 := a0[1..];
    assert a1[0] == Lift(Reader(text, PB.NewlineChar));
    ReadPieceMiss(text, PB.NewlineChar, t1);
    ChoiceSkipsMiss(a1, t1);
    var t2 := Optional(a1[0], t1).st;
    var a2 := a1[1..];
    assert a2[0] == Lift(AreaReader(text));
    assert a2[0](Entered(t2)) == Truthy(BorrowedArea(text, Entered(t2)));
    ChoiceSkipsMiss(a2, t2);
    t := Optional(a2[0], t2).st;
    assert a2[1..] == a0[3..];
  }

  /** Both comments miss, and the choice backtracks. */
  lemma CommentPiecesMiss(text: string, t: State)
    requires t.areas == [] && Quiet(text, t.pos)
    ensures var alts := LiftAll(PB.SpaceAlternatives(text, Comments(text)))[3..];
      Choice(alts, t).Backtrack? && Choice(alts, t).st.areas == []
  {
    var a3 := LiftAll(PB.SpaceAlternatives(text, Comments(text)))[3..];
    assert a3[0] == Lift(PB.DefaultLineComment(text));
    ReadPieceMiss(text, PB.HashComment, t);
    ChoiceSkipsMiss(a3, t);
    var t4 := Optional(a3[0], t).st;
    var a4 := a3[1..];
    assert a4[0] == Lift(BlockCommentStart(text));
    var opener := Read(text, Lit("/*"), Push(Entered(t4), PE.Sym("block_comment")));
    assert a4[0](Entered(t4)) == Truthy(Rule("block_comment", Reader(text, Lit("/*")), Entered(t4)));
    assert opener.Backtrack? && opener.st.areas == [];
    ChoiceSkipsMiss(a4, t4);
    assert a4[1..] == [];
  }

  /** With no borrowed area, every space piece misses where none can start. */
  lemma SpacePieceMiss(text: string, s: State)
    requires s.areas == [] && Quiet(text, s.pos)
    ensures PB.SpacePiece(text, Comments(text), s).Backtrack?
    ensures PB.SpacePiece(text, Comments(text), s).st.areas == []
  {
    var alts := LiftAll(PB.SpaceAlternatives(text, Comments(text)));
    assert PB.SpacePiece(text, Comments(text), s) == Choice(alts, s);
    var t := FirstPiecesMiss(text, s);
    CommentPiecesMiss(text, t);
  }

  /** `sp` where no space piece can start: nil, and the offset stays. */
  lemma SpMiss(text: string, s: State, fuel: nat)
    requires Ready(text, s) && Quiet(text, s.pos)
    ensures var r := PB.Sp(text, Comments(text), s, fuel);
      r.Ok? && r.value.None? && r.st.pos == s.pos && Follows(text, s, r.st)
  {
    var c := Comments(text);
    CommentsWellBehaved(text);
    PB.SpKeeps(text, c, s, fuel);
    SpacePieceMiss(text, Entered(s));
    var piece := PB.SpacePiece(text, c, Entered(s));
    assert PB.SpaceStep(text, c)(Entered(s)) == Truthy(piece);
    var sp := PB.Space(text, c, Entered(s), fuel);
    assert sp.st == piece.st;
    assert PB.SpaceBody(text, c, fuel)(Entered(s)) == Truthy(sp);
    OptionalOfMiss(PB.SpaceBody(text, c, fuel), s);
  }

  /** Hooks whose spaces find nothing where no space piece can start (they
      succeed, leave the offset and keep the state ready) and whose
      construct is the default `[op, lhs, rhs]`. */
  ghost predicate QuietHooks(text: string, h: BC.Hooks) {
    && h.construct == BC.DefaultConstruct
    && (forall s {:trigger h.operatorSp(s)} :: Ready(text, s) && Quiet(text, s.pos) ==>
          h.operatorSp(s).Ok? && h.operatorSp(s).st.pos == s.pos && Follows(text, s, h.operatorSp(s).st))
    && (forall s {:trigger h.operandSp(s)} :: Ready(text, s) && Quiet(text, s.pos) ==>
          h.operandSp(s).Ok? && h.operandSp(s).st.pos == s.pos && Follows(text, s, h.operandSp(s).st))
  }

  /** The default hooks are such hooks. */
  lemma DefaultHooksQuiet(text: string, fuel: nat)
    ensures QuietHooks(text, Hooks(text, fuel))
  {
    var h := Hooks(text, fuel);
    forall s | Ready(text, s) && Quiet(text, s.pos)
      ensures h.operatorSp(s).Ok? && h.operatorSp(s).st.pos == s.pos && Follows(text, s, h.operatorSp(s).st)
      ensures h.operandSp(s).Ok? && h.operandSp(s).st.pos == s.pos && Follows(text, s, h.operandSp(s).st)
    {
      SpMiss(text, s, fuel);
    }
  }

  /** `read(lit)` from a ready state: the literal when it is there, a
      backtrack that leaves the offset otherwise. */
  lemma LitAt(text: string, lit: string, s: State)
    requires Ready(text, s)
    ensures var t := Read(text, Lit(lit), s);
      && Follows(text, s, t.st)
      && (StartsWithAt(text, s.pos, lit) ==> t.Ok? && t.value == lit && t.st.pos == s.pos + |lit|)
      && (!StartsWithAt(text, s.pos, lit) ==> t.Backtrack? && t.st.pos == s.pos)
  {
    ReadKeepsValid(text, Lit(lit), s);
    var t := Read(text, Lit(lit), s);
    if StartsWithAt(text, s.pos, lit) {
      assert MatchLen(Lit(lit), text, s.pos) == Some(|lit|);
      assert Accepts(text, Lit(lit), s);
      assert t.value == text[s.pos..s.pos + |lit|];
    }
  }

  /** A string operator where no space can start: the operator text when
      it is there, a backtrack that leaves the offset otherwise. */
  lemma TokenAt(text: string, h: BC.Hooks, lit: string, s: State)
    requires QuietHooks(text, h) && Ready(text, s) && Quiet(text, s.pos)
    ensures var r := BC.TokenOperator(text, h, Lit(lit), s);
      && Follows(text, s, r.st)
      && (StartsWithAt(text, s.pos, lit) ==> r.Ok? && r.value == BC.Text(lit) && r.st.pos == s.pos + |lit|)
      && (!StartsWithAt(text, s.pos, lit) ==> r.Backtrack? && r.st.pos == s.pos)
  {
    LitAt(text, lit, h.operatorSp(s).st);
  }

  /** `optional` around a block that succeeded from a ready state: the
      block's value and offset, with the `:optional` frame gone again. */
  lemma OptionalOfHit<T>(text: string, p: Parser<Option<T>>, s: State)
    requires Ready(text, s) && p(Entered(s)).Ok? && Follows(text, Entered(s), p(Entered(s)).st)
    ensures var o := Optional(p, s);
      o.Ok? && o.value == p(Entered(s)).value && o.st.pos == p(Entered(s)).st.pos && Follows(text, s, o.st)
  {
  }

  /** `optional` around a block that backtracked from a ready state: nil,
      back at the offset it started from. */
  lemma OptionalOfFollowingMiss<T>(text: string, p: Parser<Option<T>>, s: State)
    requires Ready(text, s) && p(Entered(s)).Backtrack? && Follows(text, Entered(s), p(Entered(s)).st)
    ensures var o := Optional(p, s);
      o.Ok? && o.value.None? && o.st.pos == s.pos && Follows(text, s, o.st)
  {
    OptionalOfMiss(p, s);
  }

  /** A block whose truthiness decides: same state, same outcome, and a
      value turned into an option. */
  lemma TestedOf(p: Parser<BC.Value>, t: State)
    ensures BC.Tested(p)(t).st == p(t).st
    ensures BC.Tested(p)(t).Backtrack? <==> p(t).Backtrack?
    ensures p(t).Ok? ==> BC.Tested(p)(t) == Ok(BC.AsOption(p(t).value), p(t).st)
  {
  }

  /** A choice among one block that yields a value: that value. */
  lemma ChoiceOfOneHit<T>(text: string, p: Parser<Option<T>>, s: State)
    requires Ready(text, s) && p(Entered(s)).Ok? && p(Entered(s)).value.Some?
    requires Follows(text, Entered(s), p(Entered(s)).st)
    ensures var r := Choice([p], s);
      r.Ok? && r.value == p(Entered(s)).value.value && r.st.pos == p(Entered(s)).st.pos && Follows(text, s, r.st)
  {
    OptionalOfHit(text, p, s);
  }

  /** A choice among one block that backtracks: a backtrack where it began. */
  lemma ChoiceOfOneMiss<T>(text: string, p: Parser<Option<T>>, s: State)
    requires Ready(text, s) && p(Entered(s)).Backtrack? && Follows(text, Entered(s), p(Entered(s)).st)
    ensures var r := Choice([p], s);
      r.Backtrack? && r.st.pos == s.pos && Follows(text, s, r.st)
  {
    OptionalOfFollowingMiss(text, p, s);
    assert [p][1..] == [];
  }

  /** The same operator tried as one element of an array, that is inside
      `optional`, when it is there: its text, past the operator. */
  lemma OptionalTokenHit(text: string, h: BC.Hooks, lit: string, s: State)
    requires QuietHooks(text, h) && Ready(text, s) && Quiet(text, s.pos) && StartsWithAt(text, s.pos, lit)
    ensures var o := Optional(BC.Tested(BC.OperatorParser(text, h, BC.Token(Lit(lit)))), s);
      o.Ok? && Follows(text, s, o.st) && o.value == Some(BC.Text(lit)) && o.st.pos == s.pos + |lit|
  {
    var op := BC.OperatorParser(text, h, BC.Token(Lit(lit)));
    TokenAt(text, h, lit, Entered(s));
    assert op(Entered(s)) == BC.TokenOperator(text, h, Lit(lit), Entered(s));
    TestedOf(op, Entered(s));
    OptionalOfHit(text, BC.Tested(op), s);
  }

  /** ... and when it is not: nil at the offset it started from. */
  lemma OptionalTokenMiss(text: string, h: BC.Hooks, lit: string, s: State)
    requires QuietHooks(text, h) && Ready(text, s) && Quiet(text, s.pos) && !StartsWithAt(text, s.pos, lit)
    ensures var o := Optional(BC.Tested(BC.OperatorParser(text, h, BC.Token(Lit(lit)))), s);
      o.Ok? && Follows(text, s, o.st) && o.value.None? && o.st.pos == s.pos
  {
    var op := BC.OperatorParser(text, h, BC.Token(Lit(lit)));
    TokenAt(text, h, lit, Entered(s));
    assert op(Entered(s)) == BC.TokenOperator(text, h, Lit(lit), Entered(s));
    TestedOf(op, Entered(s));
    OptionalOfFollowingMiss(text, BC.Tested(op), s);
  }

  /** An array of one string operator: it, else a backtrack at the
      offset it started from. */
  lemma SingleTokenAt(text: string, h: BC.Hooks, b: string, s: State)
    requires QuietHooks(text, h) && Ready(text, s) && Quiet(text, s.pos)
    ensures var r := BC.OperatorParser(text, h, BC.OneOf([BC.Token(Lit(b))]))(s);
      && Follows(text, s, r.st)
      && (StartsWithAt(text, s.pos, b) ==> r.Ok? && r.value == BC.Text(b) && r.st.pos == s.pos + |b|)
      && (!StartsWithAt(text, s.pos, b) ==> r.Backtrack? && r.st.pos == s.pos)
  {
    BC.ArrayMatcherIsOrderedChoice(text, h, [BC.Token(Lit(b))], s);
    if StartsWithAt(text, s.pos, b) {
      OptionalTokenHit(text, h, b, s);
    } else {
      OptionalTokenMiss(text, h, b, s);
      var s1 := Optional(BC.Tested(BC.OperatorParser(text, h, BC.Token(Lit(b)))), s).st;
      assert [BC.Token(Lit(b))][1..] == [];
      assert BC.OperatorParser(text, h, BC.OneOf([]))(s1) == Backtrack(s1);
    }
  }

  /** An array of two string operators: the first that is there, else a
      backtrack at the offset it started from. */
  lemma PairAt(text: string, h: BC.Hooks, a: string, b: string, s: State)
    requires QuietHooks(text, h) && Ready(text, s) && Quiet(text, s.pos)
    ensures var r := BC.OperatorParser(text, h, BC.OneOf([BC.Token(Lit(a)), BC.Token(Lit(b))]))(s);
      && Follows(text, s, r.st)
      && (StartsWithAt(text, s.pos, a) ==> r.Ok? && r.value == BC.Text(a) && r.st.pos == s.pos + |a|)
      && (!StartsWithAt(text, s.pos, a) && StartsWithAt(text, s.pos, b) ==>
            r.Ok? && r.value == BC.Text(b) && r.st.pos == s.pos + |b|)
      && (!StartsWithAt(text, s.pos, a) && !StartsWithAt(text, s.pos, b) ==> r.Backtrack? && r.st.pos == s.pos)
  {
    var alts := [BC.Token(Lit(a)), BC.Token(Lit(b))];
    BC.ArrayMatcherIsOrderedChoice(text, h, alts, s);
    if StartsWithAt(text, s.pos, a) {
      OptionalTokenHit(text, h, a, s);
    } else {
      OptionalTokenMiss(text, h, a, s);
      var s1 := Optional(BC.Tested(BC.OperatorParser(text, h, alts[0])), s).st;
      assert alts[1..] == [BC.Token(Lit(b))];
      SingleTokenAt(text, h, b, s1);
    }
  }

  // ---------------------------------------------------------------------
  // The chain, level by level
  // ---------------------------------------------------------------------

  /** The two operators of each level. */
  function Symbols(level: nat): (string, string) {
    if level == 0 then ("+", "-") else ("*", "/")
  }

  /** An operator of `level` starts at `p`. */
  predicate OperatorAt(text: string, level: nat, p: nat) {
    StartsWithAt(text, p, Symbols(level).0) || StartsWithAt(text, p, Symbols(level).1)
  }

  /** A one-character string found at `p` is the character there. */
  lemma OneChar(text: string, p: nat, a: string)
    requires |a| == 1 && StartsWithAt(text, p, a)
    ensures p < |text| && a == [text[p]]
  {
    assert a[0] == text[p..p + 1][0];
  }

  /** The character at `p` is an operator of `level`. */
  lemma OperatorCharAt(text: string, level: nat, p: nat)
    requires p < |text| && (text[p] == Symbols(level).0[0] || text[p] == Symbols(level).1[0])
    ensures OperatorAt(text, level, p)
  {
    assert |Symbols(level).0| == |Symbols(level).1| == 1;
    assert text[p..p + 1] == [text[p]];
  }

  /** No operator of `level` starts at `p`. */
  lemma NoOperatorAt(text: string, level: nat, p: nat)
    requires p < |text| ==> text[p] != Symbols(level).0[0] && text[p] != Symbols(level).1[0]
    ensures !OperatorAt(text, level, p)
  {
    if p < |text| {
      assert text[p..p + 1][0] == text[p];
    }
  }

  /** A level's operator array: the operator character when one is there,
      else a backtrack at the same offset. */
  lemma LevelAt(text: string, h: BC.Hooks, level: nat, s: State)
    requires QuietHooks(text, h) && level < 2 && Ready(text, s) && Quiet(text, s.pos)
    ensures var r := Calc(text, h).operators[level](s);
      && Follows(text, s, r.st)
      && (OperatorAt(text, level, s.pos) ==> r.Ok? && r.value == BC.Text([text[s.pos]]) && r.st.pos == s.pos + 1)
      && (!OperatorAt(text, level, s.pos) ==> r.Backtrack? && r.st.pos == s.pos)
  {
    CalcShape(text, h);
    var (a, b) := Symbols(level);
    assert Calc(text, h).operators[level] == BC.OperatorParser(text, h, BC.OneOf([BC.Token(Lit(a)), BC.Token(Lit(b))]));
    PairAt(text, h, a, b, s);
    if StartsWithAt(text, s.pos, a) {
      OneChar(text, s.pos, a);
    } else if StartsWithAt(text, s.pos, b) {
      OneChar(text, s.pos, b);
    }
  }

  /** `choice(*@operators[level])`, the first step of a round, where an
      operator of the level starts: that operator, one character on. */
  lemma OperatorChoiceHit(text: string, h: BC.Hooks, level: nat, s: State)
    requires QuietHooks(text, h) && level < 2 && Ready(text, s) && Quiet(text, s.pos) && OperatorAt(text, level, s.pos)
    ensures var r := Choice([BC.Tested(Calc(text, h).operators[level])], s);
      r.Ok? && r.value == BC.Text([text[s.pos]]) && r.st.pos == s.pos + 1 && Follows(text, s, r.st)
  {
    var op := Calc(text, h).operators[level];
    LevelAt(text, h, level, Entered(s));
    TestedOf(op, Entered(s));
    ChoiceOfOneHit(text, BC.Tested(op), s);
  }

  /** ... and where none starts: a backtrack at the same offset. */
  lemma OperatorChoiceMiss(text: string, h: BC.Hooks, level: nat, s: State)
    requires QuietHooks(text, h) && level < 2 && Ready(text, s) && Quiet(text, s.pos) && !OperatorAt(text, level, s.pos)
    ensures var r := Choice([BC.Tested(Calc(text, h).operators[level])], s);
      r.Backtrack? && r.st.pos == s.pos && Follows(text, s, r.st)
  {
    var op := Calc(text, h).operators[level];
    LevelAt(text, h, level, Entered(s));
    TestedOf(op, Entered(s));
    ChoiceOfOneMiss(text, BC.Tested(op), s);
  }

  /** A level's loop at an offset where none of its operators starts stops
      there with no operand. */
  lemma NoRounds(text: string, h: BC.Hooks, fuel: nat, level: nat, s: State, loops: nat)
    requires QuietHooks(text, h) && level < 2 && Ready(text, s) && Quiet(text, s.pos) && !OperatorAt(text, level, s.pos)
    ensures var r := ZeroOrMore(BC.OperandBlock(text, Calc(text, h), level, fuel), s, loops);
      r.Ok? && r.value == [] && r.st.pos == s.pos && Follows(text, s, r.st)
  {
    CalcLevels(text, h);
    var c := Calc(text, h);
    var p := BC.OperandBlock(text, c, level, fuel);
    if loops > 0 {
      OperatorChoiceMiss(text, h, level, Entered(s));
      assert p(Entered(s)) == BC.Operand(text, c, level, fuel, Entered(s));
      OptionalOfFollowingMiss(text, p, s);
    }
  }

  /** `read(/[0-9]/)` on a digit: that digit, one character on. */
  lemma DigitAt(text: string, s: State)
    requires Ready(text, s) && s.pos < |text| && IsDigit(text[s.pos])
    ensures var r := DigitTerm(text)(s);
      r.Ok? && r.value == BC.Text([text[s.pos]]) && r.st.pos == s.pos + 1 && Follows(text, s, r.st)
  {
    ReadKeepsValid(text, Digit, s);
    assert MatchLen(Digit, text, s.pos) == Some(1);
    assert Accepts(text, Digit, s);
    var t := Read(text, Digit, s);
    assert t.value == text[s.pos..s.pos + 1] == [text[s.pos]];
    assert DigitTerm(text)(s) == Ok(BC.Text(t.value), t.st);
  }

  /** The term: one digit. */
  lemma TermAt(text: string, h: BC.Hooks, fuel: nat, s: State)
    requires Ready(text, s) && s.pos < |text| && IsDigit(text[s.pos])
    ensures var r := BC.Match(text, Calc(text, h), 2, s, fuel);
      r.Ok? && r.value == BC.Text([text[s.pos]]) && r.st.pos == s.pos + 1 && Follows(text, s, r.st)
  {
    CalcLevels(text, h);
    DigitAt(text, s);
  }

  /** The first half of a round at an operator of the level, with no space
      after it: the operator, then the operand's space, which ends at `u`,
      one character on. */
  lemma OperatorThen(text: string, h: BC.Hooks, level: nat, s: State) returns (u: State)
    requires QuietHooks(text, h) && level < 2 && Ready(text, s) && Quiet(text, s.pos) && OperatorAt(text, level, s.pos)
    requires Quiet(text, s.pos + 1)
    ensures var op := Choice([BC.Tested(Calc(text, h).operators[level])], s);
      && op.Ok? && op.value == BC.Text([text[s.pos]])
      && Calc(text, h).hooks.operandSp(op.st) == Ok((), u)
    ensures u.pos == s.pos + 1 && Follows(text, s, u)
  {
    CalcLevels(text, h);
    OperatorChoiceHit(text, h, level, s);
    var op := Choice([BC.Tested(Calc(text, h).operators[level])], s);
    u := SpaceAfter(text, h, op.st);
  }

  /** A space hook where no space piece can start: `()`, at the same
      offset, in a state that follows. */
  lemma SpaceAfter(text: string, h: BC.Hooks, t: State) returns (u: State)
    requires QuietHooks(text, h) && Ready(text, t) && Quiet(text, t.pos)
    ensures h.operandSp(t) == Ok((), u) && u.pos == t.pos && Follows(text, t, u)
  {
    var r := h.operandSp(t);
    u := r.st;
    assert r.value == ();
  }

  /** A round of any chain's loop, as the loop runs it (inside
      `optional`): once its operator has matched and its operand space has
      ended at `u`, a matching operand one level down makes the round
      yield the operator with that operand. */
  lemma RoundThrough(text: string, c: BC.Chain, fuel: nat, level: nat, s: State, u: State)
    requires level < |c.operators| && Ready(text, s)
    requires var op := Choice([BC.Tested(c.operators[level])], Entered(s));
      op.Ok? && c.hooks.operandSp(op.st) == Ok((), u)
    requires var rhs := BC.Match(text, c, level + 1, u, fuel);
      rhs.Ok? && Follows(text, Entered(s), rhs.st)
    ensures var op := Choice([BC.Tested(c.operators[level])], Entered(s));
      var rhs := BC.Match(text, c, level + 1, u, fuel);
      var o := Optional(BC.OperandBlock(text, c, level, fuel), s);
      && o.Ok? && o.value == Some((op.value, rhs.value))
      && o.st.pos == rhs.st.pos && Follows(text, s, o.st)
  {
    var p := BC.OperandBlock(text, c, level, fuel);
    assert p(Entered(s)) == BC.Operand(text, c, level, fuel, Entered(s));
    OptionalOfHit(text, p, s);
  }

  /** A round of the level's loop at one of its operators, with no space
      after it: the operand starts at `u`, one character on, and when it
      matches at the level `below` this one, the round yields the operator
      with it. (`below` is `level + 1`, passed as a literal so that the
      callers' `Match` terms are the same terms.) */
  lemma RoundAt(text: string, h: BC.Hooks, fuel: nat, level: nat, below: nat, s: State) returns (u: State)
    requires QuietHooks(text, h) && level < 2 && below == level + 1
    requires Ready(text, s) && Quiet(text, s.pos) && OperatorAt(text, level, s.pos) && Quiet(text, s.pos + 1)
    ensures u.pos == s.pos + 1 && Follows(text, Entered(s), u)
    ensures var rhs := BC.Match(text, Calc(text, h), below, u, fuel);
      var o := Optional(BC.OperandBlock(text, Calc(text, h), level, fuel), s);
      rhs.Ok? && Follows(text, u, rhs.st) ==>
        && o.Ok? && o.value == Some((BC.Text([text[s.pos]]), rhs.value))
        && o.st.pos == rhs.st.pos && Follows(text, s, o.st)
  {
    CalcLevels(text, h);
    u := OperatorThen(text, h, level, Entered(s));
    var rhs := BC.Match(text, Calc(text, h), below, u, fuel);
    if rhs.Ok? && Follows(text, u, rhs.st) {
      RoundThrough(text, Calc(text, h), fuel, level, s, u);
    }
  }

  /** A level of any chain whose lhs matched and whose loop ended: the
      rounds folded onto the lhs, where the loop ended. */
  lemma MatchFold(text: string, c: BC.Chain, fuel: nat, level: nat, below: nat, s: State)
    requires below == level + 1 && level < |c.operators| && BC.Match(text, c, below, s, fuel).Ok?
    ensures var lhs := BC.Match(text, c, below, s, fuel);
      var rounds := ZeroOrMore(BC.OperandBlock(text, c, level, fuel), lhs.st, fuel);
      rounds.Ok? ==> BC.Match(text, c, level, s, fuel) == Ok(BC.Fold(c.hooks.construct, lhs.value, rounds.value), rounds.st)
  {
  }

  /** A loop whose first round yields `v` and whose remaining `more`
      rounds stop at once: `v` alone, where they stopped. */
  lemma OnceThenStop<T>(p: Parser<Option<T>>, s: State, loops: nat, more: nat, v: T)
    requires loops == more + 1 && Optional(p, s) == Ok(Some(v), Optional(p, s).st)
    requires ZeroOrMore(p, Optional(p, s).st, more) == Ok([], ZeroOrMore(p, Optional(p, s).st, more).st)
    ensures ZeroOrMore(p, s, loops) == Ok([v], ZeroOrMore(p, Optional(p, s).st, more).st)
  {
    ZeroOrMoreInMatchOrder(p, s, loops);
    assert [v] + [] == [v];
  }

  /** A loop whose first round yields `v` and whose remaining `more`
      rounds yield `vs`: `v` before `vs`, where the remaining rounds ended. */
  lemma RoundThenRest<T>(p: Parser<Option<T>>, s: State, loops: nat, more: nat, v: T, vs: seq<T>)
    requires loops == more + 1 && Optional(p, s) == Ok(Some(v), Optional(p, s).st)
    requires ZeroOrMore(p, Optional(p, s).st, more) == Ok(vs, ZeroOrMore(p, Optional(p, s).st, more).st)
    ensures ZeroOrMore(p, s, loops) == Ok([v] + vs, ZeroOrMore(p, Optional(p, s).st, more).st)
  {
    ZeroOrMoreInMatchOrder(p, s, loops);
  }

  lemma TwoValues<T>(v: T, vs: seq<T>)
    requires |vs| == 1
    ensures [v] + vs == [v, vs[0]]
  {
  }

  /** A digit with no operator of level 1 after it: level 1 yields it. */
  lemma SingleAt(text: string, h: BC.Hooks, fuel: nat, s: State)
    requires QuietHooks(text, h) && Ready(text, s) && s.pos < |text| && IsDigit(text[s.pos])
    requires Quiet(text, s.pos + 1) && !OperatorAt(text, 1, s.pos + 1)
    ensures var r := BC.Match(text, Calc(text, h), 1, s, fuel);
      r.Ok? && r.value == BC.Text([text[s.pos]]) && r.st.pos == s.pos + 1 && Follows(text, s, r.st)
  {
    CalcLevels(text, h);
    TermAt(text, h, fuel, s);
    var lhs := BC.Match(text, Calc(text, h), 2, s, fuel);
    NoRounds(text, h, fuel, 1, lhs.st, fuel);
    MatchFold(text, Calc(text, h), fuel, 1, 2, s);
  }

  // ---------------------------------------------------------------------
  // "1+2*3-4"
  // ---------------------------------------------------------------------

  /** The product's round from offset 3: `* 3`. */
  lemma ProductRound(text: string, h: BC.Hooks, fuel: nat, s: State)
    requires QuietHooks(text, h) && ArithText(text) && Ready(text, s) && s.pos == 3
    ensures var o := Optional(BC.OperandBlock(text, Calc(text, h), 1, fuel), s);
      o.Ok? && o.value == Some((BC.Text("*"), BC.Text("3"))) && o.st.pos == 5 && Follows(text, s, o.st)
  {
    CalcLevels(text, h);
    QuietAt(text, 3);
    QuietAt(text, 4);
    OperatorCharAt(text, 1, 3);
    var u := RoundAt(text, h, fuel, 1, 2, s);
    TermAt(text, h, fuel, u);
  }

  /** The product's loop from offset 3: that round, and a stop at the `-`. */
  lemma ProductRounds(text: string, h: BC.Hooks, fuel: nat, s: State, loops: nat)
    requires QuietHooks(text, h) && ArithText(text) && loops >= 1 && Ready(text, s) && s.pos == 3
    ensures var r := ZeroOrMore(BC.OperandBlock(text, Calc(text, h), 1, fuel), s, loops);
      r.Ok? && r.value == [(BC.Text("*"), BC.Text("3"))] && r.st.pos == 5 && Follows(text, s, r.st)
  {
    CalcLevels(text, h);
    var p := BC.OperandBlock(text, Calc(text, h), 1, fuel);
    ProductRound(text, h, fuel, s);
    var o := Optional(p, s);
    var t := o.st;
    var more: nat := loops - 1;
    QuietAt(text, 5);
    NoOperatorAt(text, 1, 5);
    NoRounds(text, h, fuel, 1, t, more);
    OnceThenStop(p, s, loops, more, o.value.value);
    FollowsThen(text, s, t, ZeroOrMore(p, t, more).st);
  }

  /** The product "2*3" at offset 2: `['*', '2', '3']`, ending at the `-`. */
  lemma ProductAt(text: string, h: BC.Hooks, fuel: nat, s: State)
    requires QuietHooks(text, h) && ArithText(text) && fuel >= 1 && Ready(text, s) && s.pos == 2
    ensures var r := BC.Match(text, Calc(text, h), 1, s, fuel);
      && r.Ok? && r.value == BC.List([BC.Text("*"), BC.Text("2"), BC.Text("3")])
      && r.st.pos == 5 && Follows(text, s, r.st)
  {
    CalcLevels(text, h);
    TermAt(text, h, fuel, s);
    var lhs := BC.Match(text, Calc(text, h), 2, s, fuel);
    ProductRounds(text, h, fuel, lhs.st, fuel);
    MatchFold(text, Calc(text, h), fuel, 1, 2, s);
  }

  /** The sum's round from offset 5: `- 4`, up to the end. */
  lemma SumLastRound(text: string, h: BC.Hooks, fuel: nat, s: State)
    requires QuietHooks(text, h) && ArithText(text) && Ready(text, s) && s.pos == 5
    ensures var o := Optional(BC.OperandBlock(text, Calc(text, h), 0, fuel), s);
      o.Ok? && o.value == Some((BC.Text("-"), BC.Text("4"))) && o.st.pos == 7 && Follows(text, s, o.st)
  {
    CalcLevels(text, h);
    QuietAt(text, 5);
    QuietAt(text, 6);
    QuietAt(text, 7);
    OperatorCharAt(text, 0, 5);
    NoOperatorAt(text, 1, 7);
    var u := RoundAt(text, h, fuel, 0, 1, s);
    SingleAt(text, h, fuel, u);
  }

  /** The sum's loop from offset 5: that round, and a stop at the end. */
  lemma SumLastRounds(text: string, h: BC.Hooks, fuel: nat, s: State, loops: nat)
    requires QuietHooks(text, h) && ArithText(text) && loops >= 1 && Ready(text, s) && s.pos == 5
    ensures var r := ZeroOrMore(BC.OperandBlock(text, Calc(text, h), 0, fuel), s, loops);
      r.Ok? && r.value == [(BC.Text("-"), BC.Text("4"))] && r.st.pos == 7 && Follows(text, s, r.st)
  {
    CalcLevels(text, h);
    var p := BC.OperandBlock(text, Calc(text, h), 0, fuel);
    SumLastRound(text, h, fuel, s);
    var o := Optional(p, s);
    var t := o.st;
    var more: nat := loops - 1;
    QuietAt(text, 7);
    NoOperatorAt(text, 0, 7);
    NoRounds(text, h, fuel, 0, t, more);
    OnceThenStop(p, s, loops, more, o.value.value);
    FollowsThen(text, s, t, ZeroOrMore(p, t, more).st);
  }

  /** The sum's first round from offset 1: `+ 2*3`, ending at the `-`. */
  lemma SumFirstRound(text: string, h: BC.Hooks, fuel: nat, s: State)
    requires QuietHooks(text, h) && ArithText(text) && fuel >= 1 && Ready(text, s) && s.pos == 1
    ensures var o := Optional(BC.OperandBlock(text, Calc(text, h), 0, fuel), s);
      && o.Ok? && o.value == Some((BC.Text("+"), BC.List([BC.Text("*"), BC.Text("2"), BC.Text("3")])))
      && o.st.pos == 5 && Follows(text, s, o.st)
  {
    CalcLevels(text, h);
    QuietAt(text, 1);
    QuietAt(text, 2);
    OperatorCharAt(text, 0, 1);
    var u := RoundAt(text, h, fuel, 0, 1, s);
    ProductAt(text, h, fuel, u);
  }

  /** The sum's loop from offset 1: `+ 2*3`, then `- 4`, then the end. */
  lemma SumRounds(text: string, h: BC.Hooks, fuel: nat, s: State)
    requires QuietHooks(text, h) && ArithText(text) && fuel >= 2 && Ready(text, s) && s.pos == 1
    ensures var r := ZeroOrMore(BC.OperandBlock(text, Calc(text, h), 0, fuel), s, fuel);
      && r.Ok? && r.st.pos == 7 && Follows(text, s, r.st)
      && r.value == [(BC.Text("+"), BC.List([BC.Text("*"), BC.Text("2"), BC.Text("3")])), (BC.Text("-"), BC.Text("4"))]
  {
    CalcLevels(text, h);
    var p := BC.OperandBlock(text, Calc(text, h), 0, fuel);
    SumFirstRound(text, h, fuel, s);
    var o := Optional(p, s);
    var t := o.st;
    var l: nat := fuel - 1;
    SumLastRounds(text, h, fuel, t, l);
    var rest := ZeroOrMore(p, t, l);
    RoundThenRest(p, s, fuel, l, o.value.value, rest.value);
    FollowsThen(text, s, t, rest.st);
    TwoValues(o.value.value, rest.value);
  }

  /** The tree the repository's chain test expects for "1+2*3-4". */
  const Expected: BC.Value :=
    BC.List([BC.Text("-"), BC.List([BC.Text("+"), BC.Text("1"), BC.List([BC.Text("*"), BC.Text("2"), BC.Text("3")])]), BC.Text("4")])

  /** Two rounds fold to the left: the first round's node is the second's
      left operand. */
  lemma FoldTwo(lhs: BC.Value, a: (BC.Value, BC.Value), b: (BC.Value, BC.Value))
    ensures BC.Fold(BC.DefaultConstruct, lhs, [a, b]) == BC.List([b.0, BC.List([a.0, lhs, a.1]), b.1])
  {
    var f := BC.DefaultConstruct;
    assert [a, b][..1] == [a];
    assert [a][..0] == [];
    assert BC.Fold(f, lhs, [a]) == f(BC.Fold(f, lhs, []), a.0, a.1);
    assert BC.Fold(f, lhs, [a, b]) == f(BC.Fold(f, lhs, [a]), b.0, b.1);
  }

  /** The leading digit: level 1 yields "1" and stops before the `+`. */
  lemma LeadAt(text: string, h: BC.Hooks, fuel: nat, s: State)
    requires QuietHooks(text, h) && ArithText(text) && Ready(text, s) && s.pos == 0
    ensures var r := BC.Match(text, Calc(text, h), 1, s, fuel);
      r.Ok? && r.value == BC.Text("1") && r.st.pos == 1 && Follows(text, s, r.st)
  {
    QuietAt(text, 1);
    NoOperatorAt(text, 1, 1);
    SingleAt(text, h, fuel, s);
  }

  /** Level 0 from the start of the text: the whole expression. */
  lemma SumAt(text: string, h: BC.Hooks, fuel: nat, s: State)
    requires QuietHooks(text, h) && ArithText(text) && fuel >= 2 && Ready(text, s) && s.pos == 0
    ensures var r := BC.Match(text, Calc(text, h), 0, s, fuel);
      r.Ok? && r.value == Expected && r.st.pos == 7 && Follows(text, s, r.st)
  {
    CalcLevels(text, h);
    LeadAt(text, h, fuel, s);
    var lhs := BC.Match(text, Calc(text, h), 1, s, fuel);
    var t := lhs.st;
    SumRounds(text, h, fuel, t);
    var rounds := ZeroOrMore(BC.OperandBlock(text, Calc(text, h), 0, fuel), t, fuel);
    MatchFold(text, Calc(text, h), fuel, 0, 1, s);
    FollowsThen(text, s, t, rounds.st);
    FoldTwo(lhs.value, rounds.value[0], rounds.value[1]);
  }

  /** The start rule, as the parser is handed it. */
  function StartOf(text: string, h: BC.Hooks, fuel: nat): Parser<BC.Value> {
    s => BC.StartRule(text, Calc(text, h), s, fuel)
  }

  /** Parsing the whole text from a fresh state under any quiet hooks. */
  lemma ParseAt(text: string, h: BC.Hooks, fuel: nat)
    requires QuietHooks(text, h) && ArithText(text) && fuel >= 2
    ensures var r := Parse(text, StartOf(text, h, fuel), Fresh);
      r.Ok? && r.value == Some(Expected) && r.st.pos == |text| && r.st.errors == PE.Init
  {
    var s := Fresh;
    assert Ready(text, s);
    SumAt(text, h, fuel, s);
    var out := BC.StartRule(text, Calc(text, h), s, fuel);
    assert StartOf(text, h, fuel)(s) == out;
    assert Eos(text, out.st);
  }

  /** The chain test's expectation: parsing "1+2*3-4" with the default
      hooks yields `['-', ['+', '1', ['*', '2', '3']], '4']`, consumes the
      whole text, and leaves no error behind. */
  lemma ArithExample(text: string, fuel: nat)
    requires text == "1+2*3-4" && fuel >= 2
    ensures var r := Parse(text, StartOf(text, Hooks(text, fuel), fuel), Fresh);
      r.Ok? && r.value == Some(Expected) && r.st.pos == |text| && r.st.errors == PE.Init
  {
    ArithTextOf(text);
    DefaultHooksQuiet(text, fuel);
    ParseAt(text, Hooks(text, fuel), fuel);
  }
}
