/** Binary-operator precedence chains (Pegparse::BiopRuleChain): operators
    registered from the loosest to the tightest level, each level a
    left-associative fold over `operand (op operand)*`. */
module BiopRuleChain {
  import opened Wrappers
  import opened Scanner
  import opened ParserCore
  import ParserBase

  /** The Ruby values the chain handles: nil, strings (what `read` returns)
      and arrays (what the default construction builds). */
  datatype Value = Nil | Text(s: string) | List(items: seq<Value>)

  /** Ruby truthiness: only nil is false here. */
  function AsOption(v: Value): (o: Option<Value>)
    ensures o.None? <==> v.Nil?
    ensures o.Some? ==> o.value == v
  {
    if v.Nil? then None else Some(v)
  }

  /** A block used where its truthiness decides (`choice`, loops). */
  function Tested(p: Parser<Value>): Parser<Option<Value>> {
    s =>
      match p(s)
      case Ok(v, s1) => Ok(AsOption(v), s1)
      case Backtrack(s1) => Backtrack(s1)
      case Raised(s1) => Raised(s1)
  }

  /** The methods a chain class may override: the spaces before an
      operator and before an operand, and the node construction. */
  datatype Hooks = Hooks(operatorSp: Parser<()>, operandSp: Parser<()>,
                         construct: (Value, Value, Value) -> Value)

  /** construct_result as BiopRuleChain defines it: `[op, lhs, rhs]`, a
      node that reads back as lhs, op, rhs and nests one level deeper on
      the left. */
  function DefaultConstruct(lhs: Value, op: Value, rhs: Value): (r: Value)
    ensures Infix(r) == Infix(lhs) + [op] + Infix(rhs)
    ensures LeftDepth(r) == LeftDepth(lhs) + 1
  {
    List([op, lhs, rhs])
  }

  /** `sp` with its value dropped, the default for both space hooks. */
  function DefaultSp(text: string, c: ParserBase.Comments, fuel: nat): Parser<()> {
    s =>
      match ParserBase.Sp(text, c, s, fuel)
      case Ok(_, s1) => Ok((), s1)
      case Backtrack(s1) => Backtrack(s1)
      case Raised(s1) => Raised(s1)
  }

  function DefaultHooks(text: string, c: ParserBase.Comments, fuel: nat): Hooks {
    Hooks(DefaultSp(text, c, fuel), DefaultSp(text, c, fuel), DefaultConstruct)
  }

  /** What left_op accepts: an array of alternatives, a proc, or a string
      or regexp. */
  datatype OperatorMatcher =
    | OneOf(alternatives: seq<OperatorMatcher>)
    | Proc(p: Parser<Value>)
    | Token(pat: Pattern)

  /** get_operator_matcher: an array becomes a choice among its converted
      elements, a proc is used as it is, a pattern becomes
      `operator_sp; read(pattern)`. */
  function OperatorParser(text: string, h: Hooks, m: OperatorMatcher): (r: Parser<Value>)
    ensures m.Proc? ==> r == m.p
    ensures m.Token? ==> forall s :: r(s) == TokenOperator(text, h, m.pat, s)
    ensures m.OneOf? && |m.alternatives| == 0 ==> forall s :: r(s) == Backtrack(s)
    decreases m
  {
    match m
    case OneOf(alts) =>
      var ps := seq(|alts|, i requires 0 <= i < |alts| => Tested(OperatorParser(text, h, alts[i])));
      s => Choice(ps, s)
    case Proc(p) => p
    case Token(pat) => s => TokenOperator(text, h, pat, s)
  }

  function TokenOperator(text: string, h: Hooks, pat: Pattern, s: State): (r: Res<Value>)
    ensures h.operatorSp(s).Ok? ==>
      var t := Read(text, pat, h.operatorSp(s).st);
      (r.Ok? <==> t.Ok?) && r.st == t.st && (r.Ok? ==> r.value == Text(t.value))
    ensures !h.operatorSp(s).Ok? ==> !r.Ok? && r.st == h.operatorSp(s).st
  {
    match h.operatorSp(s)
    case Ok(_, s1) =>
      (match Read(text, pat, s1)
       case Ok(op, s2) => Ok(Text(op), s2)
       case Backtrack(s2) => Backtrack(s2)
       case Raised(s2) => Raised(s2))
    case Backtrack(s1) => Backtrack(s1)
    case Raised(s1) => Raised(s1)
  }

  /** An array of matchers is an ordered choice, element by element: the
      first element's non-nil value wins; when it yields nil or backtracks,
      the rest of the array is tried from the state its rollback left; an
      exception in it propagates. */
  lemma ArrayMatcherIsOrderedChoice(text: string, h: Hooks, alts: seq<OperatorMatcher>, s: State)
    requires |alts| > 0
    ensures var first := Optional(Tested(OperatorParser(text, h, alts[0])), s);
      var r := OperatorParser(text, h, OneOf(alts))(s);
      && (first.Ok? && first.value.Some? ==> r == Ok(first.value.value, first.st))
      && (first.Ok? && first.value.None? ==> r == OperatorParser(text, h, OneOf(alts[1..]))(first.st))
      && (first.Raised? ==> r.Raised?)
  {
    var ps := seq(|alts|, i requires 0 <= i < |alts| => Tested(OperatorParser(text, h, alts[i])));
    var r := OperatorParser(text, h, OneOf(alts))(s);
    assert r == Choice(ps, s);
    var first := Optional(ps[0], s);
    if first.Ok? && first.value.None? {
      var rest := alts[1..];
      var qs := seq(|rest|, i requires 0 <= i < |rest| => Tested(OperatorParser(text, h, rest[i])));
      TestedTail(text, h, alts, ps, qs);
      assert r == Choice(qs, first.st);
      assert OperatorParser(text, h, OneOf(rest))(first.st) == Choice(qs, first.st);
    }
  }

  /** The parsers built for an array, less the first, are the parsers
      built for the rest of the array. */
  lemma TestedTail(text: string, h: Hooks, alts: seq<OperatorMatcher>, ps: seq<Parser<Option<Value>>>, qs: seq<Parser<Option<Value>>>)
    requires |alts| > 0
    requires ps == seq(|alts|, i requires 0 <= i < |alts| => Tested(OperatorParser(text, h, alts[i])))
    requires qs == seq(|alts| - 1, i requires 0 <= i < |alts| - 1 => Tested(OperatorParser(text, h, alts[1..][i])))
    ensures ps[1..] == qs
  {
    forall i | 0 <= i < |qs| ensures ps[1..][i] == qs[i] {
      assert alts[1..][i] == alts[i + 1];
    }
  }

  /** A chain: the operator levels in the order left_op registered them,
      the term (unset until `term` is called) and the hooks. */
  datatype Chain = Chain(operators: seq<Parser<Value>>, term: Option<Parser<Value>>, hooks: Hooks)

  /** A new chain object: no operators and no term. */
  function NewChain(h: Hooks): (c: Chain)
    ensures |c.operators| == 0 && c.term.None? && c.hooks == h
  {
    Chain([], None, h)
  }

  /** left_op: add a level binding tighter than every level so far. */
  function LeftOp(text: string, c: Chain, m: OperatorMatcher): (r: Chain)
    ensures |r.operators| == |c.operators| + 1
    ensures r.operators[..|c.operators|] == c.operators
    ensures r.operators[|c.operators|] == OperatorParser(text, c.hooks, m)
    ensures r.term == c.term && r.hooks == c.hooks
  {
    c.(operators := c.operators + [OperatorParser(text, c.hooks, m)])
  }

  /** term: set the terminal rule. */
  function SetTerm(c: Chain, t: Parser<Value>): (r: Chain)
    ensures r.term == Some(t) && r.operators == c.operators && r.hooks == c.hooks
  {
    c.(term := Some(t))
  }

  /** `inject` with construct_result: combine the operands left to right. */
  function Fold(construct: (Value, Value, Value) -> Value, lhs: Value, operands: seq<(Value, Value)>): Value
    decreases |operands|
  {
    if |operands| == 0 then lhs
    else
      var last := operands[|operands| - 1];
      construct(Fold(construct, lhs, operands[..|operands| - 1]), last.0, last.1)
  }

  /** The term, or NoMethodError on nil when none was set. */
  function Term(c: Chain, s: State): (r: Res<Value>)
    ensures c.term.None? ==> r == Raised(s)
    ensures c.term.Some? ==> r == c.term.value(s)
  {
    match c.term
    case None => Raised(s)
    case Some(t) => t(s)
  }

  /** One round of the level's loop: `op = choice(operator); operand_sp;
      rhs = match(level + 1)`, yielding the pair. */
  function Operand(text: string, c: Chain, level: nat, fuel: nat, s: State): (r: Res<Option<(Value, Value)>>)
    requires level < |c.operators|
    ensures r.Ok? ==> r.value.Some?
    ensures !Choice([Tested(c.operators[level])], s).Ok? ==>
      !r.Ok? && r.st == Choice([Tested(c.operators[level])], s).st
      && (r.Backtrack? <==> Choice([Tested(c.operators[level])], s).Backtrack?)
    ensures r.Ok? ==>
      Choice([Tested(c.operators[level])], s).Ok? && c.hooks.operandSp(Choice([Tested(c.operators[level])], s).st).Ok?
    ensures var op := Choice([Tested(c.operators[level])], s);
      op.Ok? && c.hooks.operandSp(op.st).Ok? ==>
      var rhs := Match(text, c, level + 1, c.hooks.operandSp(op.st).st, fuel);
      && (r.Ok? <==> rhs.Ok?)
      && (rhs.Ok? ==> r.value == Some((op.value, rhs.value)) && r.st == rhs.st)
    decreases |c.operators| - level, 0
  {
    match Choice([Tested(c.operators[level])], s)
    case Ok(op, s1) =>
      (match c.hooks.operandSp(s1)
       case Ok(_, s2) =>
         (match Match(text, c, level + 1, s2, fuel)
          case Ok(rhs, s3) => Ok(Some((op, rhs)), s3)
          case Backtrack(s3) => Backtrack(s3)
          case Raised(s3) => Raised(s3))
       case Backtrack(s2) => Backtrack(s2)
       case Raised(s2) => Raised(s2))
    case Backtrack(s1) => Backtrack(s1)
    case Raised(s1) => Raised(s1)
  }

  /** The level's round as a loop body. */
  function OperandBlock(text: string, c: Chain, level: nat, fuel: nat): Parser<Option<(Value, Value)>>
    requires level < |c.operators|
    decreases |c.operators| - level, 1
  {
    s0 => Operand(text, c, level, fuel, s0)
  }

  /** match(level): the term when every level is used up; otherwise an
      operand of the next level followed by any number of `op operand`
      rounds, folded to the left. Each loop runs at most `fuel` rounds. */
  function Match(text: string, c: Chain, level: nat, s: State, fuel: nat): (r: Res<Value>)
    ensures level >= |c.operators| ==> r == Term(c, s)
    ensures level < |c.operators| ==>
      var lhs := Match(text, c, level + 1, s, fuel);
      (r.Backtrack? <==> lhs.Backtrack?) && (lhs.Backtrack? ==> r.st == lhs.st)
    ensures level < |c.operators| && r.Ok? ==> Match(text, c, level + 1, s, fuel).Ok?
    ensures level < |c.operators| && Match(text, c, level + 1, s, fuel).Ok? ==>
      var lhs := Match(text, c, level + 1, s, fuel);
      var rounds := ZeroOrMore(OperandBlock(text, c, level, fuel), lhs.st, fuel);
      && (r.Ok? <==> rounds.Ok?)
      && (rounds.Ok? ==> r.value == Fold(c.hooks.construct, lhs.value, rounds.value) && r.st == rounds.st)
    decreases |c.operators| - level, 2
  {
    if level >= |c.operators| then Term(c, s)
    else
      match Match(text, c, level + 1, s, fuel)
      case Ok(lhs, s1) =>
        (match ZeroOrMore(OperandBlock(text, c, level, fuel), s1, fuel)
         case Ok(operands, s2) => Ok(Fold(c.hooks.construct, lhs, operands), s2)
         case Backtrack(s2) => Backtrack(s2)
         case Raised(s2) => Raised(s2))
      case Backtrack(s1) => Backtrack(s1)
      case Raised(s1) => Raised(s1)
  }

  /** start_rule: the loosest level. */
  function StartRule(text: string, c: Chain, s: State, fuel: nat): (r: Res<Value>)
    ensures |c.operators| == 0 ==> r == Term(c, s)
  {
    Match(text, c, 0, s, fuel)
  }

  // ---------------------------------------------------------------------
  // Properties
  // ---------------------------------------------------------------------

  /** A whole expression fails exactly when its first term fails: the
      operator loops never backtrack. */
  lemma {:induction false} MatchBacktracksIffTermDoes(text: string, c: Chain, level: nat, s: State, fuel: nat)
    ensures Match(text, c, level, s, fuel).Backtrack? <==> Term(c, s).Backtrack?
    ensures Term(c, s).Backtrack? ==> Match(text, c, level, s, fuel).st == Term(c, s).st
    decreases |c.operators| - level
  {
    if level < |c.operators| {
      MatchBacktracksIffTermDoes(text, c, level + 1, s, fuel);
    }
  }

  /** Folding is a left fold: the operands can be consumed in two parts. */
  lemma {:induction false} FoldAppend(construct: (Value, Value, Value) -> Value, lhs: Value,
                                      a: seq<(Value, Value)>, b: seq<(Value, Value)>)
    ensures Fold(construct, lhs, a + b) == Fold(construct, Fold(construct, lhs, a), b)
    decreases |b|
  {
    if |b| == 0 {
      assert a + b == a;
    } else {
      var n := |b| - 1;
      assert (a + b)[..|a + b| - 1] == a + b[..n];
      assert (a + b)[|a + b| - 1] == b[n];
      FoldAppend(construct, lhs, a, b[..n]);
    }
  }

  /** The infix reading of a value built by the default construction:
      `[op, lhs, rhs]` reads as lhs, op, rhs; anything else is a leaf. */
  function Infix(v: Value): seq<Value>
    decreases v
  {
    if v.List? && |v.items| == 3 then Infix(v.items[1]) + [v.items[0]] + Infix(v.items[2])
    else [v]
  }

  /** The operands as the text showed them: each operator then its
      right-hand side. */
  function InfixOperands(operands: seq<(Value, Value)>): seq<Value>
    decreases |operands|
  {
    if |operands| == 0 then []
    else
      var last := operands[|operands| - 1];
      InfixOperands(operands[..|operands| - 1]) + [last.0] + Infix(last.1)
  }

  /** With the default construction the fold loses nothing and keeps the
      order: reading the tree back in infix order gives the left operand,
      then every operator and operand in the order they were matched. */
  lemma {:induction false} FoldKeepsInfixOrder(lhs: Value, operands: seq<(Value, Value)>)
    ensures Infix(Fold(DefaultConstruct, lhs, operands)) == Infix(lhs) + InfixOperands(operands)
    decreases |operands|
  {
    if |operands| > 0 {
      var n := |operands| - 1;
      FoldKeepsInfixOrder(lhs, operands[..n]);
      var sub := Fold(DefaultConstruct, lhs, operands[..n]);
      assert Fold(DefaultConstruct, lhs, operands) == List([operands[n].0, sub, operands[n].1]);
    }
  }

  /** With the default construction, every operator of a level ends on
      the left spine: the tree of n operands nests n deep to the left. */
  function LeftDepth(v: Value): nat
    decreases v
  {
    if v.List? && |v.items| == 3 then 1 + LeftDepth(v.items[1]) else 0
  }

  lemma {:induction false} FoldIsLeftAssociative(lhs: Value, operands: seq<(Value, Value)>)
    ensures LeftDepth(Fold(DefaultConstruct, lhs, operands)) == LeftDepth(lhs) + |operands|
    decreases |operands|
  {
    if |operands| > 0 {
      var n := |operands| - 1;
      FoldIsLeftAssociative(lhs, operands[..n]);
      assert Fold(DefaultConstruct, lhs, operands) == List([operands[n].0, Fold(DefaultConstruct, lhs, operands[..n]), operands[n].1]);
    }
  }
}
