/** The backtracking engine (Pegparse::ParserCore over a ParserContext).
    Ruby's `throw :backtrack` / `catch(:backtrack)` becomes an explicit
    outcome: every combinator maps a state to `Ok`, `Backtrack` or `Raised`. */
module ParserCore {
  import opened Wrappers
  import opened Scanner
  import LC = LineCounter
  import BA = BorrowedAreas
  import PE = ParserErrors

  /** The mutable part of a ParserContext: the scanner offset, the rule
      stack, the error tracker, the line counter and the borrowed areas.
      The input text is fixed for a parse and passed alongside. */
  datatype State = State(
    pos: nat,
    stack: seq<PE.Entry>,
    errors: PE.Errors,
    lines: LC.Table,
    areas: seq<BA.Area>)

  /** A fresh context at the start of the input. */
  const Fresh: State := State(0, [], PE.Init, LC.Init, [])

  /** `Ok`: the call returned `value`. `Backtrack`: it threw `:backtrack`.
      `Raised`: it raised an exception that no `catch(:backtrack)` stops.
      Each carries the state at that moment. */
  datatype Res<T> = Ok(value: T, st: State) | Backtrack(st: State) | Raised(st: State)

  /** A grammar block or rule running against the context. */
  type Parser<T> = State -> Res<T>

  /** The reason recorded when `read(pat)` fails: the pattern itself. */
  function ReasonOf(pat: Pattern): PE.Reason {
    match pat
    case Lit(s) => PE.Str(s)
    case Rx(src, _) => PE.Regex(src)
  }

  /** save_error(reason): record a failure at the current offset with the
      current rule stack as its path. */
  function SaveError(s: State, reason: PE.Reason): (r: State)
    ensures r.pos == s.pos && r.stack == s.stack && r.lines == s.lines && r.areas == s.areas
    ensures s.pos < s.errors.farthest ==> r == s
    ensures s.pos >= s.errors.farthest ==>
      r.errors.farthest == s.pos && |r.errors.records| > 0
      && r.errors.records[|r.errors.records| - 1] == s.stack + [PE.Entry(s.pos, reason)]
  {
    s.(errors := PE.SaveError(s.errors, s.pos, s.stack, reason))
  }

  /** backtrack_position_to(p): only the offset and the borrowed areas roll
      back; errors and the line table keep what was learned. */
  function BacktrackPositionTo(s: State, p: nat): (r: State)
    ensures r.pos == p
    ensures forall a :: a in r.areas <==> a in s.areas && a.marker <= p
    ensures r.stack == s.stack && r.errors == s.errors && r.lines == s.lines
  {
    s.(pos := p, areas := BA.Backtracked(s.areas, p))
  }

  /** Push a `[pos, reason]` frame on the rule stack. */
  function Push(s: State, reason: PE.Reason): State {
    s.(stack := s.stack + [PE.Entry(s.pos, reason)])
  }

  /** `rule_stack.pop`: drop the top frame (nothing on an empty stack). */
  function Pop(s: State): State {
    s.(stack := if |s.stack| == 0 then [] else s.stack[..|s.stack| - 1])
  }


  /** eos? */
  predicate Eos(text: string, s: State) {
    s.pos >= |text|
  }

  /** The offset of the last byte of a match of length `n` at `s.pos`. */
  function LastByte(s: State, n: nat): int {
    s.pos + n - 1
  }

  function Max(a: nat, b: nat): nat {
    if a < b then b else a
  }

  /** No borrowed area contains offset `p`. */
  ghost predicate Unclaimed(areas: seq<BA.Area>, p: int) {
    forall a :: a in areas ==> !BA.Contains(a, p)
  }

  /** The area search finds nothing exactly when the offset is unclaimed. */
  lemma NoConflictIsUnclaimed(areas: seq<BA.Area>, p: int)
    ensures BA.ConflictedArea(areas, p).None? <==> Unclaimed(areas, p)
  {
    if BA.ConflictedArea(areas, p).None? {
      forall a | a in areas ensures !BA.Contains(a, p) {
        var i :| 0 <= i < |areas| && areas[i] == a;
      }
    }
  }

  /** The pattern matches at the offset, the line counter accepts the
      fragment, and the match's last byte is not borrowed: exactly when
      peek and read succeed. */
  ghost predicate Accepts(text: string, pat: Pattern, s: State) {
    && MatchLen(pat, text, s.pos).Some?
    && s.pos <= s.lines.farthest
    && Unclaimed(s.areas, LastByte(s, MatchLen(pat, text, s.pos).value))
  }

  /** peek(pattern): match without consuming. A match is fed to the line
      counter, and is refused when its last byte lies in a borrowed area. */
  function Peek(text: string, pat: Pattern, s: State): (r: Res<Option<string>>)
    ensures r.Ok? || r.Raised?
    ensures r.st.pos == s.pos && r.st.stack == s.stack && r.st.errors == s.errors
    ensures r.st.areas == s.areas
    ensures MatchLen(pat, text, s.pos).None? ==> r == Ok(None, s)
    ensures r.Raised? <==> MatchLen(pat, text, s.pos).Some? && s.pos > s.lines.farthest
    ensures r.Ok? && r.value.Some? <==> Accepts(text, pat, s)
    ensures r.Ok? && r.value.Some? ==>
      r.value.value == text[s.pos..s.pos + MatchLen(pat, text, s.pos).value]
    ensures r.Ok? && MatchLen(pat, text, s.pos).Some? ==>
      r.st.lines.farthest >= s.pos + MatchLen(pat, text, s.pos).value
    ensures s.lines.farthest <= r.st.lines.farthest <= Max(s.lines.farthest, |text|)
    ensures r.Ok? && MatchLen(pat, text, s.pos).Some? ==>
      Some(r.st.lines) == LC.Memo(s.lines, s.pos, text[s.pos..s.pos + MatchLen(pat, text, s.pos).value])
    ensures MatchLen(pat, text, s.pos).None? || r.Raised? ==> r.st.lines == s.lines
  {
    var m := MatchLen(pat, text, s.pos);
    if m.None? then Ok(None, s)
    else
      var n := m.value;
      assert text[s.pos..s.pos + n] == text[s.pos..s.pos + MatchLen(pat, text, s.pos).value];
      PeekMatched(text, s, n)
  }

  /** The rest of peek once the pattern matched `n` characters: the line
      counter is fed the fragment, then the borrowed areas are consulted. */
  function PeekMatched(text: string, s: State, n: nat): (r: Res<Option<string>>)
    requires s.pos + n <= |text|
    ensures r.Ok? || r.Raised?
    ensures r.st.pos == s.pos && r.st.stack == s.stack && r.st.errors == s.errors && r.st.areas == s.areas
    ensures r.Raised? <==> s.pos > s.lines.farthest
    ensures r.Raised? ==> r.st.lines == s.lines
    ensures r.Ok? ==> Some(r.st.lines) == LC.Memo(s.lines, s.pos, text[s.pos..s.pos + n])
    ensures r.Ok? ==> r.st.lines.farthest >= s.pos + n
    ensures s.lines.farthest <= r.st.lines.farthest <= Max(s.lines.farthest, |text|)
    ensures r.Ok? && r.value.Some? <==> s.pos <= s.lines.farthest && Unclaimed(s.areas, LastByte(s, n))
    ensures r.Ok? && r.value.Some? ==> r.value.value == text[s.pos..s.pos + n]
  {
    var str := text[s.pos..s.pos + n];
    var lines := LC.Memo(s.lines, s.pos, str);
    if lines.None? then Raised(s)
    else
      var s1 := s.(lines := lines.value);
      NoConflictIsUnclaimed(s.areas, LastByte(s, n));
      if BA.ConflictedArea(s.areas, LastByte(s, n)).Some? then Ok(None, s1)
      else Ok(Some(str), s1)
  }

  /** peek { block }: run the block, then restore the offset whatever the
      outcome; a backtracking block yields nil. */
  function PeekBlock<T>(p: Parser<Option<T>>, s: State): (r: Res<Option<T>>)
    ensures r.Raised? <==> p(s).Raised?
    ensures r.Ok? ==> r.st.pos == s.pos
    ensures r.Ok? ==> r.st.errors == p(s).st.errors && r.st.lines == p(s).st.lines
    ensures r.Ok? ==> forall a :: a in r.st.areas <==> a in p(s).st.areas && a.marker <= s.pos
    ensures p(s).Ok? ==> r.Ok? && r.value == p(s).value
    ensures p(s).Backtrack? ==> r.Ok? && r.value.None?
  {
    match p(s)
    case Ok(v, s1) => Ok(v, BacktrackPositionTo(s1, s.pos))
    case Backtrack(s1) => Ok(None, BacktrackPositionTo(s1, s.pos))
    case Raised(s1) => Raised(s1)
  }

  /** read(pattern): consume a match, or record an error at the current
      offset with the pattern as reason and backtrack. */
  function Read(text: string, pat: Pattern, s: State): (r: Res<string>)
    ensures r.Ok? <==> Accepts(text, pat, s)
    ensures r.Raised? <==> MatchLen(pat, text, s.pos).Some? && s.pos > s.lines.farthest
    ensures r.st.stack == s.stack && r.st.areas == s.areas
    ensures r.Ok? ==> MatchLen(pat, text, s.pos).Some? && |r.value| == MatchLen(pat, text, s.pos).value
    ensures r.Ok? ==> r.st.pos == s.pos + |r.value| <= |text| && r.value == text[s.pos..r.st.pos]
    ensures r.Ok? ==> r.st.errors == s.errors
    ensures r.Ok? ==> r.st.lines.farthest >= r.st.pos
    ensures r.Backtrack? ==> r.st.pos == s.pos
    ensures r.Backtrack? ==> r.st.errors == PE.SaveError(s.errors, s.pos, s.stack, ReasonOf(pat))
    ensures LC.Grows(s.lines, r.st.lines)
    ensures s.lines.farthest <= r.st.lines.farthest <= Max(s.lines.farthest, |text|)
  {
    var p := Peek(text, pat, s);
    if p.Raised? then Raised(p.st)
    else if p.value.Some? then Ok(p.value.value, p.st.(pos := p.st.pos + |p.value.value|))
    else Backtrack(SaveError(p.st, ReasonOf(pat)))
  }

  /** `read(pattern)` as a block. */
  function Reader(text: string, pat: Pattern): Parser<string> {
    s => Read(text, pat, s)
  }

  /** optional(pattern): consume a match if there is one, else nil. Nothing
      is recorded and nothing is rolled back. */
  function OptionalPattern(text: string, pat: Pattern, s: State): (r: Res<Option<string>>)
    ensures r.Ok? || r.Raised?
    ensures r.st.stack == s.stack && r.st.errors == s.errors && r.st.areas == s.areas
    ensures r.Ok? && r.value.Some? ==>
      r.st.pos == s.pos + |r.value.value| <= |text| && r.value.value == text[s.pos..r.st.pos]
    ensures r.Ok? && r.value.None? ==> r.st.pos == s.pos
    ensures r.Ok? && r.value.Some? <==> Accepts(text, pat, s)
  {
    var p := Peek(text, pat, s);
    if p.Raised? then Raised(p.st)
    else if p.value.Some? then Ok(p.value, p.st.(pos := p.st.pos + |p.value.value|))
    else Ok(None, p.st)
  }

  /** The state the block of `optional` starts in: an `:optional` frame on
      top of the rule stack. */
  function Entered(s: State): State {
    Push(s, PE.OptionalTag)
  }

  /** optional { block }: on a backtrack the offset returns to its entry
      value, areas marked after it are dropped, and the result is nil; a
      successful block's value is returned as it is, even nil. */
  function Optional<T>(p: Parser<Option<T>>, s: State): (r: Res<Option<T>>)
    ensures r.Ok? || r.Raised?
    ensures r.Raised? <==> p(Entered(s)).Raised?
    ensures p(Entered(s)).Backtrack? ==>
      && r.value.None?
      && r.st.pos == s.pos
      && (forall a :: a in r.st.areas <==> a in p(Entered(s)).st.areas && a.marker <= s.pos)
      && r.st.errors == p(Entered(s)).st.errors
      && r.st.lines == p(Entered(s)).st.lines
    ensures p(Entered(s)).Ok? ==>
      && r.value == p(Entered(s)).value
      && r.st.pos == p(Entered(s)).st.pos
      && r.st.areas == p(Entered(s)).st.areas
    ensures p(Entered(s)).st.stack == Entered(s).stack ==> r.st.stack == s.stack
  {
    match p(Entered(s))
    case Ok(v, s1) => Ok(v, Pop(s1))
    case Backtrack(s1) => Ok(None, BacktrackPositionTo(Pop(s1), s.pos))
    case Raised(s1) => Raised(Pop(s1))
  }

  /** rule: run a grammar method with `[pos, name]` on the rule stack,
      popping it again on success, backtrack or exception. */
  function Rule<T>(name: string, p: Parser<T>, s: State): (r: Res<T>)
    ensures r.Ok? <==> p(Push(s, PE.Sym(name))).Ok?
    ensures r.Backtrack? <==> p(Push(s, PE.Sym(name))).Backtrack?
    ensures r.Ok? ==> r.value == p(Push(s, PE.Sym(name))).value
    ensures r.st.pos == p(Push(s, PE.Sym(name))).st.pos
    ensures r.st.errors == p(Push(s, PE.Sym(name))).st.errors
    ensures p(Push(s, PE.Sym(name))).st.stack == Push(s, PE.Sym(name)).stack ==> r.st.stack == s.stack
  {
    match p(Push(s, PE.Sym(name)))
    case Ok(v, s1) => Ok(v, Pop(s1))
    case Backtrack(s1) => Backtrack(Pop(s1))
    case Raised(s1) => Raised(Pop(s1))
  }

  /** A read that fails inside a rule is recorded under the rule's frame:
      when the failure reaches the frontier, the saved path is the caller's
      stack, then `[pos, name]`, then the failure itself. Whatever happens
      the caller gets its own stack back. */
  lemma RuleFramesFailure(text: string, name: string, pat: Pattern, s: State)
    ensures var r := Rule(name, Reader(text, pat), s);
      && r.st.stack == s.stack
      && (r.Backtrack? && s.pos >= s.errors.farthest ==>
            && r.st.errors.farthest == s.pos
            && r.st.errors.records[|r.st.errors.records| - 1]
               == s.stack + [PE.Entry(s.pos, PE.Sym(name)), PE.Entry(s.pos, ReasonOf(pat))])
      && (r.Backtrack? && s.pos < s.errors.farthest ==> r.st.errors == s.errors)
  {
    var t := Push(s, PE.Sym(name));
    assert Reader(text, pat)(t) == Read(text, pat, t);
    assert t.stack + [PE.Entry(s.pos, ReasonOf(pat))]
        == s.stack + [PE.Entry(s.pos, PE.Sym(name)), PE.Entry(s.pos, ReasonOf(pat))];
  }

  /** choice(alternatives): try each in order through `optional`; the first
      truthy result wins; when every one yields nil, backtrack. */
  function Choice<T>(alts: seq<Parser<Option<T>>>, s: State): (r: Res<T>)
    ensures |alts| == 0 ==> r == Backtrack(s)
    ensures |alts| > 0 && Optional(alts[0], s).Ok? && Optional(alts[0], s).value.Some? ==>
      r == Ok(Optional(alts[0], s).value.value, Optional(alts[0], s).st)
    ensures |alts| > 0 && Optional(alts[0], s).Ok? && Optional(alts[0], s).value.None? ==>
      r == Choice(alts[1..], Optional(alts[0], s).st)
    ensures |alts| > 0 && Optional(alts[0], s).Raised? ==> r.Raised?
    decreases |alts|
  {
    if |alts| == 0 then Backtrack(s)
    else
      match Optional(alts[0], s)
      case Ok(Some(v), s1) => Ok(v, s1)
      case Ok(None, s1) => Choice(alts[1..], s1)
      case Backtrack(s1) => Backtrack(s1)
      case Raised(s1) => Raised(s1)
  }

  /** zero_or_more { block }: repeat `optional { block }` until it yields
      nil, collecting the values in match order. Never backtracks. At most
      `fuel` iterations are run. */
  function ZeroOrMore<T>(p: Parser<Option<T>>, s: State, fuel: nat): (r: Res<seq<T>>)
    ensures r.Ok? || r.Raised?
    ensures r.Ok? ==> |r.value| <= fuel
    ensures fuel > 0 && Optional(p, s).Ok? && Optional(p, s).value.None? ==> r == Ok([], Optional(p, s).st)
    ensures fuel > 0 && Optional(p, s).Ok? && Optional(p, s).value.Some? && r.Ok? ==>
      |r.value| > 0 && r.value[0] == Optional(p, s).value.value
    decreases fuel
  {
    if fuel == 0 then Ok([], s)
    else
      match Optional(p, s)
      case Ok(Some(v), s1) =>
        (match ZeroOrMore(p, s1, fuel - 1)
         case Ok(vs, s2) => Ok([v] + vs, s2)
         case Backtrack(s2) => Backtrack(s2)
         case Raised(s2) => Raised(s2))
      case Ok(None, s1) => Ok([], s1)
      case Backtrack(s1) => Backtrack(s1)
      case Raised(s1) => Raised(s1)
  }

  /** one_or_more { block }: one unconditional call (whose value may be nil)
      followed by zero_or_more. Backtracks exactly when the first call does. */
  function OneOrMore<T>(p: Parser<Option<T>>, s: State, fuel: nat): (r: Res<seq<Option<T>>>)
    ensures r.Backtrack? <==> p(s).Backtrack?
    ensures r.Backtrack? ==> r.st == p(s).st
    ensures r.Ok? ==> p(s).Ok? && |r.value| >= 1 && r.value[0] == p(s).value
    ensures r.Ok? ==> forall i :: 1 <= i < |r.value| ==> r.value[i].Some?
  {
    match p(s)
    case Ok(v, s1) =>
      (match ZeroOrMore(p, s1, fuel)
       case Ok(vs, s2) => Ok([v] + seq(|vs|, i requires 0 <= i < |vs| => Some(vs[i])), s2)
       case Backtrack(s2) => Backtrack(s2)
       case Raised(s2) => Raised(s2))
    case Backtrack(s1) => Backtrack(s1)
    case Raised(s1) => Raised(s1)
  }

  /** Where borrow_next_line starts the block: the end of the last borrowed
      area if there is one, else just past `.*\n` (read, so a failure there
      is recorded and backtracks). */
  function BorrowStart(text: string, s: State): (r: Res<nat>)
    ensures |s.areas| > 0 ==> r == Ok(s.areas[|s.areas| - 1].end, s)
    ensures |s.areas| == 0 && Read(text, RestOfLine, s).Ok? ==>
      r.Ok? && r.value == r.st.pos == s.pos + MatchLen(RestOfLine, text, s.pos).value
    ensures |s.areas| == 0 && !Read(text, RestOfLine, s).Ok? ==>
      !r.Ok? && r.st == Read(text, RestOfLine, s).st
      && (r.Backtrack? <==> Read(text, RestOfLine, s).Backtrack?)
  {
    match BA.EndPos(s.areas)
    case Some(e) => Ok(e, s)
    case None =>
      match Read(text, RestOfLine, s)
      case Ok(_, s1) => Ok(s1.pos, s1)
      case Backtrack(s1) => Backtrack(s1)
      case Raised(s1) => Raised(s1)
  }

  /** borrow_next_line { block }: run the block at the start of the next
      unclaimed region, then come back to the current offset and register
      what the block consumed as a borrowed area marked here. */
  function BorrowNextLine<T>(text: string, p: Parser<T>, s: State): (r: Res<T>)
    ensures !BorrowStart(text, s).Ok? ==> !r.Ok? && r.st == BorrowStart(text, s).st
    ensures BorrowStart(text, s).Ok? ==>
      var b := BorrowStart(text, s).value;
      var inner := p(BorrowStart(text, s).st.(pos := b));
      && (r.Ok? <==> inner.Ok?)
      && (r.Ok? ==> r.value == inner.value && r.st.pos == s.pos
                    && r.st.areas == BA.AddArea(inner.st.areas, BA.Area(s.pos, b, inner.st.pos)))
      && (!r.Ok? ==> r.st == inner.st)
  {
    match BorrowStart(text, s)
    case Ok(b, s1) =>
      (match p(s1.(pos := b))
       case Ok(v, s2) =>
         Ok(v, s2.(pos := s.pos, areas := BA.AddArea(s2.areas, BA.Area(s.pos, b, s2.pos))))
       case Backtrack(s2) => Backtrack(s2)
       case Raised(s2) => Raised(s2))
    case Backtrack(s1) => Backtrack(s1)
    case Raised(s1) => Raised(s1)
  }

  /** borrowed_area: when the offset is exactly the start of a borrowed area
      containing it, jump over the whole area and return its text;
      otherwise backtrack. */
  function BorrowedArea(text: string, s: State): (r: Res<string>)
    ensures r.Backtrack? ==> r.st == s
    ensures !r.Raised?
    ensures r.Ok? <==> BA.ConflictedArea(s.areas, s.pos).Some? && BA.ConflictedArea(s.areas, s.pos).value.start == s.pos
    ensures r.Ok? ==> exists a :: a in s.areas && a.start == s.pos < a.end && r.st.pos == a.end
    ensures r.Ok? ==> r.st == s.(pos := r.st.pos)
  {
    match BA.ConflictedArea(s.areas, s.pos)
    case Some(a) =>
      if a.start == s.pos then Ok(Substr(text, a.start, a.end - a.start), s.(pos := a.end))
      else Backtrack(s)
    case None => Backtrack(s)
  }

  /** `borrowed_area` as a block. */
  function AreaReader(text: string): Parser<string> {
    s => BorrowedArea(text, s)
  }

  /** parse: run the start rule from `s`, stopping a backtrack (the result
      is then nil); retained errors are cleared when the input is consumed. */
  function Parse<T>(text: string, start: Parser<T>, s: State): (r: Res<Option<T>>)
    ensures r.Ok? <==> !start(s).Raised?
    ensures start(s).Ok? ==> r.value == Some(start(s).value)
    ensures start(s).Backtrack? ==> r.value == None
    ensures r.Ok? && Eos(text, start(s).st) ==> r.st.errors == PE.Init
    ensures r.Ok? && !Eos(text, start(s).st) ==> r.st == start(s).st
  {
    var out :=
      match start(s)
      case Ok(v, s1) => Ok(Some(v), s1)
      case Backtrack(s1) => Ok(None, s1)
      case Raised(s1) => Raised(s1);
    if out.Ok? && Eos(text, out.st) then out.(st := out.st.(errors := PE.ClearErrors(out.st.errors)))
    else out
  }

  /** best_errors of the parser: the tracker's best errors with each offset
      turned into (line, column). */
  function BestErrors(s: State): (r: seq<seq<((nat, nat), PE.Reason)>>)
    ensures |r| == |PE.BestErrors(s.errors)|
    ensures forall i, j :: 0 <= i < |r| && 0 <= j < |r[i]| ==>
      && |r[i]| == |PE.BestErrors(s.errors)[i]|
      && r[i][j].0 == LC.Position(s.lines, PE.BestErrors(s.errors)[i][j].pos)
      && r[i][j].1 == PE.BestErrors(s.errors)[i][j].reason
  {
    var best := PE.BestErrors(s.errors);
    seq(|best|, i requires 0 <= i < |best| =>
      seq(|best[i]|, j requires 0 <= j < |best[i]| =>
        (LC.Position(s.lines, best[i][j].pos), best[i][j].reason)))
  }

  // ---------------------------------------------------------------------
  // The rule stack is a call stack
  // ---------------------------------------------------------------------

  /** The block leaves the rule stack as it found it, whatever the outcome. */
  ghost predicate KeepsStack<T>(p: Parser<T>) {
    forall s :: p(s).st.stack == s.stack
  }

  lemma {:induction false} ChoiceKeepsStack<T>(alts: seq<Parser<Option<T>>>, s: State)
    requires forall i :: 0 <= i < |alts| ==> KeepsStack(alts[i])
    ensures Choice(alts, s).st.stack == s.stack
    decreases |alts|
  {
    if |alts| > 0 {
      var o := Optional(alts[0], s);
      assert alts[0](Entered(s)).st.stack == Entered(s).stack;
      if o.Ok? && o.value.None? {
        ChoiceKeepsStack(alts[1..], o.st);
      }
    }
  }

  lemma {:induction false} ZeroOrMoreKeepsStack<T>(p: Parser<Option<T>>, s: State, fuel: nat)
    requires KeepsStack(p)
    ensures ZeroOrMore(p, s, fuel).st.stack == s.stack
    decreases fuel
  {
    if fuel > 0 {
      var o := Optional(p, s);
      assert p(Entered(s)).st.stack == Entered(s).stack;
      if o.Ok? && o.value.Some? {
        ZeroOrMoreKeepsStack(p, o.st, fuel - 1);
      }
    }
  }

  lemma OneOrMoreKeepsStack<T>(p: Parser<Option<T>>, s: State, fuel: nat)
    requires KeepsStack(p)
    ensures OneOrMore(p, s, fuel).st.stack == s.stack
  {
    if p(s).Ok? {
      ZeroOrMoreKeepsStack(p, p(s).st, fuel);
    }
  }

  // ---------------------------------------------------------------------
  // Ordered choice
  // ---------------------------------------------------------------------

  /** Once an alternative wins, alternatives listed after it are never tried. */
  lemma {:induction false} ChoiceIgnoresLaterAlternatives<T>(alts: seq<Parser<Option<T>>>, more: seq<Parser<Option<T>>>, s: State)
    requires Choice(alts, s).Ok?
    ensures Choice(alts + more, s) == Choice(alts, s)
    decreases |alts|
  {
    assert (alts + more)[0] == alts[0];
    var o := Optional(alts[0], s);
    if o.Ok? && o.value.None? {
      assert (alts + more)[1..] == alts[1..] + more;
      ChoiceIgnoresLaterAlternatives(alts[1..], more, o.st);
    }
  }

  /** A block as a choice alternative: its string-like results are truthy. */
  function Truthy<T>(r: Res<T>): (o: Res<Option<T>>)
    ensures o.Ok? <==> r.Ok?
    ensures o.Ok? ==> o.value == Some(r.value)
    ensures o.st == r.st && (o.Backtrack? <==> r.Backtrack?)
  {
    match r
    case Ok(v, s1) => Ok(Some(v), s1)
    case Backtrack(s1) => Backtrack(s1)
    case Raised(s1) => Raised(s1)
  }

  function Lift<T>(p: Parser<T>): Parser<Option<T>> {
    s => Truthy(p(s))
  }

  function LiftAll<T>(alts: seq<Parser<T>>): (r: seq<Parser<Option<T>>>)
    ensures |r| == |alts|
    ensures forall i :: 0 <= i < |alts| ==> r[i] == Lift(alts[i])
  {
    seq(|alts|, i requires 0 <= i < |alts| => Lift(alts[i]))
  }

  /** Every alternative backtracks, each one run from the state that the
      rollback after the previous one left. */
  ghost predicate AllBacktrack<T>(alts: seq<Parser<T>>, s: State)
    decreases |alts|
  {
    |alts| == 0 || (alts[0](Entered(s)).Backtrack? && AllBacktrack(alts[1..], Optional(Lift(alts[0]), s).st))
  }

  /** A choice among blocks whose values are truthy backtracks exactly when
      every alternative, tried in order, backtracks. */
  lemma {:induction false} ChoiceBacktracksIffAllDo<T>(alts: seq<Parser<T>>, s: State)
    ensures Choice(LiftAll(alts), s).Backtrack? <==> AllBacktrack(alts, s)
    decreases |alts|
  {
    if |alts| > 0 {
      var lifted := LiftAll(alts);
      assert lifted[0](Entered(s)) == Truthy(alts[0](Entered(s)));
      assert lifted[0] == Lift(alts[0]);
      var o := Optional(lifted[0], s);
      if o.Ok? && o.value.None? {
        assert lifted[1..] == LiftAll(alts[1..]);
        ChoiceBacktracksIffAllDo(alts[1..], o.st);
      }
    }
  }

  /** Repeating a block that never yields nil: the loop backtracks exactly
      when the first round does, and every collected value is present. */
  lemma OneOrMoreOfTruthy<T>(p: Parser<T>, s: State, fuel: nat)
    ensures var r := OneOrMore(Lift(p), s, fuel);
      && (r.Backtrack? <==> p(s).Backtrack?)
      && (r.Backtrack? ==> r.st == p(s).st)
      && (r.Ok? ==> |r.value| >= 1 && forall i :: 0 <= i < |r.value| ==> r.value[i].Some?)
  {
    assert Lift(p)(s) == Truthy(p(s));
  }

  /** With alternatives that never yield nil, a choice that backtracks
      leaves the offset where it started and keeps only the areas marked no
      later than it. */
  lemma {:induction false} ChoiceOfTruthy<T>(alts: seq<Parser<T>>, s: State)
    ensures var r := Choice(LiftAll(alts), s);
      && (r.Backtrack? ==> r.st.pos == s.pos)
      && (r.Backtrack? && |alts| > 0 ==> forall a :: a in r.st.areas ==> a.marker <= s.pos)
    decreases |alts|
  {
    var lifted := LiftAll(alts);
    if |alts| > 0 {
      var o := Optional(lifted[0], s);
      var inner := alts[0](Entered(s));
      assert lifted[0](Entered(s)) == Truthy(inner);
      if o.Ok? && o.value.None? {
        assert LiftAll(alts)[1..] == LiftAll(alts[1..]);
        ChoiceOfTruthy(alts[1..], o.st);
      }
    }
  }

  // ---------------------------------------------------------------------
  // Repetition
  // ---------------------------------------------------------------------

  /** The values are collected in match order: a round that yields a value
      puts it in front of everything the following rounds collect, and the
      loop ends where they end. */
  lemma ZeroOrMoreInMatchOrder<T>(p: Parser<Option<T>>, s: State, fuel: nat)
    requires fuel > 0 && Optional(p, s).Ok? && Optional(p, s).value.Some?
    ensures var r := ZeroOrMore(p, s, fuel);
      var rest := ZeroOrMore(p, Optional(p, s).st, fuel - 1);
      && r.st == rest.st && (r.Ok? <==> rest.Ok?)
      && (r.Ok? ==> r.value == [Optional(p, s).value.value] + rest.value)
  {
  }

  /** When the loop stopped before running out of fuel it stopped on its
      own, and more fuel gives the same outcome. */
  lemma {:induction false} ZeroOrMoreFuelEnough<T>(p: Parser<Option<T>>, s: State, fuel: nat, more: nat)
    requires ZeroOrMore(p, s, fuel).Ok? && |ZeroOrMore(p, s, fuel).value| < fuel
    requires fuel <= more
    ensures ZeroOrMore(p, s, more) == ZeroOrMore(p, s, fuel)
    decreases fuel
  {
    var o := Optional(p, s);
    if o.Ok? && o.value.Some? {
      ZeroOrMoreFuelEnough(p, o.st, fuel - 1, more - 1);
    }
  }

  // ---------------------------------------------------------------------
  // Well-formed states
  // ---------------------------------------------------------------------

  /** The offset never passes what the line counter has seen, which never
      passes the text, and every borrowed area ends within what was seen.
      In such a state memo never raises and the scanner is never moved past
      the end of the text. */
  ghost predicate Valid(text: string, s: State) {
    && s.pos <= s.lines.farthest <= |text|
    && (forall a :: a in s.areas ==> a.end <= s.lines.farthest)
  }

  /** The block keeps states valid and never shrinks the observed text. */
  ghost predicate KeepsValid<T>(text: string, p: Parser<T>) {
    forall s {:trigger p(s)} :: Valid(text, s) ==> Valid(text, p(s).st) && s.lines.farthest <= p(s).st.lines.farthest
  }

  lemma ReadKeepsValid(text: string, pat: Pattern, s: State)
    requires Valid(text, s)
    ensures !Read(text, pat, s).Raised?
    ensures Valid(text, Read(text, pat, s).st)
  {
  }

  /** The line table a parse builds is exact: if it lists precisely the
      line starts and indent boundaries of the text seen so far, it still
      does after peek feeds it the matched fragment. */
  lemma PeekKeepsLinesExact(text: string, pat: Pattern, s: State)
    requires Valid(text, s) && LC.Describes(s.lines, text, s.lines.farthest)
    ensures LC.Describes(Peek(text, pat, s).st.lines, text, Peek(text, pat, s).st.lines.farthest)
  {
    if MatchLen(pat, text, s.pos).Some? {
      PeekFedKeepsLinesExact(text, pat, s);
    }
  }

  /** The case of a match: the table peek keeps is the one memo built. */
  lemma PeekFedKeepsLinesExact(text: string, pat: Pattern, s: State)
    requires s.pos <= s.lines.farthest && LC.Describes(s.lines, text, s.lines.farthest)
    requires MatchLen(pat, text, s.pos).Some?
    ensures LC.Describes(Peek(text, pat, s).st.lines, text, Peek(text, pat, s).st.lines.farthest)
  {
    var n := MatchLen(pat, text, s.pos).value;
    var r := PeekMatched(text, s, n);
    assert Peek(text, pat, s) == r;
    LC.MemoDescribes(s.lines, r.st.lines, text, s.pos, n);
  }

  /** The same for read, which keeps the table peek built. */
  lemma ReadKeepsLinesExact(text: string, pat: Pattern, s: State)
    requires Valid(text, s) && LC.Describes(s.lines, text, s.lines.farthest)
    ensures LC.Describes(Read(text, pat, s).st.lines, text, Read(text, pat, s).st.lines.farthest)
  {
    PeekKeepsLinesExact(text, pat, s);
    assert Read(text, pat, s).st.lines == Peek(text, pat, s).st.lines;
  }

  lemma BorrowedAreaKeepsValid(text: string, s: State)
    requires Valid(text, s)
    ensures Valid(text, BorrowedArea(text, s).st)
  {
  }

  lemma OptionalKeepsValid<T>(text: string, p: Parser<Option<T>>, s: State)
    requires KeepsValid(text, p) && Valid(text, s)
    ensures Valid(text, Optional(p, s).st)
    ensures s.lines.farthest <= Optional(p, s).st.lines.farthest
  {
    assert Valid(text, Entered(s));
  }

  lemma {:induction false} ChoiceKeepsValid<T>(text: string, alts: seq<Parser<Option<T>>>, s: State)
    requires forall i :: 0 <= i < |alts| ==> KeepsValid(text, alts[i])
    requires Valid(text, s)
    ensures Valid(text, Choice(alts, s).st)
    ensures s.lines.farthest <= Choice(alts, s).st.lines.farthest
    decreases |alts|
  {
    if |alts| > 0 {
      OptionalKeepsValid(text, alts[0], s);
      var o := Optional(alts[0], s);
      if o.Ok? && o.value.None? {
        ChoiceKeepsValid(text, alts[1..], o.st);
      }
    }
  }

  lemma {:induction false} ZeroOrMoreKeepsValid<T>(text: string, p: Parser<Option<T>>, s: State, fuel: nat)
    requires KeepsValid(text, p) && Valid(text, s)
    ensures Valid(text, ZeroOrMore(p, s, fuel).st)
    ensures s.lines.farthest <= ZeroOrMore(p, s, fuel).st.lines.farthest
    decreases fuel
  {
    if fuel > 0 {
      OptionalKeepsValid(text, p, s);
      var o := Optional(p, s);
      if o.Ok? && o.value.Some? {
        ZeroOrMoreKeepsValid(text, p, o.st, fuel - 1);
        assert ZeroOrMore(p, s, fuel).st == ZeroOrMore(p, o.st, fuel - 1).st;
      } else {
        assert ZeroOrMore(p, s, fuel).st == o.st;
      }
    }
  }

  /** Wrapping a block for a choice or a loop changes no state. */
  lemma LiftKeeps<T>(text: string, p: Parser<T>)
    ensures KeepsValid(text, p) ==> KeepsValid(text, Lift(p))
    ensures KeepsStack(p) ==> KeepsStack(Lift(p))
  {
    forall s: State
      ensures Lift(p)(s).st == p(s).st
    {
    }
  }

  /** read keeps states valid and the rule stack as it was. */
  lemma ReadKeeps(text: string, pat: Pattern)
    ensures KeepsValid(text, Reader(text, pat))
    ensures KeepsStack(Reader(text, pat))
  {
    forall s: State | Valid(text, s)
      ensures Valid(text, Reader(text, pat)(s).st)
    {
      ReadKeepsValid(text, pat, s);
    }
  }

  /** So does borrowed_area. */
  lemma AreaReaderKeeps(text: string)
    ensures KeepsValid(text, AreaReader(text))
    ensures KeepsStack(AreaReader(text))
  {
    forall s: State | Valid(text, s)
      ensures Valid(text, AreaReader(text)(s).st)
    {
      BorrowedAreaKeepsValid(text, s);
    }
  }

  /** peek from a valid state never raises, and keeps the state valid. */
  lemma PeekKeepsValid(text: string, pat: Pattern, s: State)
    requires Valid(text, s)
    ensures var r := Peek(text, pat, s);
      !r.Raised? && Valid(text, r.st) && s.lines.farthest <= r.st.lines.farthest && r.st.stack == s.stack
  {
  }

  lemma OneOrMoreKeepsValid<T>(text: string, p: Parser<Option<T>>, s: State, fuel: nat)
    requires KeepsValid(text, p) && Valid(text, s)
    ensures Valid(text, OneOrMore(p, s, fuel).st)
    ensures s.lines.farthest <= OneOrMore(p, s, fuel).st.lines.farthest
  {
    if p(s).Ok? {
      ZeroOrMoreKeepsValid(text, p, p(s).st, fuel);
    }
  }

  lemma BorrowNextLineKeepsValid<T>(text: string, p: Parser<T>, s: State)
    requires KeepsValid(text, p) && Valid(text, s)
    ensures Valid(text, BorrowNextLine(text, p, s).st)
  {
    var b := BorrowStart(text, s);
    if |s.areas| == 0 {
      ReadKeepsValid(text, RestOfLine, s);
    } else {
      assert s.areas[|s.areas| - 1] in s.areas;
    }
    if b.Ok? {
      assert Valid(text, b.st.(pos := b.value));
    }
  }
}
