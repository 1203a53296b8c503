/** Reusable rules built only from the engine's primitives
    (Pegparse::ParserBase): spaces, line-sensitive spaces, separated lists
    and string-like literals. */
module ParserBase {
  import opened Wrappers
  import opened Scanner
  import opened ParserCore
  import LC = LineCounter

  predicate IsInlineBlank(c: char) { c == ' ' || c == '\t' || c == '\r' }
  predicate IsNewline(c: char) { c == '\n' }

  // The pattern [ \t\r]+ .
  const BlankRun: Pattern := Rx("[ \\t\\r]+", ClassPlus(IsInlineBlank))
  // A single newline.
  const NewlineChar: Pattern := Rx("\\n", ClassOne(IsNewline))
  // The default line comment: a '#' and the rest of the line.
  const HashComment: Pattern := Rx("#[^\\n]*", LeadRun('#', NotNewline))

  /** The comment rules a grammar may override (`line_comment`,
      `block_comment`). */
  datatype Comments = Comments(lineComment: Parser<string>, blockComment: Parser<string>)

  /** line_comment as ParserBase defines it. */
  function DefaultLineComment(text: string): Parser<string> {
    Reader(text, HashComment)
  }

  /** The default line comment is a '#' and the rest of its line: it
      stops before the newline, or at the end of the text. */
  lemma LineCommentSpansLine(text: string, s: State)
    ensures var r := DefaultLineComment(text)(s);
      && (r.Ok? ==> |r.value| >= 1 && r.value[0] == '#' && r.st.pos == s.pos + |r.value|)
      && (r.Ok? ==> (forall k :: 0 <= k < |r.value| ==> r.value[k] != '\n'))
      && (r.Ok? ==> r.st.pos == |text| || text[r.st.pos] == '\n')
      && (s.pos >= |text| || text[s.pos] != '#' ==> !r.Ok?)
  {
    var r := Read(text, HashComment, s);
    if r.Ok? {
      var n := RunLen(text, s.pos + 1, NotNewline);
      assert MatchLen(HashComment, text, s.pos) == Some(1 + n);
      forall k | 0 <= k < |r.value| ensures r.value[k] != '\n' {
        assert r.value[k] == text[s.pos + k];
        if k > 0 { assert NotNewline(text[s.pos + 1 + (k - 1)]); }
      }
    }
  }

  /** The pieces `_` chooses from, in order: blanks, a newline, a borrowed
      area, a line comment, a block comment. */
  function SpaceAlternatives(text: string, c: Comments): seq<Parser<string>> {
    [ Reader(text, BlankRun),
      Reader(text, NewlineChar),
      AreaReader(text),
      c.lineComment,
      c.blockComment ]
  }

  /** One iteration of `_`: the ordered choice between the pieces. */
  function SpacePiece(text: string, c: Comments, s: State): (r: Res<string>)
    ensures r.Backtrack? ==> r.st.pos == s.pos
    ensures Read(text, BlankRun, Entered(s)).Ok? ==> r.Ok? && r.value == Read(text, BlankRun, Entered(s)).value
    ensures r.Backtrack? <==> AllBacktrack(SpaceAlternatives(text, c), s)
  {
    var alts := LiftAll(SpaceAlternatives(text, c));
    ChoiceOfTruthy(SpaceAlternatives(text, c), s);
    ChoiceBacktracksIffAllDo(SpaceAlternatives(text, c), s);
    assert alts[0](Entered(s)) == Truthy(Read(text, BlankRun, Entered(s)));
    Choice(alts, s)
  }

  /** A space piece as a block. */
  function SpacePieceBlock(text: string, c: Comments): Parser<string> {
    s => SpacePiece(text, c, s)
  }

  /** A space piece as a loop body. */
  function SpaceStep(text: string, c: Comments): Parser<Option<string>> {
    Lift(SpacePieceBlock(text, c))
  }

  /** `_`: one or more space pieces. */
  function Space(text: string, c: Comments, s: State, fuel: nat): (r: Res<seq<Option<string>>>)
    ensures r.Backtrack? <==> SpacePiece(text, c, s).Backtrack?
    ensures r.Backtrack? ==> r.st.pos == s.pos
    ensures r.Ok? ==> |r.value| >= 1 && forall i :: 0 <= i < |r.value| ==> r.value[i].Some?
  {
    OneOrMoreOfTruthy(SpacePieceBlock(text, c), s, fuel);
    OneOrMore(SpaceStep(text, c), s, fuel)
  }

  /** `_` as a block. */
  function SpaceBlock(text: string, c: Comments, fuel: nat): Parser<seq<Option<string>>> {
    s => Space(text, c, s, fuel)
  }

  function SpaceBody(text: string, c: Comments, fuel: nat): Parser<Option<seq<Option<string>>>> {
    Lift(SpaceBlock(text, c, fuel))
  }

  /** sp: optional spaces; never backtracks, nil when there is no space. */
  function Sp(text: string, c: Comments, s: State, fuel: nat): (r: Res<Option<seq<Option<string>>>>)
    ensures r.Ok? || r.Raised?
    ensures r.Ok? ==> (r.value.None? <==> Space(text, c, Entered(s), fuel).Backtrack?)
    ensures r.Ok? && r.value.None? ==> r.st.pos == s.pos
    ensures r.Ok? && r.value.Some? ==> r.st.pos == Space(text, c, Entered(s), fuel).st.pos
  {
    var body := SpaceBody(text, c, fuel);
    assert body(Entered(s)) == Truthy(Space(text, c, Entered(s), fuel));
    Optional(body, s)
  }

  /** The line of the current offset, by the table as it is now. */
  function LineAt(s: State): nat {
    LC.Position(s.lines, s.pos).0
  }

  /** inline_sp: optional spaces that must not leave the current line. */
  function InlineSp(text: string, c: Comments, s: State, fuel: nat): (r: Res<Option<seq<Option<string>>>>)
    ensures r.Raised? <==> Sp(text, c, s, fuel).Raised?
    ensures r.st == Sp(text, c, s, fuel).st
    ensures r.Backtrack? <==> Sp(text, c, s, fuel).Ok? && LineAt(Sp(text, c, s, fuel).st) != LineAt(s)
    ensures r.Ok? ==> r.value == Sp(text, c, s, fuel).value
  {
    var before := LineAt(s);
    match Sp(text, c, s, fuel)
    case Ok(v, s1) => if LineAt(s1) != before then Backtrack(s1) else Ok(v, s1)
    case Backtrack(s1) => Backtrack(s1)
    case Raised(s1) => Raised(s1)
  }

  /** lf: optional spaces that must reach another line. */
  function Lf(text: string, c: Comments, s: State, fuel: nat): (r: Res<Option<seq<Option<string>>>>)
    ensures r.Raised? <==> Sp(text, c, s, fuel).Raised?
    ensures r.st == Sp(text, c, s, fuel).st
    ensures r.Backtrack? <==> Sp(text, c, s, fuel).Ok? && LineAt(Sp(text, c, s, fuel).st) == LineAt(s)
    ensures r.Ok? ==> r.value == Sp(text, c, s, fuel).value
  {
    var before := LineAt(s);
    match Sp(text, c, s, fuel)
    case Ok(v, s1) => if LineAt(s1) == before then Backtrack(s1) else Ok(v, s1)
    case Backtrack(s1) => Backtrack(s1)
    case Raised(s1) => Raised(s1)
  }

  /** On any state, exactly one of inline_sp and lf backtracks, unless the
      spaces raised. */
  lemma InlineSpOrLf(text: string, c: Comments, s: State, fuel: nat)
    requires !Sp(text, c, s, fuel).Raised?
    ensures InlineSp(text, c, s, fuel).Backtrack? != Lf(text, c, s, fuel).Backtrack?
  {
  }

  // ---------------------------------------------------------------------
  // separative
  // ---------------------------------------------------------------------

  /** The separator made from a pattern: `sp; read(pattern); sp`. Its
      value is the trailing `sp`'s; it succeeds exactly when the pattern
      matches after the leading spaces, and then ends where the trailing
      spaces end. */
  function PatternSeparatorAt(text: string, c: Comments, pat: Pattern, fuel: nat, s: State)
    : (r: Res<Option<seq<Option<string>>>>)
    ensures r.Backtrack? ==> Sp(text, c, s, fuel).Ok? && Read(text, pat, Sp(text, c, s, fuel).st).Backtrack?
    ensures Sp(text, c, s, fuel).Ok? ==>
      var t := Read(text, pat, Sp(text, c, s, fuel).st);
      && (!t.Ok? ==> !r.Ok? && r.st == t.st)
      && (t.Ok? ==> r == Sp(text, c, t.st, fuel))
  {
    match Sp(text, c, s, fuel)
    case Ok(_, s1) =>
      (match Read(text, pat, s1)
       case Ok(_, s2) => Sp(text, c, s2, fuel)
       case Backtrack(s2) => Backtrack(s2)
       case Raised(s2) => Raised(s2))
    case Backtrack(s1) => Backtrack(s1)
    case Raised(s1) => Raised(s1)
  }

  function PatternSeparator(text: string, c: Comments, pat: Pattern, fuel: nat): Parser<Option<seq<Option<string>>>> {
    s => PatternSeparatorAt(text, c, pat, fuel, s)
  }

  /** `separator; item` as one step of the loop; its value is the item's. */
  function SepThen<U, T>(sep: Parser<U>, item: Parser<Option<T>>): Parser<Option<T>> {
    s =>
      match sep(s)
      case Ok(_, s1) => item(s1)
      case Backtrack(s1) => Backtrack(s1)
      case Raised(s1) => Raised(s1)
  }

  function Somes<T>(vs: seq<T>): (r: seq<Option<T>>)
    ensures |r| == |vs| && forall i :: 0 <= i < |vs| ==> r[i] == Some(vs[i])
  {
    seq(|vs|, i requires 0 <= i < |vs| => Some(vs[i]))
  }

  /** The block separative runs inside `optional`; its value is the list
      collected so far (Ruby appends to `ret` from inside the block). */
  function SeparativeBody<U, T>(sep: Parser<U>, allowExtra: bool, item: Parser<Option<T>>, fuel: nat, s: State)
    : (r: Res<Option<seq<Option<T>>>>)
    ensures r.Ok? ==> item(s).Ok? && r.value.Some? && |r.value.value| >= 1 && r.value.value[0] == item(s).value
    ensures r.Ok? ==> forall i :: 1 <= i < |r.value.value| ==> r.value.value[i].Some?
    ensures item(s).Backtrack? ==> r.Backtrack? && r.st == item(s).st
    ensures item(s).Ok? && !allowExtra ==>
      var more := ZeroOrMore(SepThen(sep, item), item(s).st, fuel);
      r.st == more.st && (r.Ok? <==> more.Ok?) &&
      (r.Ok? ==> r.value == Some([item(s).value] + Somes(more.value)))
    ensures item(s).Ok? && allowExtra && r.Ok? ==>
      var more := ZeroOrMore(SepThen(sep, item), item(s).st, fuel);
      more.Ok? && r.value == Some([item(s).value] + Somes(more.value)) &&
      (sep(Entered(more.st)).Backtrack? ==> r.st.pos == more.st.pos)
  {
    match item(s)
    case Ok(v, s1) =>
      (match ZeroOrMore(SepThen(sep, item), s1, fuel)
       case Ok(rest, s2) =>
         var collected := [v] + Somes(rest);
         if allowExtra then
           (match Optional(Lift(sep), s2)
            case Ok(_, s3) => Ok(Some(collected), s3)
            case Backtrack(s3) => Backtrack(s3)
            case Raised(s3) => Raised(s3))
         else Ok(Some(collected), s2)
       case Backtrack(s2) => Backtrack(s2)
       case Raised(s2) => Raised(s2))
    case Backtrack(s1) => Backtrack(s1)
    case Raised(s1) => Raised(s1)
  }

  /** separative(separator) { item }: items separated by the separator. The
      empty list, with the offset unchanged, when the first item fails. */
  function Separative<U, T>(sep: Parser<U>, allowExtra: bool, item: Parser<Option<T>>, s: State, fuel: nat)
    : (r: Res<seq<Option<T>>>)
    ensures r.Ok? || r.Raised?
    ensures item(Entered(s)).Backtrack? ==> r.Ok? && r.value == [] && r.st.pos == s.pos
    ensures r.Ok? && |r.value| > 0 ==> item(Entered(s)).Ok? && r.value[0] == item(Entered(s)).value
    ensures r.Ok? ==> forall i :: 1 <= i < |r.value| ==> r.value[i].Some?
    ensures r.Ok? && item(Entered(s)).Ok? ==>
      var body := SeparativeBody(sep, allowExtra, item, fuel, Entered(s));
      body.Ok? && Some(r.value) == body.value
  {
    match Optional((s0: State) => SeparativeBody(sep, allowExtra, item, fuel, s0), s)
    case Ok(Some(items), s1) => Ok(items, s1)
    case Ok(None, s1) => Ok([], s1)
    case Backtrack(s1) => Backtrack(s1)
    case Raised(s1) => Raised(s1)
  }

  // ---------------------------------------------------------------------
  // string_like
  // ---------------------------------------------------------------------

  /** An element of a string_like result: a run of text, or a non-String
      value produced by the special process. */
  datatype Piece<T> = Chunk(s: string) | Value(v: T)

  /** Text chunks are never adjacent: consecutive strings were joined. */
  ghost predicate Joined<T>(ps: seq<Piece<T>>) {
    forall i, j :: 0 <= i && j == i + 1 && j < |ps| ==> !(ps[i].Chunk? && ps[j].Chunk?)
  }

  ghost predicate NonEmptyChunks<T>(ps: seq<Piece<T>>) {
    forall i :: 0 <= i < |ps| ==> ps[i].Chunk? ==> |ps[i].s| > 0
  }

  /** What a literal spells: its characters, with each special value
      standing as one atom where it occurred. */
  datatype Atom<T> = Ch(c: char) | Val(v: T)

  function Chars<T>(s: string): seq<Atom<T>> {
    seq(|s|, i requires 0 <= i < |s| => Ch(s[i]))
  }

  function Atoms<T>(p: Piece<T>): seq<Atom<T>> {
    match p
    case Chunk(s) => Chars(s)
    case Value(v) => [Val(v)]
  }

  /** The reading of a result independent of how it is cut into pieces. */
  function Spell<T>(ps: seq<Piece<T>>): seq<Atom<T>> {
    if |ps| == 0 then [] else Atoms(ps[0]) + Spell(ps[1..])
  }

  /** Flush the pending chunk (when non-empty) and never return nothing. */
  function Finish<T>(ret: seq<Piece<T>>, str: string): (r: seq<Piece<T>>)
    requires Finished(ret)
    ensures |r| >= 1 && Joined(r)
    ensures NonEmptyChunks(r) || r == [Chunk("")]
    ensures |ret| == 0 && |str| == 0 ==> r == [Chunk("")]
  {
    var out := if |str| > 0 then ret + [Chunk(str)] else ret;
    if |out| > 0 then out else [Chunk("")]
  }

  /** Finishing keeps the finished pieces in front and spells the pending
      text after them. */
  lemma FinishSpells<T>(ret: seq<Piece<T>>, str: string)
    requires Finished(ret)
    ensures |ret| <= |Finish(ret, str)| && Finish(ret, str)[..|ret|] == ret
    ensures Spell(Finish(ret, str)) == Spell(ret) + Chars(str)
    ensures |ret| == 0 && |str| == 0 ==> Finish(ret, str) == [Chunk("")]
  {
    PendingSpell(ret, str);
    if |ret| == 0 && |str| == 0 {
      SpellOne<T>(Chunk(""));
    }
  }

  /** The invariant of the pieces finished so far. */
  ghost predicate Finished<T>(ret: seq<Piece<T>>) {
    Joined(ret) && NonEmptyChunks(ret) && (|ret| == 0 || ret[|ret| - 1].Value?)
  }

  /** Appending a special value after flushing the pending chunk keeps the
      finished pieces joined. */
  function Flush<T>(ret: seq<Piece<T>>, str: string, v: T): (r: seq<Piece<T>>)
    requires Finished(ret)
    ensures Finished(r) && |r| > |ret| && r[|r| - 1] == Value(v)
  {
    (if |str| > 0 then ret + [Chunk(str)] else ret) + [Value(v)]
  }

  /** Flushing keeps the finished pieces in front, and the special value
      follows the pending text. */
  lemma FlushSpells<T>(ret: seq<Piece<T>>, str: string, v: T)
    requires Finished(ret)
    ensures Flush(ret, str, v)[..|ret|] == ret
    ensures Spell(Flush(ret, str, v)) == Spell(ret) + Chars(str) + [Val(v)]
  {
    var out := if |str| > 0 then ret + [Chunk(str)] else ret;
    PendingSpell(ret, str);
    SpellAppend(out, [Value(v)]);
    SpellOne<T>(Value(v));
  }

  /** The loop of string_like: `ret` holds the finished elements (ending
      with a value, if any) and `str` the chunk being accumulated. Each
      round reads the normal pattern. */
  function StringLikeLoop<T>(text: string, endPat: Pattern, normal: Pattern,
                             special: Option<Parser<Option<Piece<T>>>>,
                             ret: seq<Piece<T>>, str: string, s: State, fuel: nat)
    : (r: Res<seq<Piece<T>>>)
    requires Finished(ret)
    ensures r.Ok? ==> |r.value| >= 1 && Joined(r.value)
    ensures r.Ok? ==> NonEmptyChunks(r.value) || r.value == [Chunk("")]
    ensures Read(text, normal, s).Backtrack? ==> r.Backtrack? && r.st == Read(text, normal, s).st
    ensures special.None? && r.Ok? ==> Read(text, normal, s).Ok? && r.value == Finish(ret, str + Read(text, normal, s).value)
    decreases fuel, 2
  {
    match Read(text, normal, s)
    case Backtrack(s1) => Backtrack(s1)
    case Raised(s1) => Raised(s1)
    case Ok(part, s1) => StringLikeRound(text, endPat, normal, special, ret, str + part, s1, fuel)
  }

  /** The rest of a round: stop at the end pattern or at the end of the
      text, otherwise run the special process. */
  function StringLikeRound<T>(text: string, endPat: Pattern, normal: Pattern,
                              special: Option<Parser<Option<Piece<T>>>>,
                              ret: seq<Piece<T>>, str: string, s: State, fuel: nat)
    : (r: Res<seq<Piece<T>>>)
    requires Finished(ret)
    ensures r.Ok? ==> |r.value| >= 1 && Joined(r.value)
    ensures r.Ok? ==> NonEmptyChunks(r.value) || r.value == [Chunk("")]
    ensures special.None? && r.Ok? ==> r.value == Finish(ret, str)
    decreases fuel, 1
  {
    match Peek(text, endPat, s)
    case Raised(s2) => Raised(s2)
    case Backtrack(s2) => Backtrack(s2)
    case Ok(Some(_), s2) => Ok(Finish(ret, str), s2)
    case Ok(None, s2) =>
      if Eos(text, s2) || special.None? || fuel == 0 then Ok(Finish(ret, str), s2)
      else AfterSpecial(text, endPat, normal, special, ret, str, special.value(s2), fuel)
  }

  /** What a round does with the special process's outcome `sp`: nil ends
      the literal, a chunk joins the text being accumulated, a value closes
      it, and the loop goes on. */
  function AfterSpecial<T>(text: string, endPat: Pattern, normal: Pattern,
                           special: Option<Parser<Option<Piece<T>>>>,
                           ret: seq<Piece<T>>, str: string, sp: Res<Option<Piece<T>>>, fuel: nat)
    : (r: Res<seq<Piece<T>>>)
    requires Finished(ret) && fuel > 0
    ensures r.Ok? ==> |r.value| >= 1 && Joined(r.value)
    ensures r.Ok? ==> NonEmptyChunks(r.value) || r.value == [Chunk("")]
    ensures !sp.Ok? ==> !r.Ok? && r.st == sp.st
    ensures sp.Ok? && sp.value.None? ==> r == Ok(Finish(ret, str), sp.st)
    decreases fuel, 0
  {
    match sp
    case Backtrack(s3) => Backtrack(s3)
    case Raised(s3) => Raised(s3)
    case Ok(None, s3) => Ok(Finish(ret, str), s3)
    case Ok(Some(Chunk(x)), s3) =>
      StringLikeLoop(text, endPat, normal, special, ret, str + x, s3, fuel - 1)
    case Ok(Some(Value(v)), s3) =>
      StringLikeLoop(text, endPat, normal, special, Flush(ret, str, v), "", s3, fuel - 1)
  }

  /** string_like(end, normal) { special }: a literal body made of text runs
      and special values. The result is never empty. */
  function StringLike<T>(text: string, endPat: Pattern, normal: Pattern,
                         special: Option<Parser<Option<Piece<T>>>>, s: State, fuel: nat)
    : (r: Res<seq<Piece<T>>>)
    ensures r.Ok? ==> |r.value| >= 1 && Joined(r.value)
    ensures r.Ok? ==> NonEmptyChunks(r.value) || r.value == [Chunk("")]
    ensures Read(text, normal, s).Backtrack? ==> r.Backtrack?
    ensures special.None? && Read(text, normal, s).Ok? && |Read(text, normal, s).value| > 0 && r.Ok? ==>
      r.value == [Chunk(Read(text, normal, s).value)]
  {
    assert forall x: string :: "" + x == x;
    StringLikeLoop(text, endPat, normal, special, [], "", s, fuel)
  }

  lemma SpellOne<T>(p: Piece<T>)
    ensures Spell([p]) == Atoms(p)
  {
    assert [p][1..] == [];
  }

  /** Flushing the pending text spells it after the finished pieces. */
  lemma PendingSpell<T>(ret: seq<Piece<T>>, str: string)
    ensures Spell(if |str| > 0 then ret + [Chunk(str)] else ret) == Spell(ret) + Chars(str)
  {
    if |str| > 0 {
      SpellAppend(ret, [Chunk(str)]);
      SpellOne<T>(Chunk(str));
    } else {
      assert Chars<T>(str) == [];
    }
  }

  lemma CharsAppend<T>(a: string, b: string)
    ensures Chars<T>(a + b) == Chars<T>(a) + Chars<T>(b)
  {
  }

  /** The spelling of a concatenation is the concatenation of spellings. */
  lemma {:induction false} SpellAppend<T>(a: seq<Piece<T>>, b: seq<Piece<T>>)
    ensures Spell(a + b) == Spell(a) + Spell(b)
    decreases |a|
  {
    if |a| > 0 {
      assert (a + b)[1..] == a[1..] + b;
      SpellAppend(a[1..], b);
    } else {
      assert a + b == b;
    }
  }

  /** `r` is `r0` run after `ret` was finished and `str` was pending: it
      stops in the same way and state, keeps `ret` in front, and spells
      `ret`, then `str`, then what `r0` spells. */
  ghost predicate Shifted<T>(r: Res<seq<Piece<T>>>, r0: Res<seq<Piece<T>>>, ret: seq<Piece<T>>, str: string) {
    && r.Ok? == r0.Ok? && r.Backtrack? == r0.Backtrack? && r.st == r0.st
    && (r.Ok? ==> |ret| <= |r.value| && r.value[..|ret|] == ret
                  && Spell(r.value) == Spell(ret) + Chars(str) + Spell(r0.value))
  }

  lemma Regroup<A>(pre: seq<A>, c: seq<A>, d: seq<A>, rest: seq<A>)
    ensures pre + (c + d) + rest == pre + c + (d + rest)
  {
  }

  /** Nothing finished spells nothing. */
  lemma EmptyFront<T>(w: seq<Atom<T>>)
    ensures Spell<T>([]) + w == w
  {
    assert Spell<T>([]) == [];
  }

  /** Text `a` pending on top of `str` is text `str + a` pending. */
  lemma ShiftText<T>(r: Res<seq<Piece<T>>>, r0: Res<seq<Piece<T>>>, m: Res<seq<Piece<T>>>,
                     ret: seq<Piece<T>>, str: string, a: string)
    requires Shifted(r, m, ret, str + a) && Shifted(r0, m, [], a)
    ensures Shifted(r, r0, ret, str)
  {
    if r.Ok? {
      CharsAppend<T>(str, a);
      Regroup(Spell(ret), Chars<T>(str), Chars<T>(a), Spell(m.value));
      EmptyFront(Chars<T>(a) + Spell(m.value));
    }
  }

  /** A value flushed on top of `ret` and `str` is `ret` and `str` in front
      of the value alone. */
  lemma ShiftValue<T>(r: Res<seq<Piece<T>>>, r0: Res<seq<Piece<T>>>, m: Res<seq<Piece<T>>>,
                      ret: seq<Piece<T>>, str: string, v: T)
    requires Finished(ret)
    requires Shifted(r, m, Flush(ret, str, v), "") && Shifted(r0, m, Flush([], "", v), "")
    ensures Shifted(r, r0, ret, str)
  {
    if r.Ok? {
      FlushSpells(ret, str, v);
      FlushSpells<T>([], "", v);
      NothingSpelled<T>();
      RegroupValue(Spell(ret), Chars<T>(str), [Val(v)], Chars<T>(""), Spell<T>([]), Spell(m.value));
      var f := Flush(ret, str, v);
      PrefixOfPrefix(r.value, f, ret);
    }
  }

  lemma NothingSpelled<T>()
    ensures Spell<T>([]) == [] && Chars<T>("") == []
  {
  }

  lemma RegroupValue<A>(pre: seq<A>, c: seq<A>, w: seq<A>, e: seq<A>, z: seq<A>, rest: seq<A>)
    requires e == [] && z == []
    ensures pre + c + w + e + rest == pre + c + ((z + e + w) + e + rest)
  {
  }

  lemma PrefixOfPrefix<A>(a: seq<A>, b: seq<A>, c: seq<A>)
    requires |b| <= |a| && a[..|b|] == b && |c| <= |b| && b[..|c|] == c
    ensures a[..|c|] == c
  {
    assert a[..|b|][..|c|] == a[..|c|];
  }

  /** Stopping with what was finished and pending. */
  lemma ShiftFinish<T>(ret: seq<Piece<T>>, str: string, st: State)
    requires Finished(ret)
    ensures Shifted(Ok(Finish(ret, str), st), Ok(Finish<T>([], ""), st), ret, str)
  {
    FinishSpells(ret, str);
    FinishSpells<T>([], "");
    assert Spell<T>([]) == [] && Chars<T>("") == [];
  }

  /** Whatever was finished and pending before a stretch of the loop stays
      in front of what the stretch adds: the loop from `ret` and `str` is the
      loop from nothing, shifted. */
  lemma {:induction false} LoopShifts<T>(text: string, endPat: Pattern, normal: Pattern,
                                         special: Option<Parser<Option<Piece<T>>>>,
                                         ret: seq<Piece<T>>, str: string, s: State, fuel: nat)
    requires Finished(ret)
    ensures Shifted(StringLikeLoop(text, endPat, normal, special, ret, str, s, fuel),
                    StringLikeLoop(text, endPat, normal, special, [], "", s, fuel), ret, str)
    decreases fuel, 2
  {
    var rd := Read(text, normal, s);
    if rd.Ok? {
      var part := rd.value;
      assert "" + part == part;
      var r := StringLikeRound(text, endPat, normal, special, ret, str + part, rd.st, fuel);
      var r0 := StringLikeRound(text, endPat, normal, special, [], part, rd.st, fuel);
      var m := StringLikeRound(text, endPat, normal, special, [], "", rd.st, fuel);
      assert StringLikeLoop(text, endPat, normal, special, ret, str, s, fuel) == r;
      assert StringLikeLoop(text, endPat, normal, special, [], "", s, fuel) == r0;
      RoundShifts(text, endPat, normal, special, ret, str + part, rd.st, fuel);
      RoundShifts(text, endPat, normal, special, [], part, rd.st, fuel);
      ShiftText(r, r0, m, ret, str, part);
    }
  }

  lemma {:induction false} RoundShifts<T>(text: string, endPat: Pattern, normal: Pattern,
                                          special: Option<Parser<Option<Piece<T>>>>,
                                          ret: seq<Piece<T>>, str: string, s: State, fuel: nat)
    requires Finished(ret)
    ensures Shifted(StringLikeRound(text, endPat, normal, special, ret, str, s, fuel),
                    StringLikeRound(text, endPat, normal, special, [], "", s, fuel), ret, str)
    decreases fuel, 1
  {
    var pk := Peek(text, endPat, s);
    if pk.Ok? && pk.value.None? && !Eos(text, pk.st) && special.Some? && fuel > 0 {
      SpecialShifts(text, endPat, normal, special, ret, str, special.value(pk.st), fuel);
    } else if pk.Ok? {
      ShiftFinish(ret, str, pk.st);
    }
  }

  lemma {:induction false} SpecialShifts<T>(text: string, endPat: Pattern, normal: Pattern,
                                            special: Option<Parser<Option<Piece<T>>>>,
                                            ret: seq<Piece<T>>, str: string, sp: Res<Option<Piece<T>>>, fuel: nat)
    requires Finished(ret) && fuel > 0
    ensures Shifted(AfterSpecial(text, endPat, normal, special, ret, str, sp, fuel),
                    AfterSpecial(text, endPat, normal, special, [], "", sp, fuel), ret, str)
    decreases fuel, 0
  {
    var more: nat := fuel - 1;
    var m := StringLikeLoop(text, endPat, normal, special, [], "", sp.st, more);
    match sp
    case Backtrack(_) =>
    case Raised(_) =>
    case Ok(None, s3) =>
      ShiftFinish(ret, str, s3);
    case Ok(Some(Chunk(x)), s3) =>
      assert "" + x == x;
      LoopShifts(text, endPat, normal, special, ret, str + x, s3, more);
      LoopShifts(text, endPat, normal, special, [], x, s3, more);
      ShiftText(StringLikeLoop(text, endPat, normal, special, ret, str + x, s3, more),
                StringLikeLoop(text, endPat, normal, special, [], x, s3, more), m, ret, str, x);
    case Ok(Some(Value(v)), s3) =>
      var f := Flush(ret, str, v);
      var f0 := Flush([], "", v);
      LoopShifts(text, endPat, normal, special, f, "", s3, more);
      LoopShifts(text, endPat, normal, special, f0, "", s3, more);
      ShiftValue(StringLikeLoop(text, endPat, normal, special, f, "", s3, more),
                 StringLikeLoop(text, endPat, normal, special, f0, "", s3, more), m, ret, str, v);
  }

  /** What a round spells after the text `pre`, when it starts at `s`: just
      `pre` when the end pattern, the end of the text, a missing or
      nil-returning special process, or the fuel stops it; otherwise `pre`,
      then the special result in place (a String's characters joined to the
      text, any other value as one atom), then what the rest of the literal
      spells. A round that fails fails where the peek or the special
      process did. */
  ghost predicate SpellsRound<T>(text: string, endPat: Pattern, normal: Pattern,
                                 special: Option<Parser<Option<Piece<T>>>>,
                                 pre: seq<Atom<T>>, s: State, fuel: nat, r: Res<seq<Piece<T>>>) {
    var pk := Peek(text, endPat, s);
    var goesOn := pk.Ok? && pk.value.None? && !Eos(text, pk.st) && special.Some? && fuel > 0;
    var sp := if goesOn then special.value(pk.st) else Backtrack(pk.st);
    var rest := if goesOn then StringLike(text, endPat, normal, special, sp.st, fuel - 1) else Backtrack(pk.st);
    RoundSpelled(pre, pk.Ok?, pk.st, goesOn, sp, rest, r)
  }

  /** The cases of `SpellsRound`, given the peek's outcome, whether the
      round goes on to the special process, that process's result `sp` and
      the rest of the literal after it. */
  ghost predicate RoundSpelled<T>(pre: seq<Atom<T>>, peeked: bool, pst: State, goesOn: bool,
                                  sp: Res<Option<Piece<T>>>, rest: Res<seq<Piece<T>>>, r: Res<seq<Piece<T>>>) {
    if !peeked then !r.Ok? && r.st == pst
    else if !goesOn then r.Ok? && Spell(r.value) == pre && r.st == pst
    else if !sp.Ok? then !r.Ok? && r.st == sp.st
    else if sp.value.None? then r.Ok? && Spell(r.value) == pre && r.st == sp.st
    else
      r.Ok? == rest.Ok? && r.st == rest.st
      && (r.Ok? ==> Spell(r.value) == pre + Atoms(sp.value.value) + Spell(rest.value))
  }

  /** What string_like spells, round by round: the text the normal pattern
      read, then the rest of the round as `SpellsRound` describes it. A
      failing normal read fails the literal where it failed. */
  lemma StringLikeSpells<T>(text: string, endPat: Pattern, normal: Pattern,
                            special: Option<Parser<Option<Piece<T>>>>, s: State, fuel: nat)
    ensures var r := StringLike(text, endPat, normal, special, s, fuel);
      var rd := Read(text, normal, s);
      (!rd.Ok? ==> !r.Ok? && r.st == rd.st)
      && (rd.Ok? ==> SpellsRound(text, endPat, normal, special, Chars(rd.value), rd.st, fuel, r))
  {
    var rd := Read(text, normal, s);
    if rd.Ok? {
      assert "" + rd.value == rd.value;
      var r := StringLikeRound(text, endPat, normal, special, [], rd.value, rd.st, fuel);
      var m := StringLikeRound(text, endPat, normal, special, [], "", rd.st, fuel);
      assert StringLike(text, endPat, normal, special, s, fuel) == r;
      RoundShifts(text, endPat, normal, special, [], rd.value, rd.st, fuel);
      RoundFromNothing(text, endPat, normal, special, rd.st, fuel);
      var pk := Peek(text, endPat, rd.st);
      var goesOn := pk.Ok? && pk.value.None? && !Eos(text, pk.st) && special.Some? && fuel > 0;
      var sp := if goesOn then special.value(pk.st) else Backtrack(pk.st);
      var rest := if goesOn then StringLike(text, endPat, normal, special, sp.st, fuel - 1) else Backtrack(pk.st);
      SpellsAfter(rd.value, pk.Ok?, pk.st, goesOn, sp, rest, r, m);
    }
  }

  /** A round after pending text `a` spells `a` in front of what the round
      from nothing spells. */
  lemma SpellsAfter<T>(a: string, peeked: bool, pst: State, goesOn: bool, sp: Res<Option<Piece<T>>>,
                       rest: Res<seq<Piece<T>>>, r: Res<seq<Piece<T>>>, m: Res<seq<Piece<T>>>)
    requires Shifted(r, m, [], a)
    requires RoundSpelled([], peeked, pst, goesOn, sp, rest, m)
    ensures RoundSpelled(Chars(a), peeked, pst, goesOn, sp, rest, r)
  {
    NothingSpelled<T>();
    if r.Ok? {
      DropEmpty(Spell<T>([]), Chars<T>(a), Spell(m.value));
      if peeked && goesOn && sp.Ok? && sp.value.Some? {
        Regroup([], Chars<T>(a), Atoms(sp.value.value), Spell(rest.value));
      }
    }
  }

  /** One round with nothing finished or pending. */
  lemma RoundFromNothing<T>(text: string, endPat: Pattern, normal: Pattern,
                            special: Option<Parser<Option<Piece<T>>>>, s: State, fuel: nat)
    ensures SpellsRound(text, endPat, normal, special, [],
                        s, fuel, StringLikeRound(text, endPat, normal, special, [], "", s, fuel))
  {
    var m := StringLikeRound(text, endPat, normal, special, [], "", s, fuel);
    var pk := Peek(text, endPat, s);
    var goesOn := pk.Ok? && pk.value.None? && !Eos(text, pk.st) && special.Some? && fuel > 0;
    if goesOn {
      var sp := special.value(pk.st);
      assert m == AfterSpecial(text, endPat, normal, special, [], "", sp, fuel);
      AfterNothing(text, endPat, normal, special, sp, fuel);
    } else if pk.Ok? {
      assert m == Ok(Finish<T>([], ""), pk.st);
      FinishSpells<T>([], "");
    }
  }

  /** What follows the special process, with nothing finished or pending. */
  lemma AfterNothing<T>(text: string, endPat: Pattern, normal: Pattern,
                        special: Option<Parser<Option<Piece<T>>>>, sp: Res<Option<Piece<T>>>, fuel: nat)
    requires fuel > 0
    ensures var m := AfterSpecial(text, endPat, normal, special, [], "", sp, fuel);
      RoundSpelled([], true, sp.st, true, sp,
                   StringLike(text, endPat, normal, special, sp.st, fuel - 1), m)
  {
    NothingSpelled<T>();
    if sp.Ok? && sp.value.Some? {
      var p := sp.value.value;
      var rest := StringLikeLoop(text, endPat, normal, special, [], "", sp.st, fuel - 1);
      SpecialFromNothing(text, endPat, normal, special, p, sp.st, fuel);
      if rest.Ok? {
        DropEmpty(Spell<T>([]), Atoms(p), Spell(rest.value));
      }
    } else if sp.Ok? {
      FinishSpells<T>([], "");
    }
  }

  /** A special result with nothing finished or pending spells itself in
      front of the rest of the literal. */
  lemma SpecialFromNothing<T>(text: string, endPat: Pattern, normal: Pattern,
                              special: Option<Parser<Option<Piece<T>>>>, p: Piece<T>, s3: State, fuel: nat)
    requires fuel > 0
    ensures var m := AfterSpecial(text, endPat, normal, special, [], "", Ok(Some(p), s3), fuel);
      var rest := StringLikeLoop(text, endPat, normal, special, [], "", s3, fuel - 1);
      m.Ok? == rest.Ok? && m.st == rest.st
      && (m.Ok? ==> Spell(m.value) == Atoms(p) + Spell(rest.value))
  {
    var more: nat := fuel - 1;
    var m := AfterSpecial(text, endPat, normal, special, [], "", Ok(Some(p), s3), fuel);
    var rest := StringLikeLoop(text, endPat, normal, special, [], "", s3, more);
    NothingSpelled<T>();
    match p
    case Chunk(x) =>
      ChunkAfterNothing(text, endPat, normal, special, x, s3, fuel);
      LoopShifts(text, endPat, normal, special, [], x, s3, more);
      ShiftedSpells(m, rest, [], x);
      if m.Ok? {
        DropEmpty(Spell<T>([]), Chars<T>(x), Spell(rest.value));
      }
    case Value(v) =>
      var f := Flush([], "", v);
      ValueAfterNothing(text, endPat, normal, special, v, s3, fuel);
      LoopShifts(text, endPat, normal, special, f, "", s3, more);
      ShiftedSpells(m, rest, f, "");
      if m.Ok? {
        FlushSpells<T>([], "", v);
        DropEmptyValue(Spell<T>([]), Chars<T>(""), [Val(v)], Spell(rest.value));
      }
  }

  lemma DropEmpty<A>(z: seq<A>, c: seq<A>, rest: seq<A>)
    requires z == []
    ensures z + c + rest == c + rest
  {
  }

  lemma DropEmptyValue<A>(z: seq<A>, e: seq<A>, w: seq<A>, rest: seq<A>)
    requires z == [] && e == []
    ensures (z + e + w) + e + rest == w + rest
  {
  }

  lemma ChunkAfterNothing<T>(text: string, endPat: Pattern, normal: Pattern,
                             special: Option<Parser<Option<Piece<T>>>>, x: string, s3: State, fuel: nat)
    requires fuel > 0
    ensures AfterSpecial(text, endPat, normal, special, [], "", Ok(Some(Chunk(x)), s3), fuel)
         == StringLikeLoop(text, endPat, normal, special, [], x, s3, fuel - 1)
  {
    assert "" + x == x;
  }

  lemma ValueAfterNothing<T>(text: string, endPat: Pattern, normal: Pattern,
                             special: Option<Parser<Option<Piece<T>>>>, v: T, s3: State, fuel: nat)
    requires fuel > 0
    ensures AfterSpecial(text, endPat, normal, special, [], "", Ok(Some(Value(v)), s3), fuel)
         == StringLikeLoop(text, endPat, normal, special, Flush([], "", v), "", s3, fuel - 1)
  {
  }

  /** A shifted result after nothing finished spells the pending text and
      the finished pieces in front of the original. */
  lemma ShiftedSpells<T>(r: Res<seq<Piece<T>>>, r0: Res<seq<Piece<T>>>, ret: seq<Piece<T>>, str: string)
    requires Shifted(r, r0, ret, str)
    ensures r.Ok? == r0.Ok? && r.st == r0.st
    ensures r.Ok? ==> Spell(r.value) == Spell(ret) + Chars(str) + Spell(r0.value)
  {
  }

  lemma {:induction false} TailKeeps<T>(a: seq<Piece<T>>)
    requires |a| > 0 && Joined(a) && NonEmptyChunks(a)
    ensures Joined(a[1..]) && NonEmptyChunks(a[1..])
  {
    var b := a[1..];
    forall i, j | 0 <= i && j == i + 1 && j < |b|
      ensures !(b[i].Chunk? && b[j].Chunk?)
    {
      assert b[i] == a[i + 1] && b[j] == a[j + 1];
    }
  }

  /** Behind a chunk of a joined result the spelling goes on with a value,
      if at all. */
  lemma ChunkThenValue<T>(a: seq<Piece<T>>)
    requires |a| > 0 && a[0].Chunk? && Joined(a)
    ensures Spell(a) == Chars(a[0].s) + Spell(a[1..])
    ensures |Spell(a[1..])| > 0 ==> Spell(a[1..])[0].Val?
    ensures forall i :: 0 <= i < |a[0].s| ==> i < |Spell(a)| && Spell(a)[i] == Ch(a[0].s[i])
    ensures |a[0].s| < |Spell(a)| ==> Spell(a)[|a[0].s|].Val?
  {
    if |a| > 1 {
      assert a[1].Value?;
      assert a[1..][1..] == a[2..];
    }
  }

  /** A non-empty result with non-empty chunks spells something. */
  lemma SpellNonEmpty<T>(a: seq<Piece<T>>)
    requires |a| > 0 && NonEmptyChunks(a)
    ensures |Spell(a)| > 0
  {
  }

  /** The spelling determines the result: two joined results with
      non-empty chunks that spell the same are the same. So string_like's
      value is fixed by `StringLikeSpells` together with its shape. */
  lemma {:induction false} SpellDetermines<T>(a: seq<Piece<T>>, b: seq<Piece<T>>)
    requires Joined(a) && NonEmptyChunks(a) && Joined(b) && NonEmptyChunks(b)
    requires Spell(a) == Spell(b)
    ensures a == b
    decreases |a|
  {
    if |a| == 0 {
      if |b| > 0 { SpellNonEmpty(b); }
    } else if |b| == 0 {
      SpellNonEmpty(a);
    } else {
      SameHead(a, b);
      assert Spell(a) == Atoms(a[0]) + Spell(a[1..]);
      assert Spell(b) == Atoms(b[0]) + Spell(b[1..]);
      assert Spell(a[1..]) == Spell(a)[|Atoms(a[0])|..];
      TailKeeps(a);
      TailKeeps(b);
      SpellDetermines(a[1..], b[1..]);
      assert a == [a[0]] + a[1..];
      assert b == [b[0]] + b[1..];
    }
  }

  /** The first atom a result spells is the first atom of its first piece. */
  lemma HeadAtom<T>(a: seq<Piece<T>>)
    requires |a| > 0 && NonEmptyChunks(a)
    ensures |Spell(a)| > 0
    ensures a[0].Chunk? ==> Spell(a)[0] == Ch(a[0].s[0])
    ensures a[0].Value? ==> Spell(a)[0] == Val(a[0].v)
  {
    assert Spell(a) == Atoms(a[0]) + Spell(a[1..]);
  }

  /** Two joined results with non-empty chunks that spell the same begin
      with the same piece. */
  lemma SameHead<T>(a: seq<Piece<T>>, b: seq<Piece<T>>)
    requires |a| > 0 && |b| > 0
    requires Joined(a) && NonEmptyChunks(a) && Joined(b) && NonEmptyChunks(b)
    requires Spell(a) == Spell(b)
    ensures a[0] == b[0]
  {
    HeadAtom(a);
    HeadAtom(b);
    if a[0].Chunk? && b[0].Chunk? {
      SameChunk(a, b);
    }
  }

  /** Two leading chunks of results that spell the same are equal: each
      runs up to the first value, or to the end. */
  lemma SameChunk<T>(a: seq<Piece<T>>, b: seq<Piece<T>>)
    requires |a| > 0 && |b| > 0 && a[0].Chunk? && b[0].Chunk?
    requires Joined(a) && Joined(b)
    requires Spell(a) == Spell(b)
    ensures a[0] == b[0]
  {
    var w := Spell(a);
    var x, y := a[0].s, b[0].s;
    ChunkNoLonger(a, b);
    ChunkNoLonger(b, a);
    ChunkThenValue(a);
    ChunkThenValue(b);
    forall i | 0 <= i < |x| ensures x[i] == y[i] {
      assert w[i] == Ch(x[i]) && w[i] == Ch(y[i]);
    }
  }

  /** A leading chunk is no longer than the other result's leading chunk
      when both spell the same: past its end comes a value or nothing. */
  lemma ChunkNoLonger<T>(a: seq<Piece<T>>, b: seq<Piece<T>>)
    requires |a| > 0 && |b| > 0 && a[0].Chunk? && b[0].Chunk?
    requires Joined(a) && Joined(b)
    requires Spell(a) == Spell(b)
    ensures |a[0].s| <= |b[0].s|
  {
    var w := Spell(a);
    var x, y := a[0].s, b[0].s;
    ChunkThenValue(a);
    ChunkThenValue(b);
  }

  // ---------------------------------------------------------------------
  // The derived rules keep states valid and the rule stack balanced
  // ---------------------------------------------------------------------

  /** Comment rules that keep states valid and leave the rule stack as they
      found it. */
  ghost predicate WellBehaved(text: string, c: Comments) {
    && KeepsValid(text, c.lineComment) && KeepsValid(text, c.blockComment)
    && KeepsStack(c.lineComment) && KeepsStack(c.blockComment)
  }

  /** Every piece `_` chooses from keeps states valid and the stack as it was. */
  lemma PiecesKeep(text: string, c: Comments)
    requires WellBehaved(text, c)
    ensures forall i :: 0 <= i < |SpaceAlternatives(text, c)| ==>
      KeepsValid(text, SpaceAlternatives(text, c)[i]) && KeepsStack(SpaceAlternatives(text, c)[i])
  {
    ReadKeeps(text, BlankRun);
    ReadKeeps(text, NewlineChar);
    AreaReaderKeeps(text);
  }

  /** One space piece keeps states valid and the stack as it was. */
  lemma SpacePieceKeeps(text: string, c: Comments, s: State)
    requires WellBehaved(text, c)
    ensures Valid(text, s) ==>
      Valid(text, SpacePiece(text, c, s).st) && s.lines.farthest <= SpacePiece(text, c, s).st.lines.farthest
    ensures SpacePiece(text, c, s).st.stack == s.stack
  {
    var alts := SpaceAlternatives(text, c);
    var lifted := LiftAll(alts);
    PiecesKeep(text, c);
    forall i | 0 <= i < |lifted|
      ensures KeepsValid(text, lifted[i]) && KeepsStack(lifted[i])
    {
      LiftKeeps(text, alts[i]);
    }
    if Valid(text, s) {
      ChoiceKeepsValid(text, lifted, s);
    }
    ChoiceKeepsStack(lifted, s);
  }

  /** A space piece as a loop body keeps states valid and the stack. */
  lemma SpaceStepKeeps(text: string, c: Comments)
    requires WellBehaved(text, c)
    ensures KeepsValid(text, SpaceStep(text, c)) && KeepsStack(SpaceStep(text, c))
  {
    var b := SpacePieceBlock(text, c);
    forall s: State
      ensures Valid(text, s) ==> Valid(text, b(s).st) && s.lines.farthest <= b(s).st.lines.farthest
      ensures b(s).st.stack == s.stack
    {
      SpacePieceKeeps(text, c, s);
    }
    LiftKeeps(text, b);
  }

  /** `_` keeps states valid, never moves the frontier back, and leaves the
      rule stack as it found it. */
  lemma SpaceKeeps(text: string, c: Comments, s: State, fuel: nat)
    requires WellBehaved(text, c)
    ensures Valid(text, s) ==>
      Valid(text, Space(text, c, s, fuel).st) && s.lines.farthest <= Space(text, c, s, fuel).st.lines.farthest
    ensures Space(text, c, s, fuel).st.stack == s.stack
  {
    SpaceStepKeeps(text, c);
    if Valid(text, s) {
      OneOrMoreKeepsValid(text, SpaceStep(text, c), s, fuel);
    }
    OneOrMoreKeepsStack(SpaceStep(text, c), s, fuel);
  }

  /** sp keeps states valid, never moves the frontier back, and leaves the
      rule stack as it found it. */
  lemma SpKeeps(text: string, c: Comments, s: State, fuel: nat)
    requires WellBehaved(text, c)
    ensures Valid(text, s) ==>
      Valid(text, Sp(text, c, s, fuel).st) && s.lines.farthest <= Sp(text, c, s, fuel).st.lines.farthest
    ensures Sp(text, c, s, fuel).st.stack == s.stack
  {
    var b := SpaceBlock(text, c, fuel);
    forall s0: State
      ensures Valid(text, s0) ==> Valid(text, b(s0).st) && s0.lines.farthest <= b(s0).st.lines.farthest
      ensures b(s0).st.stack == s0.stack
    {
      SpaceKeeps(text, c, s0, fuel);
    }
    LiftKeeps(text, b);
    var body := SpaceBody(text, c, fuel);
    if Valid(text, s) {
      OptionalKeepsValid(text, body, s);
    }
    assert body(Entered(s)).st.stack == Entered(s).stack;
  }

  /** The separator made from a pattern keeps states valid and the stack
      as it was. */
  lemma PatternSeparatorKeeps(text: string, c: Comments, pat: Pattern, fuel: nat)
    requires WellBehaved(text, c)
    ensures KeepsValid(text, PatternSeparator(text, c, pat, fuel))
    ensures KeepsStack(PatternSeparator(text, c, pat, fuel))
  {
    var sep := PatternSeparator(text, c, pat, fuel);
    forall s: State
      ensures Valid(text, s) ==> Valid(text, sep(s).st) && s.lines.farthest <= sep(s).st.lines.farthest
      ensures sep(s).st.stack == s.stack
    {
      SpKeeps(text, c, s, fuel);
      var s1 := Sp(text, c, s, fuel).st;
      ReadKeeps(text, pat);
      assert Reader(text, pat)(s1) == Read(text, pat, s1);
      var t := Read(text, pat, s1);
      SpKeeps(text, c, t.st, fuel);
    }
  }

  /** The comment rules ParserBase defines: the '#' line comment, and a
      block comment that keeps states valid and the stack as it was. */
  lemma DefaultLineCommentWellBehaved(text: string, block: Parser<string>)
    requires KeepsValid(text, block) && KeepsStack(block)
    ensures WellBehaved(text, Comments(DefaultLineComment(text), block))
  {
    ReadKeeps(text, HashComment);
  }

  /** `separator; item` keeps what both keep. */
  lemma SepThenKeeps<U, T>(text: string, sep: Parser<U>, item: Parser<Option<T>>)
    ensures KeepsValid(text, sep) && KeepsValid(text, item) ==> KeepsValid(text, SepThen(sep, item))
    ensures KeepsStack(sep) && KeepsStack(item) ==> KeepsStack(SepThen(sep, item))
  {
    forall s: State
      ensures sep(s).Ok? ==> SepThen(sep, item)(s) == item(sep(s).st)
      ensures !sep(s).Ok? ==> SepThen(sep, item)(s).st == sep(s).st
    {
    }
  }

  /** The body of separative keeps states valid and the stack. */
  lemma SeparativeBodyKeeps<U, T>(text: string, sep: Parser<U>, allowExtra: bool, item: Parser<Option<T>>, fuel: nat, s: State)
    requires KeepsValid(text, sep) && KeepsValid(text, item)
    requires Valid(text, s)
    ensures Valid(text, SeparativeBody(sep, allowExtra, item, fuel, s).st)
    ensures s.lines.farthest <= SeparativeBody(sep, allowExtra, item, fuel, s).st.lines.farthest
  {
    SepThenKeeps(text, sep, item);
    if item(s).Ok? {
      var more := ZeroOrMore(SepThen(sep, item), item(s).st, fuel);
      ZeroOrMoreKeepsValid(text, SepThen(sep, item), item(s).st, fuel);
      if allowExtra && more.Ok? {
        LiftKeeps(text, sep);
        OptionalKeepsValid(text, Lift(sep), more.st);
      }
    }
  }

  lemma SeparativeBodyKeepsStack<U, T>(sep: Parser<U>, allowExtra: bool, item: Parser<Option<T>>, fuel: nat, s: State)
    requires KeepsStack(sep) && KeepsStack(item)
    ensures SeparativeBody(sep, allowExtra, item, fuel, s).st.stack == s.stack
  {
    SepThenKeeps("", sep, item);
    if item(s).Ok? {
      var more := ZeroOrMore(SepThen(sep, item), item(s).st, fuel);
      ZeroOrMoreKeepsStack(SepThen(sep, item), item(s).st, fuel);
      if allowExtra && more.Ok? {
        LiftKeeps("", sep);
        assert Lift(sep)(Entered(more.st)).st.stack == Entered(more.st).stack;
      }
    }
  }

  /** separative keeps states valid, never moves the frontier back, and
      leaves the rule stack as it found it, when its separator and item do. */
  lemma SeparativeKeeps<U, T>(text: string, sep: Parser<U>, allowExtra: bool, item: Parser<Option<T>>, s: State, fuel: nat)
    requires KeepsValid(text, sep) && KeepsValid(text, item)
    requires KeepsStack(sep) && KeepsStack(item)
    ensures Valid(text, s) ==>
      Valid(text, Separative(sep, allowExtra, item, s, fuel).st)
      && s.lines.farthest <= Separative(sep, allowExtra, item, s, fuel).st.lines.farthest
    ensures Separative(sep, allowExtra, item, s, fuel).st.stack == s.stack
  {
    var body := (s0: State) => SeparativeBody(sep, allowExtra, item, fuel, s0);
    forall s0: State
      ensures Valid(text, s0) ==> Valid(text, body(s0).st) && s0.lines.farthest <= body(s0).st.lines.farthest
      ensures body(s0).st.stack == s0.stack
    {
      if Valid(text, s0) {
        SeparativeBodyKeeps(text, sep, allowExtra, item, fuel, s0);
      }
      SeparativeBodyKeepsStack(sep, allowExtra, item, fuel, s0);
    }
    if Valid(text, s) {
      OptionalKeepsValid(text, body, s);
    }
    assert body(Entered(s)).st.stack == Entered(s).stack;
  }

  /** A special process for string_like that keeps states valid and the stack. */
  ghost predicate SpecialKeeps<T>(text: string, special: Option<Parser<Option<Piece<T>>>>) {
    special.Some? ==> KeepsValid(text, special.value) && KeepsStack(special.value)
  }

  lemma {:induction false} StringLikeLoopKeeps<T>(text: string, endPat: Pattern, normal: Pattern,
                                                  special: Option<Parser<Option<Piece<T>>>>,
                                                  ret: seq<Piece<T>>, str: string, s: State, fuel: nat)
    requires Finished(ret) && SpecialKeeps(text, special) && Valid(text, s)
    ensures var r := StringLikeLoop(text, endPat, normal, special, ret, str, s, fuel);
      Valid(text, r.st) && s.lines.farthest <= r.st.lines.farthest && r.st.stack == s.stack
    decreases fuel, 4
  {
    ReadKeepsValid(text, normal, s);
    var rd := Read(text, normal, s);
    if rd.Ok? {
      StringLikeRoundKeeps(text, endPat, normal, special, ret, str + rd.value, rd.st, fuel);
    }
  }

  lemma {:induction false} StringLikeRoundKeeps<T>(text: string, endPat: Pattern, normal: Pattern,
                                                   special: Option<Parser<Option<Piece<T>>>>,
                                                   ret: seq<Piece<T>>, str: string, s: State, fuel: nat)
    requires Finished(ret) && SpecialKeeps(text, special) && Valid(text, s)
    ensures var r := StringLikeRound(text, endPat, normal, special, ret, str, s, fuel);
      Valid(text, r.st) && s.lines.farthest <= r.st.lines.farthest && r.st.stack == s.stack
    decreases fuel, 3
  {
    var pk := Peek(text, endPat, s);
    PeekKeepsValid(text, endPat, s);
    if pk.Ok? && pk.value.None? && !Eos(text, pk.st) && special.Some? && fuel > 0 {
      SpecialRoundKeeps(text, endPat, normal, special, ret, str, pk.st, fuel);
    }
  }

  /** The part of a round after the end pattern was not found. */
  lemma {:induction false} SpecialRoundKeeps<T>(text: string, endPat: Pattern, normal: Pattern,
                                                special: Option<Parser<Option<Piece<T>>>>,
                                                ret: seq<Piece<T>>, str: string, s2: State, fuel: nat)
    requires Finished(ret) && SpecialKeeps(text, special) && Valid(text, s2)
    requires special.Some? && fuel > 0
    ensures var r := AfterSpecial(text, endPat, normal, special, ret, str, special.value(s2), fuel);
      Valid(text, r.st) && s2.lines.farthest <= r.st.lines.farthest && r.st.stack == s2.stack
    decreases fuel, 2
  {
    var sp := special.value(s2);
    assert Valid(text, sp.st) && s2.lines.farthest <= sp.st.lines.farthest && sp.st.stack == s2.stack;
    AfterSpecialKeeps(text, endPat, normal, special, ret, str, sp, fuel);
  }

  /** What follows the special process, from wherever it stopped. */
  lemma {:induction false} AfterSpecialKeeps<T>(text: string, endPat: Pattern, normal: Pattern,
                                                special: Option<Parser<Option<Piece<T>>>>,
                                                ret: seq<Piece<T>>, str: string, sp: Res<Option<Piece<T>>>, fuel: nat)
    requires Finished(ret) && SpecialKeeps(text, special) && Valid(text, sp.st) && fuel > 0
    ensures var r := AfterSpecial(text, endPat, normal, special, ret, str, sp, fuel);
      Valid(text, r.st) && sp.st.lines.farthest <= r.st.lines.farthest && r.st.stack == sp.st.stack
    decreases fuel, 1
  {
    match sp
    case Backtrack(_) =>
    case Raised(_) =>
    case Ok(None, _) =>
    case Ok(Some(Chunk(x)), s3) =>
      ChunkKeeps(text, endPat, normal, special, ret, str, x, s3, fuel);
    case Ok(Some(Value(v)), s3) =>
      ValueKeeps(text, endPat, normal, special, ret, str, v, s3, fuel);
  }

  /** A chunk from the special process joins the text and the loop goes on. */
  lemma {:induction false} ChunkKeeps<T>(text: string, endPat: Pattern, normal: Pattern,
                                         special: Option<Parser<Option<Piece<T>>>>,
                                         ret: seq<Piece<T>>, str: string, x: string, s3: State, fuel: nat)
    requires Finished(ret) && SpecialKeeps(text, special) && Valid(text, s3) && fuel > 0
    ensures var r := AfterSpecial(text, endPat, normal, special, ret, str, Ok(Some(Chunk(x)), s3), fuel);
      Valid(text, r.st) && s3.lines.farthest <= r.st.lines.farthest && r.st.stack == s3.stack
    decreases fuel, 0
  {
    var more: nat := fuel - 1;
    var str2 := str + x;
    StringLikeLoopKeeps(text, endPat, normal, special, ret, str2, s3, more);
  }

  /** A value from the special process closes the text and the loop goes on. */
  lemma {:induction false} ValueKeeps<T>(text: string, endPat: Pattern, normal: Pattern,
                                         special: Option<Parser<Option<Piece<T>>>>,
                                         ret: seq<Piece<T>>, str: string, v: T, s3: State, fuel: nat)
    requires Finished(ret) && SpecialKeeps(text, special) && Valid(text, s3) && fuel > 0
    ensures var r := AfterSpecial(text, endPat, normal, special, ret, str, Ok(Some(Value(v)), s3), fuel);
      Valid(text, r.st) && s3.lines.farthest <= r.st.lines.farthest && r.st.stack == s3.stack
    decreases fuel, 0
  {
    var more: nat := fuel - 1;
    var ret2 := Flush(ret, str, v);
    StringLikeLoopKeeps(text, endPat, normal, special, ret2, "", s3, more);
  }

  /** string_like keeps states valid, never moves the frontier back, and
      leaves the rule stack as it found it, when its special process does. */
  lemma StringLikeKeeps<T>(text: string, endPat: Pattern, normal: Pattern,
                           special: Option<Parser<Option<Piece<T>>>>, s: State, fuel: nat)
    requires SpecialKeeps(text, special) && Valid(text, s)
    ensures var r := StringLike(text, endPat, normal, special, s, fuel);
      Valid(text, r.st) && s.lines.farthest <= r.st.lines.farthest && r.st.stack == s.stack
  {
    StringLikeLoopKeeps(text, endPat, normal, special, [], "", s, fuel);
  }
}
