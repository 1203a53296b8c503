/** The parser core's own tests, stated on the model: a `zero_or_more`
    loop over single digits on "123a", an ordered `choice` among `/0+/`,
    `/1+/` and `/2+/` called three times on "1122a", and a number rule
    that fails on "xxx" and reports where. */
module CoreExample {
  import opened Wrappers
  import opened Scanner
  import opened ParserCore
  import LC = LineCounter
  import PE = ParserErrors
  import CE = ChainExample

  // ---------------------------------------------------------------------
  // Reading one digit
  // ---------------------------------------------------------------------

  /** `read` of a pattern that matches `n` characters from a ready state:
      exactly those characters. */
  lemma ReadHit(text: string, pat: Pattern, s: State, n: nat)
    requires CE.Ready(text, s) && MatchLen(pat, text, s.pos) == Some(n)
    ensures var r := Read(text, pat, s);
      r.Ok? && r.value == text[s.pos..s.pos + n] && r.st.pos == s.pos + n && CE.Follows(text, s, r.st)
  {
    ReadKeepsValid(text, pat, s);
    assert Accepts(text, pat, s);
  }

  /** `read(/[0-9]/)` on a digit: that digit, one character further. */
  lemma DigitHit(text: string, s: State)
    requires CE.Ready(text, s) && s.pos < |text| && CE.IsDigit(text[s.pos])
    ensures var r := Read(text, CE.Digit, s);
      r.Ok? && r.value == [text[s.pos]] && r.st.pos == s.pos + 1 && CE.Follows(text, s, r.st)
  {
    assert MatchLen(CE.Digit, text, s.pos) == Some(1);
    ReadHit(text, CE.Digit, s, 1);
    var r := Read(text, CE.Digit, s);
    assert r.value == text[s.pos..s.pos + 1] == [text[s.pos]];
  }

  /** `read(/[0-9]/)` anywhere else backtracks where it stands. */
  lemma DigitMiss(text: string, s: State)
    requires CE.Ready(text, s) && (s.pos < |text| ==> !CE.IsDigit(text[s.pos]))
    ensures var r := Read(text, CE.Digit, s);
      r.Backtrack? && r.st.pos == s.pos && CE.Follows(text, s, r.st)
  {
    ReadKeepsValid(text, CE.Digit, s);
    assert MatchLen(CE.Digit, text, s.pos) == None;
  }

  /** The loop's block, `{ read(/[0-9]/) }`; a string is always truthy. */
  function DigitBlock(text: string): Parser<Option<string>> {
    Lift(Reader(text, CE.Digit))
  }

  /** A backtrack inside `optional` with no area anywhere: nil, back at the
      entry offset, and the state is still ready. */
  lemma RolledBack<T>(text: string, p: Parser<Option<T>>, s: State)
    requires CE.Ready(text, s)
    requires p(Entered(s)).Backtrack? && p(Entered(s)).st.pos == s.pos
    requires CE.Follows(text, Entered(s), p(Entered(s)).st)
    ensures var o := Optional(p, s);
      o.Ok? && o.value.None? && o.st.pos == s.pos && CE.Follows(text, s, o.st)
  {
  }

  /** One round of the loop on a digit. */
  lemma RoundHit(text: string, s: State)
    requires CE.Ready(text, s) && s.pos < |text| && CE.IsDigit(text[s.pos])
    ensures var o := Optional(DigitBlock(text), s);
      o == Ok(Some([text[s.pos]]), o.st) && o.st.pos == s.pos + 1 && CE.Follows(text, s, o.st)
  {
    var e := Entered(s);
    DigitHit(text, e);
    assert DigitBlock(text)(e) == Truthy(Read(text, CE.Digit, e));
    CE.OptionalOfHit(text, DigitBlock(text), s);
  }

  /** One round of the loop anywhere else. */
  lemma RoundMiss(text: string, s: State)
    requires CE.Ready(text, s) && (s.pos < |text| ==> !CE.IsDigit(text[s.pos]))
    ensures var o := Optional(DigitBlock(text), s);
      o.Ok? && o.value.None? && o.st.pos == s.pos && CE.Follows(text, s, o.st)
  {
    var e := Entered(s);
    DigitMiss(text, e);
    assert DigitBlock(text)(e) == Truthy(Read(text, CE.Digit, e));
    RolledBack(text, DigitBlock(text), s);
  }

  // ---------------------------------------------------------------------
  // zero_or_more { read(/[0-9]/) }
  // ---------------------------------------------------------------------

  /** `text[i..j]` is a run of digits that stops at `j`. */
  ghost predicate DigitRun(text: string, i: nat, j: nat) {
    && i <= j <= |text|
    && (forall k :: i <= k < j ==> CE.IsDigit(text[k]))
    && (j < |text| ==> !CE.IsDigit(text[j]))
  }

  /** Each character of `str` as a one-character string, in order. */
  function Singles(str: string): (r: seq<string>)
    ensures |r| == |str|
    ensures forall i :: 0 <= i < |str| ==> r[i] == [str[i]]
  {
    seq(|str|, i requires 0 <= i < |str| => [str[i]])
  }

  lemma SinglesCons(text: string, i: nat, j: nat)
    requires i < j <= |text|
    ensures Singles(text[i..j]) == [[text[i]]] + Singles(text[i + 1..j])
  {
  }

  /** The loop over a run of digits collects the digits one by one, in
      order, and stops where the run stops: it needs one round per digit. */
  lemma {:induction false} DigitLoop(text: string, s: State, j: nat, fuel: nat)
    requires CE.Ready(text, s) && DigitRun(text, s.pos, j) && fuel >= j - s.pos
    ensures var r := ZeroOrMore(DigitBlock(text), s, fuel);
      r.Ok? && r.value == Singles(text[s.pos..j]) && r.st.pos == j && CE.Follows(text, s, r.st)
    decreases j - s.pos
  {
    var p := DigitBlock(text);
    if s.pos == j {
      if fuel > 0 {
        RoundMiss(text, s);
      }
      assert Singles(text[s.pos..j]) == [];
    } else {
      RoundHit(text, s);
      var o := Optional(p, s);
      var t := o.st;
      var more: nat := fuel - 1;
      DigitLoop(text, t, j, more);
      var rest := ZeroOrMore(p, t, more);
      CE.RoundThenRest(p, s, fuel, more, [text[s.pos]], rest.value);
      SinglesCons(text, s.pos, j);
      CE.FollowsThen(text, s, t, rest.st);
    }
  }

  /** The loop test: on "123a" the loop yields `["1", "2", "3"]` and stops
      before the `a`. */
  lemma LoopExample(text: string, fuel: nat)
    requires text == "123a" && fuel >= 3
    ensures var r := ZeroOrMore(DigitBlock(text), Fresh, fuel);
      r.Ok? && r.value == ["1", "2", "3"] && r.st.pos == 3
  {
    assert CE.Ready(text, Fresh);
    LoopText(text);
    DigitLoop(text, Fresh, 3, fuel);
  }

  /** "123a" opens with a run of three digits. */
  lemma LoopText(text: string)
    requires text == "123a"
    ensures DigitRun(text, 0, 3) && Singles(text[0..3]) == ["1", "2", "3"]
  {
    var ds := Singles(text[0..3]);
    assert ds[0] == "1" && ds[1] == "2" && ds[2] == "3";
  }

  // ---------------------------------------------------------------------
  // choice(->{ read(/0+/) }, ->{ read(/1+/) }, ->{ read(/2+/) })
  // ---------------------------------------------------------------------

  function Same(c: char): char -> bool {
    ch => ch == c
  }

  /** The pattern `/c+/`. */
  function Run(c: char): Pattern {
    Rx([c, '+'], ClassPlus(Same(c)))
  }

  /** `text[i..i+n]` is a run of `c` that stops there. */
  ghost predicate RunOf(text: string, c: char, i: nat, n: nat) {
    && i + n <= |text|
    && (forall k :: i <= k < i + n ==> text[k] == c)
    && (i + n < |text| ==> text[i + n] != c)
  }

  /** `read(/c+/)` on a run of `c`: the whole run. */
  lemma RunHit(text: string, c: char, s: State, n: nat)
    requires CE.Ready(text, s) && n > 0 && RunOf(text, c, s.pos, n)
    ensures var r := Read(text, Run(c), s);
      r.Ok? && r.value == text[s.pos..s.pos + n] && r.st.pos == s.pos + n && CE.Follows(text, s, r.st)
  {
    RunLenExact(text, s.pos, n, Same(c));
    assert MatchLen(Run(c), text, s.pos) == Some(n);
    ReadHit(text, Run(c), s, n);
  }

  /** A run of `n` characters of a class, followed by one outside it or by
      the end of the text, has length `n`. */
  lemma {:induction false} RunLenExact(text: string, i: nat, n: nat, ok: char -> bool)
    requires i + n <= |text| && (forall k :: i <= k < i + n ==> ok(text[k]))
    requires i + n < |text| ==> !ok(text[i + n])
    ensures RunLen(text, i, ok) == n
    decreases n
  {
    if n > 0 {
      RunLenExact(text, i + 1, n - 1, ok);
    }
  }

  /** `read(/c+/)` where no `c` stands backtracks where it stands. */
  lemma RunMiss(text: string, c: char, s: State)
    requires CE.Ready(text, s) && (s.pos < |text| ==> text[s.pos] != c)
    ensures var r := Read(text, Run(c), s);
      r.Backtrack? && r.st.pos == s.pos && CE.Follows(text, s, r.st)
  {
    ReadKeepsValid(text, Run(c), s);
    assert RunLen(text, s.pos, Same(c)) == 0;
    assert MatchLen(Run(c), text, s.pos) == None;
  }

  /** The alternative `->{ read(/c+/) }`. */
  function Alt(text: string, c: char): Parser<Option<string>> {
    Lift(Reader(text, Run(c)))
  }

  function Alts(text: string): seq<Parser<Option<string>>> {
    [Alt(text, '0'), Alt(text, '1'), Alt(text, '2')]
  }

  lemma AltHit(text: string, c: char, s: State, n: nat)
    requires CE.Ready(text, s) && n > 0 && RunOf(text, c, s.pos, n)
    ensures var o := Optional(Alt(text, c), s);
      o == Ok(Some(text[s.pos..s.pos + n]), o.st) && o.st.pos == s.pos + n && CE.Follows(text, s, o.st)
  {
    var e := Entered(s);
    RunHit(text, c, e, n);
    assert Alt(text, c)(e) == Truthy(Read(text, Run(c), e));
    CE.OptionalOfHit(text, Alt(text, c), s);
  }

  lemma AltMiss(text: string, c: char, s: State)
    requires CE.Ready(text, s) && (s.pos < |text| ==> text[s.pos] != c)
    ensures var o := Optional(Alt(text, c), s);
      o.Ok? && o.value.None? && o.st.pos == s.pos && CE.Follows(text, s, o.st)
  {
    var e := Entered(s);
    RunMiss(text, c, e);
    assert Alt(text, c)(e) == Truthy(Read(text, Run(c), e));
    RolledBack(text, Alt(text, c), s);
  }

  /** A choice whose first alternative yields nil goes on with the rest
      from where that alternative left off. */
  lemma SkipMiss<T>(alts: seq<Parser<Option<T>>>, rest: seq<Parser<Option<T>>>, s: State)
    requires |alts| > 0 && rest == alts[1..]
    requires Optional(alts[0], s).Ok? && Optional(alts[0], s).value.None?
    ensures Choice(alts, s) == Choice(rest, Optional(alts[0], s).st)
  {
  }

  lemma Tails<T>(a: T, b: T, c: T)
    ensures [a, b, c][1..] == [b, c] && [b, c][1..] == [c] && [c][1..] == []
  {
  }

  /** "1122a", character by character. */
  ghost predicate ChoiceText(text: string) {
    && |text| == 5
    && text[0] == '1' && text[1] == '1' && text[2] == '2' && text[3] == '2' && text[4] == 'a'
  }

  /** Past `/0+/` where no `0` stands: the choice goes on with the
      other two alternatives from the same offset. */
  lemma PastZero(text: string, s: State) returns (t: State)
    requires CE.Ready(text, s) && (s.pos < |text| ==> text[s.pos] != '0')
    ensures Choice(Alts(text), s) == Choice([Alt(text, '1'), Alt(text, '2')], t)
    ensures t.pos == s.pos && CE.Follows(text, s, t)
  {
    var a0, a1, a2 := Alt(text, '0'), Alt(text, '1'), Alt(text, '2');
    Tails(a0, a1, a2);
    AltMiss(text, '0', s);
    t := Optional(a0, s).st;
    SkipMiss(Alts(text), [a1, a2], s);
  }

  /** Past `/1+/` where no `1` stands: only `/2+/` is left. */
  lemma PastOne(text: string, t: State) returns (u: State)
    requires CE.Ready(text, t) && (t.pos < |text| ==> text[t.pos] != '1')
    ensures Choice([Alt(text, '1'), Alt(text, '2')], t) == Choice([Alt(text, '2')], u)
    ensures u.pos == t.pos && CE.Follows(text, t, u)
  {
    var a1, a2 := Alt(text, '1'), Alt(text, '2');
    Tails(a1, a1, a2);
    AltMiss(text, '1', t);
    u := Optional(a1, t).st;
    SkipMiss([a1, a2], [a2], t);
  }

  /** The two runs of "1122a". */
  lemma RunsOf(text: string)
    requires ChoiceText(text)
    ensures RunOf(text, '1', 0, 2) && RunOf(text, '2', 2, 2)
    ensures text[0..2] == "11" && text[2..4] == "22"
  {
  }

  /** The first call: `/0+/` misses, `/1+/` reads "11". */
  lemma FirstCall(text: string, s: State)
    requires ChoiceText(text) && CE.Ready(text, s) && s.pos == 0
    ensures var r := Choice(Alts(text), s);
      r.Ok? && r.value == "11" && r.st.pos == 2 && CE.Follows(text, s, r.st)
  {
    AltMiss(text, '0', s);
    var t := Optional(Alt(text, '0'), s).st;
    RunsOf(text);
    AltHit(text, '1', t, 2);
    SecondHits(text, Alts(text), s);
  }

  /** A choice whose first alternative yields nil and whose second yields
      a value returns that value, from a ready state to a following one. */
  lemma SecondHits<T>(text: string, alts: seq<Parser<Option<T>>>, s: State)
    requires |alts| >= 2 && CE.Ready(text, s)
    requires var o := Optional(alts[0], s); o.Ok? && o.value.None? && CE.Follows(text, s, o.st)
    requires var t := Optional(alts[0], s).st; var o := Optional(alts[1], t);
      o.Ok? && o.value.Some? && CE.Follows(text, t, o.st)
    ensures var t := Optional(alts[0], s).st; var o := Optional(alts[1], t);
      Choice(alts, s) == Ok(o.value.value, o.st) && CE.Follows(text, s, o.st)
  {
    var t := Optional(alts[0], s).st;
    var rest := alts[1..];
    assert rest[0] == alts[1];
    CE.FollowsThen(text, s, t, Optional(alts[1], t).st);
  }

  /** A choice whose first alternative yields a value returns it. */
  lemma FirstHits<T>(alts: seq<Parser<Option<T>>>, s: State)
    requires |alts| > 0 && Optional(alts[0], s).Ok? && Optional(alts[0], s).value.Some?
    ensures Choice(alts, s) == Ok(Optional(alts[0], s).value.value, Optional(alts[0], s).st)
  {
  }

  /** The second call: `/0+/` and `/1+/` miss, `/2+/` reads "22". */
  lemma SecondCall(text: string, s: State)
    requires ChoiceText(text) && CE.Ready(text, s) && s.pos == 2
    ensures var r := Choice(Alts(text), s);
      r.Ok? && r.value == "22" && r.st.pos == 4 && CE.Follows(text, s, r.st)
  {
    var t := PastZero(text, s);
    var u := PastOne(text, t);
    RunsOf(text);
    AltHit(text, '2', u, 2);
    FirstHits([Alt(text, '2')], u);
    CE.FollowsThen(text, s, t, u);
    CE.FollowsThen(text, s, u, Optional(Alt(text, '2'), u).st);
  }

  /** The third call: every alternative misses, so the choice backtracks. */
  lemma ThirdCall(text: string, s: State)
    requires ChoiceText(text) && CE.Ready(text, s) && s.pos == 4
    ensures Choice(Alts(text), s).Backtrack?
  {
    var a2 := Alt(text, '2');
    var t := PastZero(text, s);
    var u := PastOne(text, t);
    AltMiss(text, '2', u);
    assert [a2][1..] == [];
    SkipMiss([a2], [], u);
  }

  /** The choice test: on "1122a" three calls give "11", then "22", then a
      backtrack. */
  lemma ChoiceExample(text: string)
    requires text == "1122a"
    ensures var r1 := Choice(Alts(text), Fresh);
      var r2 := Choice(Alts(text), r1.st);
      && r1.Ok? && r1.value == "11"
      && r2.Ok? && r2.value == "22"
      && Choice(Alts(text), r2.st).Backtrack?
  {
    assert ChoiceText(text);
    assert CE.Ready(text, Fresh);
    FirstCall(text, Fresh);
    var t := Choice(Alts(text), Fresh).st;
    SecondCall(text, t);
    ThirdCall(text, Choice(Alts(text), t).st);
  }

  // ---------------------------------------------------------------------
  // A rule that fails at its first read
  // ---------------------------------------------------------------------

  /** The digits of a number, `one_or_more { read(/[0-9]/) }`. */
  function Digits(text: string, fuel: nat): Parser<seq<Option<string>>> {
    s => OneOrMore(DigitBlock(text), s, fuel)
  }

  /** The decimal part, `optional { read('.'); one_or_more { read(/[0-9]/) } }`;
      an array is always truthy. */
  function Decimal(text: string, fuel: nat): Parser<Option<seq<Option<string>>>> {
    s => match Read(text, Lit("."), s)
      case Ok(_, t) => Truthy(Digits(text, fuel)(t))
      case Backtrack(t) => Backtrack(t)
      case Raised(t) => Raised(t)
  }

  /** The body of the number rule: `[int_part, decimal_part]`. */
  function Number(text: string, fuel: nat): Parser<(seq<Option<string>>, Option<seq<Option<string>>>)> {
    s => match Digits(text, fuel)(s)
      case Ok(whole, t) => (
        match Optional(Decimal(text, fuel), t)
        case Ok(part, u) => Ok((whole, part), u)
        case Backtrack(u) => Backtrack(u)
        case Raised(u) => Raised(u))
      case Backtrack(t) => Backtrack(t)
      case Raised(t) => Raised(t)
  }

  /** The number rule on "xxx" backtracks, and the one error kept is the
      rule's frame over the digit pattern, both at line 0, column 0. */
  lemma NumberMiss(text: string, fuel: nat)
    requires text == "xxx"
    ensures var r := Rule("test", Number(text, fuel), Fresh);
      && r.Backtrack? && r.st.pos == 0
      && BestErrors(r.st) == [[((0, 0), PE.Sym("test")), ((0, 0), PE.Regex("[0-9]"))]]
  {
    var t := Push(Fresh, PE.Sym("test"));
    var miss := FirstDigitMiss(text, fuel, t);
    var rec := [PE.Entry(0, PE.Sym("test")), PE.Entry(0, PE.Regex("[0-9]"))];
    FirstRecord(t, rec);
    var r := Rule("test", Number(text, fuel), Fresh);
    assert r == Backtrack(Pop(miss.st));
    Reported(r.st, rec);
  }

  /** The number body backtracks on a non-digit, where the digit read left it. */
  lemma FirstDigitMiss(text: string, fuel: nat, t: State) returns (miss: Res<string>)
    requires CE.Ready(text, t) && t.pos < |text| && !CE.IsDigit(text[t.pos])
    ensures miss == Read(text, CE.Digit, t) && miss.Backtrack?
    ensures miss.st.lines == t.lines
    ensures Number(text, fuel)(t) == Backtrack(miss.st)
  {
    DigitMiss(text, t);
    miss := Read(text, CE.Digit, t);
    assert Peek(text, CE.Digit, t) == Ok(None, t);
    assert DigitBlock(text)(t) == Truthy(miss);
    var d := Digits(text, fuel)(t);
    assert d == OneOrMore(DigitBlock(text), t, fuel);
    assert d.Backtrack? && d.st == miss.st;
  }

  /** The first failure saved at offset 0 under the rule's frame. */
  lemma FirstRecord(t: State, rec: seq<PE.Entry>)
    requires t.pos == 0 && t.errors == PE.Init && t.stack == [PE.Entry(0, PE.Sym("test"))]
    requires rec == [PE.Entry(0, PE.Sym("test")), PE.Entry(0, PE.Regex("[0-9]"))]
    ensures PE.SaveError(t.errors, t.pos, t.stack, ReasonOf(CE.Digit)) == PE.Errors(0, [rec])
  {
    assert ReasonOf(CE.Digit) == PE.Regex("[0-9]");
    assert t.stack + [PE.Entry(0, PE.Regex("[0-9]"))] == rec;
    assert PE.Init.records + [rec] == [rec];
  }

  /** best_errors with that one record and no line seen beyond the first:
      both frames at line 0, column 0. */
  lemma Reported(st: State, rec: seq<PE.Entry>)
    requires rec == [PE.Entry(0, PE.Sym("test")), PE.Entry(0, PE.Regex("[0-9]"))]
    requires st.errors == PE.Errors(0, [rec]) && st.lines == LC.Init
    ensures BestErrors(st) == [[((0, 0), PE.Sym("test")), ((0, 0), PE.Regex("[0-9]"))]]
  {
    KeptAlone(rec);
    OneReport(st, rec);
    Origin();
  }

  /** best_errors when the tracker keeps a single two-frame record: each
      frame's offset as (line, column), with its reason. */
  lemma OneReport(st: State, rec: seq<PE.Entry>)
    requires |rec| == 2 && PE.BestErrors(st.errors) == [rec]
    ensures BestErrors(st) == [[(LC.Position(st.lines, rec[0].pos), rec[0].reason),
                                (LC.Position(st.lines, rec[1].pos), rec[1].reason)]]
  {
    var b := BestErrors(st);
    assert |b| == 1 && |b[0]| == 2;
    assert b[0][0] == (LC.Position(st.lines, rec[0].pos), rec[0].reason);
    assert b[0][1] == (LC.Position(st.lines, rec[1].pos), rec[1].reason);
    assert b[0] == [b[0][0], b[0][1]];
  }

  lemma Origin()
    ensures LC.Position(LC.Init, 0) == (0, 0)
  {
  }

  /** The only record, two frames neither of them `:optional`, is kept
      whole. */
  lemma KeptAlone(rec: seq<PE.Entry>)
    requires |rec| == 2 && rec[0].reason != PE.OptionalTag && rec[1].reason != PE.OptionalTag
    ensures PE.BestErrors(PE.Errors(0, [rec])) == [rec]
  {
    OnlyIndex(rec);
    TrimmedWhole(rec);
    var b := PE.BestErrors(PE.Errors(0, [rec]));
    assert |b| == 1 && b[0] == PE.Trim(rec);
  }

  /** A single record is the best one. */
  lemma OnlyIndex(rec: seq<PE.Entry>)
    ensures PE.BestIndices(PE.Errors(0, [rec])) == [0]
  {
    var recs := [rec];
    assert PE.NextBest(recs, 0, []) == [0];
    assert PE.PickBest(recs, 1, [0]) == [0];
  }

  /** Two frames, neither of them `:optional`, survive the trim. */
  lemma TrimmedWhole(rec: seq<PE.Entry>)
    requires |rec| == 2 && rec[0].reason != PE.OptionalTag && rec[1].reason != PE.OptionalTag
    ensures PE.Trim(rec) == rec
  {
    var a, b := [rec[0]], [rec[1]];
    PE.NonOptionalAppend(a, b);
    PE.NonOptionalAppend(b, []);
    assert PE.NonOptional(a) == a && PE.NonOptional(b) == b;
    assert a + b == rec;
    assert PE.NonOptional(rec) == rec;
  }
}
