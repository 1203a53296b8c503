/** The cursor's raw matching: a pattern is either a literal string or an
    opaque regular-expression matcher, anchored at the current offset (the
    behaviour of StringScanner#match? that the engine relies on). */
module Scanner {
  import opened Wrappers

  /** An anchored matcher: given the text and an offset it reports the length
      of the match starting there, if any. A match never runs past the text. */
  type Matcher = m: (string, nat) -> Option<nat>
    | forall t: string, p: nat :: m(t, p).Some? ==> p + m(t, p).value <= |t|
    witness (t: string, p: nat) => None

  /** A String pattern or a Regexp pattern (`source` is its printed form). */
  datatype Pattern = Lit(s: string) | Rx(source: string, m: Matcher)

  /** Does `text` contain `lit` starting at offset `pos`? */
  predicate StartsWithAt(text: string, pos: nat, lit: string) {
    pos + |lit| <= |text| && text[pos..pos + |lit|] == lit
  }

  /** Length of the match of `pat` at `pos` (StringScanner#match?). */
  function MatchLen(pat: Pattern, text: string, pos: nat): (r: Option<nat>)
    ensures r.Some? ==> pos + r.value <= |text|
    ensures pat.Lit? ==> (r.Some? <==> StartsWithAt(text, pos, pat.s))
    ensures pat.Lit? && r.Some? ==> r.value == |pat.s|
  {
    match pat
    case Lit(s) => if StartsWithAt(text, pos, s) then Some(|s|) else None
    case Rx(_, m) => m(text, pos)
  }

  /** `text[i, len]` as StringScanner#peek returns it: clipped to the text. */
  function Substr(text: string, i: nat, len: nat): (r: string)
    ensures i + len <= |text| ==> r == text[i..i + len]
    ensures |r| <= len
  {
    if i >= |text| then []
    else if i + len <= |text| then text[i..i + len]
    else text[i..]
  }

  // ---------------------------------------------------------------------
  // Concrete character-class matchers, enough to write the regular
  // expressions that the derived rules and the examples use.
  // ---------------------------------------------------------------------

  /** Length of the longest run of characters satisfying `ok` from `pos`. */
  function RunLen(text: string, pos: nat, ok: char -> bool): (n: nat)
    ensures pos + n <= |text| || n == 0
    ensures forall k :: pos <= k < pos + n ==> ok(text[k])
    ensures pos + n < |text| ==> !ok(text[pos + n])
    decreases |text| - pos
  {
    if pos < |text| && ok(text[pos]) then 1 + RunLen(text, pos + 1, ok) else 0
  }

  /** `[cls]` : exactly one character of the class. */
  function ClassOne(ok: char -> bool): Matcher {
    (t: string, p: nat) => if p < |t| && ok(t[p]) then Some(1) else None
  }

  /** `[cls]+` : a non-empty run of the class. */
  function ClassPlus(ok: char -> bool): Matcher {
    (t: string, p: nat) => var n := RunLen(t, p, ok); if n > 0 then Some(n) else None
  }

  /** `[cls]*` : a possibly empty run of the class (fails only past the end). */
  function ClassStar(ok: char -> bool): Matcher {
    (t: string, p: nat) => if p <= |t| then Some(RunLen(t, p, ok)) else None
  }

  /** `c?` : one optional occurrence of the character `c`. */
  function MaybeChar(c: char): Matcher {
    (t: string, p: nat) =>
      if p < |t| && t[p] == c then Some(1) else if p <= |t| then Some(0) else None
  }

  /** `X[cls]*` : the character `first` followed by a run of the class. */
  function LeadRun(first: char, ok: char -> bool): Matcher {
    (t: string, p: nat) => if p < |t| && t[p] == first then Some(1 + RunLen(t, p + 1, ok)) else None
  }

  predicate NotNewline(c: char) { c != '\n' }

  /** `.*\n` : the rest of the current line including its terminator. */
  function RestOfLineMatcher(): Matcher {
    (t: string, p: nat) =>
      var n := RunLen(t, p, NotNewline);
      if p + n < |t| && t[p + n] == '\n' then Some(n + 1) else None
  }

  /** The pattern `/.*\n/` that borrow_next_line reads to reach the next line. */
  const RestOfLine: Pattern := Rx(".*\\n", RestOfLineMatcher())

  lemma RestOfLineEndsLine(text: string, pos: nat)
    requires MatchLen(RestOfLine, text, pos).Some?
    ensures var n := MatchLen(RestOfLine, text, pos).value;
      n >= 1 && text[pos + n - 1] == '\n'
      && forall k :: pos <= k < pos + n - 1 ==> text[k] != '\n'
  {
  }
}
