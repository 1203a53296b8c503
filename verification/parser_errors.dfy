/** Farthest-failure error tracker (Pegparse::ParserErrors). Only failures at
    the farthest offset reached are retained; among them, the ones whose
    `:optional` frames started latest are reported as the best errors. */
module ParserErrors {

  /** A rule-stack frame or error location: the Ruby `[pos, reason]` pair.
      A reason is a Symbol (a rule name, or `:optional` for the frames that
      `optional` pushes), a String pattern or a Regexp pattern. */
  datatype Reason = Sym(name: string) | Str(s: string) | Regex(source: string)
  datatype Entry = Entry(pos: nat, reason: Reason)

  const OptionalTag: Reason := Sym("optional")

  /** `farthest_pos` and `farthest_errors`; each retained record is a copy of
      the rule stack followed by the failing `{pos, reason}`. */
  datatype Errors = Errors(farthest: nat, records: seq<seq<Entry>>)

  const Init: Errors := Errors(0, [])

  /** Every retained record is non-empty and ends at the farthest offset. */
  ghost predicate Valid(e: Errors) {
    forall k :: 0 <= k < |e.records| ==>
      |e.records[k]| > 0 && e.records[k][|e.records[k]| - 1].pos == e.farthest
  }

  /** save_error(pos, rule_stack, reason). */
  function SaveError(e: Errors, pos: nat, stack: seq<Entry>, reason: Reason): (r: Errors)
    ensures pos < e.farthest ==> r == e
    ensures pos >= e.farthest ==> r.farthest == pos
    ensures pos > e.farthest ==> r.records == [stack + [Entry(pos, reason)]]
    ensures pos == e.farthest ==> r.records == e.records + [stack + [Entry(pos, reason)]]
  {
    if pos < e.farthest then e
    else
      var kept := if pos > e.farthest then [] else e.records;
      Errors(pos, kept + [stack + [Entry(pos, reason)]])
  }

  /** The retained records always sit at the farthest offset. */
  lemma SaveErrorKeepsValid(e: Errors, pos: nat, stack: seq<Entry>, reason: Reason)
    requires Valid(e)
    ensures Valid(SaveError(e, pos, stack, reason))
    ensures SaveError(e, pos, stack, reason).farthest >= e.farthest
  {
  }

  /** Each saved record is the rule stack followed by the failure itself. */
  lemma SaveErrorRecordShape(e: Errors, pos: nat, stack: seq<Entry>, reason: Reason)
    requires pos >= e.farthest
    ensures var r := SaveError(e, pos, stack, reason);
      var rec := r.records[|r.records| - 1];
      |rec| == |stack| + 1 && rec[..|stack|] == stack && rec[|stack|] == Entry(pos, reason)
  {
  }

  /** clear_errors: back to the initial tracker. */
  function ClearErrors(e: Errors): (r: Errors)
    ensures r.farthest == 0 && |r.records| == 0
  {
    Init
  }

  // ---------------------------------------------------------------------
  // Choosing the best errors
  // ---------------------------------------------------------------------

  /** Offsets at which the `:optional` frames of a record started. */
  function OptionalStarts(rec: seq<Entry>): (r: seq<nat>)
    ensures |r| <= |rec|
    ensures forall p :: p in r <==> exists x :: x in rec && x.reason == OptionalTag && x.pos == p
  {
    if |rec| == 0 then []
    else (if rec[0].reason == OptionalTag then [rec[0].pos] else []) + OptionalStarts(rec[1..])
  }

  /** The optional starts of a record are read frame by frame, in stack
      order: a one-frame record gives its offset exactly when the frame is
      an `:optional` one, and a record split in two gives the starts of the
      first part followed by those of the second. */
  lemma {:induction false} OptionalStartsAppend(a: seq<Entry>, b: seq<Entry>)
    ensures OptionalStarts(a + b) == OptionalStarts(a) + OptionalStarts(b)
    ensures |a| == 1 ==> OptionalStarts(a) == if a[0].reason == OptionalTag then [a[0].pos] else []
  {
    if |a| > 0 {
      assert (a + b)[1..] == a[1..] + b;
      OptionalStartsAppend(a[1..], b);
    } else {
      assert a + b == b;
    }
  }

  /** compare_optional_memo on the two lists of optional starts: -1 when `a`
      is the better one, 1 when `b` is, 0 when they are equal. */
  function CompareOptional(a: seq<nat>, b: seq<nat>): (r: int)
    ensures -1 <= r <= 1
  {
    if |a| == 0 || |b| == 0 then
      (if |a| < |b| then -1 else if |a| > |b| then 1 else 0)
    else if a[0] > b[0] then -1
    else if a[0] < b[0] then 1
    else CompareOptional(a[1..], b[1..])
  }

  /** The first differing position decides: the later optional start wins. */
  lemma {:induction false} CompareFirstDifference(a: seq<nat>, b: seq<nat>, i: nat)
    requires i < |a| && i < |b| && a[..i] == b[..i] && a[i] != b[i]
    ensures CompareOptional(a, b) == (if a[i] > b[i] then -1 else 1)
  {
    if i > 0 {
      assert a[0] == a[..i][0] == b[..i][0] == b[0];
      assert a[1..][..i - 1] == a[..i][1..] == b[..i][1..] == b[1..][..i - 1];
      CompareFirstDifference(a[1..], b[1..], i - 1);
    }
  }

  /** On a common prefix, the shorter list wins. */
  lemma {:induction false} ComparePrefix(a: seq<nat>, b: seq<nat>)
    requires |a| <= |b| && b[..|a|] == a
    ensures CompareOptional(a, b) == (if |a| < |b| then -1 else 0)
  {
    if |a| > 0 {
      assert a[0] == b[0];
      assert b[1..][..|a| - 1] == a[1..];
      ComparePrefix(a[1..], b[1..]);
    }
  }

  /** The comparison is 0 only for identical lists. */
  lemma {:induction false} CompareZeroIffEqual(a: seq<nat>, b: seq<nat>)
    ensures CompareOptional(a, b) == 0 <==> a == b
  {
    if |a| > 0 && |b| > 0 && a[0] == b[0] {
      CompareZeroIffEqual(a[1..], b[1..]);
      assert a == [a[0]] + a[1..] && b == [b[0]] + b[1..];
    }
  }

  /** The comparison is antisymmetric. */
  lemma {:induction false} CompareAntisymmetric(a: seq<nat>, b: seq<nat>)
    ensures CompareOptional(a, b) == -CompareOptional(b, a)
  {
    if |a| > 0 && |b| > 0 && a[0] == b[0] {
      CompareAntisymmetric(a[1..], b[1..]);
    }
  }

  /** "At least as good as" is transitive. */
  lemma {:induction false} CompareTransitive(a: seq<nat>, b: seq<nat>, c: seq<nat>)
    requires CompareOptional(a, b) <= 0 && CompareOptional(b, c) <= 0
    ensures CompareOptional(a, c) <= 0
  {
    if |a| > 0 && |b| > 0 && |c| > 0 && a[0] == b[0] == c[0] {
      CompareTransitive(a[1..], b[1..], c[1..]);
    }
  }

  /** Strictly better, then at least as good, is strictly better. */
  lemma {:induction false} CompareStrictTransitive(a: seq<nat>, b: seq<nat>, c: seq<nat>)
    requires CompareOptional(a, b) < 0 && CompareOptional(b, c) <= 0
    ensures CompareOptional(a, c) < 0
  {
    CompareTransitive(a, b, c);
    CompareZeroIffEqual(a, c);
    CompareZeroIffEqual(a, b);
    if a == c {
      CompareAntisymmetric(a, b);
    }
  }

  /** One iteration of the loop of best_errors over record `k`: `best`
      holds the indices tied with the best record seen so far. */
  function NextBest(recs: seq<seq<Entry>>, k: nat, best: seq<nat>): (r: seq<nat>)
    requires k < |recs|
    requires forall i :: 0 <= i < |best| ==> best[i] < |recs|
    ensures forall i :: 0 <= i < |r| ==> r[i] < |recs|
  {
    if |best| == 0 then [k]
    else
      var cmp := CompareOptional(OptionalStarts(recs[k]), OptionalStarts(recs[best[0]]));
      if cmp < 0 then [k]
      else if cmp == 0 then best + [k]
      else best
  }

  /** The loop of best_errors from record `k` on. */
  function PickBest(recs: seq<seq<Entry>>, k: nat, best: seq<nat>): (r: seq<nat>)
    requires k <= |recs|
    requires forall i :: 0 <= i < |best| ==> best[i] < |recs|
    ensures forall i :: 0 <= i < |r| ==> r[i] < |recs|
    decreases |recs| - k
  {
    if k == |recs| then best else PickBest(recs, k + 1, NextBest(recs, k, best))
  }

  /** `stack.select { reason != :optional }.last(2)`. */
  function Trim(rec: seq<Entry>): (r: seq<Entry>)
    ensures |r| == if |NonOptional(rec)| < 2 then |NonOptional(rec)| else 2
    ensures r == NonOptional(rec)[|NonOptional(rec)| - |r|..]
  {
    var plain := NonOptional(rec);
    if |plain| <= 2 then plain else plain[|plain| - 2..]
  }

  /** `stack.select { reason != :optional }`. */
  function NonOptional(rec: seq<Entry>): (r: seq<Entry>)
    ensures |r| <= |rec|
    ensures forall x :: x in r <==> x in rec && x.reason != OptionalTag
  {
    if |rec| == 0 then []
    else (if rec[0].reason != OptionalTag then [rec[0]] else []) + NonOptional(rec[1..])
  }

  /** The frames kept by the filter stay in stack order: a one-frame record
      keeps its frame exactly when it is not `:optional`, and a record split
      in two is filtered part by part. */
  lemma {:induction false} NonOptionalAppend(a: seq<Entry>, b: seq<Entry>)
    ensures NonOptional(a + b) == NonOptional(a) + NonOptional(b)
    ensures |a| == 1 ==> NonOptional(a) == if a[0].reason != OptionalTag then a else []
  {
    if |a| > 0 {
      var head := if a[0].reason != OptionalTag then [a[0]] else [];
      var tail := a[1..];
      var ab := a + b;
      assert ab[0] == a[0] && ab[1..] == tail + b;
      assert NonOptional(ab) == head + NonOptional(tail + b);
      assert NonOptional(a) == head + NonOptional(tail);
      NonOptionalAppend(tail, b);
      assert head + (NonOptional(tail) + NonOptional(b)) == (head + NonOptional(tail)) + NonOptional(b);
      if |a| == 1 {
        assert tail == [];
        assert head + [] == head;
      }
    } else {
      assert a + b == b;
    }
  }

  /** The indices best_errors selects, in insertion order. */
  function BestIndices(e: Errors): (r: seq<nat>)
    ensures forall i :: 0 <= i < |r| ==> r[i] < |e.records|
  {
    PickBest(e.records, 0, [])
  }

  function Opts(recs: seq<seq<Entry>>, i: nat): seq<nat>
    requires i < |recs|
  {
    OptionalStarts(recs[i])
  }

  /** Record `i` is at least as good as every retained record. */
  ghost predicate IsBest(recs: seq<seq<Entry>>, i: nat)
    requires i < |recs|
  {
    forall j :: 0 <= j < |recs| ==> CompareOptional(Opts(recs, i), Opts(recs, j)) <= 0
  }

  /** What the loop of best_errors knows after looking at `recs[..k]`. */
  ghost predicate PickInv(recs: seq<seq<Entry>>, k: nat, best: seq<nat>)
    requires k <= |recs|
  {
    && (|best| > 0 <==> k > 0)
    && (forall i :: 0 <= i < |best| ==> best[i] < k)
    && (forall i, j :: 0 <= i < j < |best| ==> best[i] < best[j])
    && (|best| > 0 ==> TiedWithHead(recs, best) && HeadBeats(recs, k, best) && HasAllTied(recs, k, best))
  }

  ghost predicate TiedWithHead(recs: seq<seq<Entry>>, best: seq<nat>)
    requires 0 < |best|
    requires forall i :: 0 <= i < |best| ==> best[i] < |recs|
  {
    forall i :: 0 <= i < |best| ==> Opts(recs, best[i]) == Opts(recs, best[0])
  }

  ghost predicate HeadBeats(recs: seq<seq<Entry>>, k: nat, best: seq<nat>)
    requires k <= |recs| && 0 < |best| && best[0] < |recs|
  {
    forall j :: 0 <= j < k ==> CompareOptional(Opts(recs, best[0]), Opts(recs, j)) <= 0
  }

  ghost predicate HasAllTied(recs: seq<seq<Entry>>, k: nat, best: seq<nat>)
    requires k <= |recs| && 0 < |best| && best[0] < |recs|
  {
    forall j :: 0 <= j < k && Opts(recs, j) == Opts(recs, best[0]) ==> j in best
  }

  lemma PickStepFirst(recs: seq<seq<Entry>>, k: nat)
    requires k < |recs|
    requires PickInv(recs, k, [])
    ensures PickInv(recs, k + 1, NextBest(recs, k, []))
  {
    assert k == 0;
    assert NextBest(recs, k, []) == [0];
    CompareZeroIffEqual(Opts(recs, 0), Opts(recs, 0));
    assert HeadBeats(recs, 1, [0]);
    assert HasAllTied(recs, 1, [0]);
  }

  lemma PickStepBetter(recs: seq<seq<Entry>>, k: nat, best: seq<nat>)
    requires k < |recs| && |best| > 0
    requires PickInv(recs, k, best)
    requires CompareOptional(Opts(recs, k), Opts(recs, best[0])) < 0
    ensures PickInv(recs, k + 1, [k])
  {
    var ok := Opts(recs, k);
    var ob := Opts(recs, best[0]);
    CompareZeroIffEqual(ok, ok);
    forall j | 0 <= j < k
      ensures CompareOptional(ok, Opts(recs, j)) < 0 && Opts(recs, j) != ok
    {
      CompareStrictTransitive(ok, ob, Opts(recs, j));
      CompareZeroIffEqual(ok, Opts(recs, j));
    }
    assert HeadBeats(recs, k + 1, [k]);
    assert HasAllTied(recs, k + 1, [k]);
  }

  lemma PickStepTie(recs: seq<seq<Entry>>, k: nat, best: seq<nat>)
    requires k < |recs| && |best| > 0
    requires PickInv(recs, k, best)
    requires CompareOptional(Opts(recs, k), Opts(recs, best[0])) == 0
    ensures PickInv(recs, k + 1, best + [k])
  {
    var ok := Opts(recs, k);
    var ob := Opts(recs, best[0]);
    CompareZeroIffEqual(ok, ob);
    CompareZeroIffEqual(ob, ob);
    assert (best + [k])[0] == best[0];
  }

  lemma PickStepWorse(recs: seq<seq<Entry>>, k: nat, best: seq<nat>)
    requires k < |recs| && |best| > 0
    requires PickInv(recs, k, best)
    requires CompareOptional(Opts(recs, k), Opts(recs, best[0])) > 0
    ensures PickInv(recs, k + 1, best)
  {
    var ok := Opts(recs, k);
    var ob := Opts(recs, best[0]);
    CompareZeroIffEqual(ok, ob);
    CompareAntisymmetric(ok, ob);
  }

  lemma {:induction false} PickBestCorrect(recs: seq<seq<Entry>>, k: nat, best: seq<nat>)
    requires k <= |recs|
    requires PickInv(recs, k, best)
    ensures PickInv(recs, |recs|, PickBest(recs, k, best))
    decreases |recs| - k
  {
    if k < |recs| {
      if |best| == 0 {
        PickStepFirst(recs, k);
      } else {
        var cmp := CompareOptional(Opts(recs, k), Opts(recs, best[0]));
        if cmp < 0 {
          PickStepBetter(recs, k, best);
        } else if cmp == 0 {
          PickStepTie(recs, k, best);
        } else {
          PickStepWorse(recs, k, best);
        }
      }
      PickBestCorrect(recs, k + 1, NextBest(recs, k, best));
    }
  }

  /** best_errors returns exactly the retained records tied with the best,
      in insertion order; it is empty only when nothing is retained. */
  lemma BestIndicesSpec(e: Errors)
    ensures var idx := BestIndices(e);
      && (|idx| == 0 <==> |e.records| == 0)
      && (forall i, j :: 0 <= i < j < |idx| ==> idx[i] < idx[j])
      && (forall i :: 0 <= i < |idx| ==> IsBest(e.records, idx[i]))
      && (forall k :: 0 <= k < |e.records| && IsBest(e.records, k) ==> k in idx)
  {
    var recs := e.records;
    PickBestCorrect(recs, 0, []);
    var idx := BestIndices(e);
    if |idx| > 0 {
      var ob := Opts(recs, idx[0]);
      forall i | 0 <= i < |idx|
        ensures IsBest(recs, idx[i])
      {
        assert Opts(recs, idx[i]) == ob;
      }
      forall k | 0 <= k < |recs| && IsBest(recs, k)
        ensures k in idx
      {
        CompareAntisymmetric(Opts(recs, k), ob);
        CompareZeroIffEqual(Opts(recs, k), ob);
      }
    }
  }

  /** best_errors: every retained record tied with the best, trimmed. */
  function BestErrors(e: Errors): (r: seq<seq<Entry>>)
    ensures |r| == |BestIndices(e)|
    ensures |r| == 0 <==> |e.records| == 0
    ensures forall i :: 0 <= i < |r| ==> |r[i]| <= 2 && r[i] == Trim(e.records[BestIndices(e)[i]])
  {
    BestIndicesSpec(e);
    var idx := BestIndices(e);
    seq(|idx|, i requires 0 <= i < |idx| => Trim(e.records[idx[i]]))
  }
}
