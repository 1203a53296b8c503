/** The here-document bookkeeping of Pegparse::BasicRules: one memo entry
    per `<<EOS` offset, holding a run-once content matcher, and a waiting
    list of the entries whose content is still to be read, ordered by
    offset, which the first newline after them dispatches. */
module HeredocRule {
  import opened Wrappers

  /** What a content matcher does when it is called: it fails (raises), or
      it returns a value, possibly nil. */
  datatype Outcome<V> = Fails | Yields(content: Option<V>)

  /** The procs an entry holds: the content matcher, described by its
      outcome, and the setter, by an identity. */
  datatype Procs<V> = Procs(matcher: Outcome<V>, setter: nat)

  /** HeredocMemoEntry. */
  datatype Entry<V> = Entry(pos: nat, processed: bool, value: Option<V>, procs: Procs<V>)

  /** What a call had the caller observe: nothing, the setter called with
      a content, or a failure raised. */
  datatype Effect<V> = Quiet | Set(setter: nat, content: Option<V>) | Failed

  /** A fresh entry: not processed, no value. */
  function NewEntry<V>(pos: nat, procs: Procs<V>): (e: Entry<V>)
    ensures e.pos == pos && !e.processed && e.value.None? && e.procs == procs
  {
    Entry(pos, false, None, procs)
  }

  /** process_content: the first call runs the matcher, caches its value
      and hands it to the setter; later calls replay the cache, failing
      when it is nil. Returns the updated entry, the effect and whether the
      matcher ran. */
  function ProcessContent<V>(e: Entry<V>): (r: (Entry<V>, Effect<V>, bool))
    ensures r.2 <==> !e.processed
    ensures r.0.processed && r.0.pos == e.pos && r.0.procs == e.procs
    ensures e.processed ==> r.0 == e
    ensures e.processed && e.value.None? ==> r.1 == Failed
    ensures e.processed && e.value.Some? ==> r.1 == Set(e.procs.setter, e.value)
    ensures !e.processed && e.procs.matcher.Fails? ==> r.0.value.None? && r.1 == Failed
    ensures !e.processed && e.procs.matcher.Yields? ==>
      r.0.value == e.procs.matcher.content && r.1 == Set(e.procs.setter, e.procs.matcher.content)
  {
    if e.processed then
      (e, if e.value.None? then Failed else Set(e.procs.setter, e.value), false)
    else
      match e.procs.matcher
      case Fails => (e.(processed := true, value := None), Failed, true)
      case Yields(c) => (e.(processed := true, value := c), Set(e.procs.setter, c), true)
  }

  /** HeredocMemo: every entry by offset, and the offsets still waiting
      for their content, in increasing order. */
  datatype Memo<V> = Memo(entries: map<nat, Entry<V>>, waiting: seq<nat>)

  predicate Increasing(ws: seq<nat>) {
    forall i, j :: 0 <= i < j < |ws| ==> ws[i] < ws[j]
  }

  /** The invariant register and dispatch keep. */
  ghost predicate Valid<V>(m: Memo<V>) {
    && Increasing(m.waiting)
    && (forall p :: p in m.entries ==> m.entries[p].pos == p)
    && (forall i :: 0 <= i < |m.waiting| ==> m.waiting[i] in m.entries && !m.entries[m.waiting[i]].processed)
  }

  /** HeredocMemo.new: nothing registered, nothing waiting. */
  function NewMemo<V>(): (m: Memo<V>)
    ensures Valid(m) && m.entries == map[] && m.waiting == []
  {
    Memo(map[], [])
  }

  /** has_memo? */
  predicate HasMemo<V>(m: Memo<V>, pos: nat) {
    pos in m.entries
  }

  /** is_processed_memo? */
  predicate IsProcessed<V>(m: Memo<V>, pos: nat) {
    pos in m.entries && m.entries[pos].processed
  }

  /** Only dispatching processes an entry: registering leaves every
      offset's processed flag as it was, and a dispatch that runs a
      matcher turns exactly that waiting offset from unprocessed to
      processed. */
  lemma ProcessedOnlyByDispatch<V>(m: Memo<V>, pos: nat, procs: Procs<V>, at: nat)
    requires Valid(m)
    ensures forall p: nat :: IsProcessed(Register(m, pos, procs), p) == IsProcessed(m, p)
    ensures var d := DispatchLiveLf(m, at);
      && (d.2.Some? ==> !IsProcessed(m, d.2.value) && IsProcessed(d.0, d.2.value))
      && (forall p: nat :: d.2 != Some(p) ==> IsProcessed(d.0, p) == IsProcessed(m, p))
  {
    var d := DispatchLiveLf(m, at);
    if d.2.Some? {
      assert m.waiting[0] in m.entries;
    }
  }

  /** bsearch_index { |x| x.pos >= pos } over [lo, hi): the first index
      whose offset is at least `pos`, or `hi` when there is none. */
  function FirstAtLeast(ws: seq<nat>, pos: nat, lo: nat, hi: nat): (i: nat)
    requires Increasing(ws) && lo <= hi <= |ws|
    requires forall k :: 0 <= k < lo ==> ws[k] < pos
    requires forall k :: hi <= k < |ws| ==> ws[k] >= pos
    ensures lo <= i <= hi
    ensures forall k :: 0 <= k < i ==> ws[k] < pos
    ensures forall k :: i <= k < |ws| ==> ws[k] >= pos
    decreases hi - lo
  {
    if lo == hi then lo
    else
      var mid := (lo + hi) / 2;
      if ws[mid] >= pos then FirstAtLeast(ws, pos, lo, mid)
      else FirstAtLeast(ws, pos, mid + 1, hi)
  }

  /** `ws` with `pos` inserted at index `i`. */
  function InsertAt(ws: seq<nat>, i: nat, pos: nat): (r: seq<nat>)
    requires i <= |ws|
    ensures |r| == |ws| + 1 && r[i] == pos
    ensures forall k :: 0 <= k < i ==> r[k] == ws[k]
    ensures forall k :: i < k < |r| ==> r[k] == ws[k - 1]
  {
    ws[..i] + [pos] + ws[i..]
  }

  /** The waiting list with a new offset added at its ordered place
      (skipped when it is already there). */
  function Enqueue(ws: seq<nat>, pos: nat): (r: seq<nat>)
    requires Increasing(ws)
    ensures Increasing(r)
    ensures forall x :: x in r <==> x in ws || x == pos
    ensures pos in ws ==> r == ws
    ensures pos !in ws ==> |r| == |ws| + 1
  {
    var i := FirstAtLeast(ws, pos, 0, |ws|);
    if i < |ws| then
      if ws[i] == pos then ws
      else
        InsertInOrder(ws, i, pos);
        InsertAt(ws, i, pos)
    else
      assert ws + [pos] == InsertAt(ws, |ws|, pos);
      InsertInOrder(ws, |ws|, pos);
      ws + [pos]
  }

  /** Inserting an offset between the smaller and the larger ones keeps the
      list increasing and adds exactly that offset. */
  lemma InsertInOrder(ws: seq<nat>, i: nat, pos: nat)
    requires Increasing(ws) && i <= |ws|
    requires forall k :: 0 <= k < i ==> ws[k] < pos
    requires forall k :: i <= k < |ws| ==> ws[k] > pos
    ensures Increasing(InsertAt(ws, i, pos))
    ensures forall x :: x in InsertAt(ws, i, pos) <==> x in ws || x == pos
  {
    var r := InsertAt(ws, i, pos);
    forall x | x in ws
      ensures x in r
    {
      var k :| 0 <= k < |ws| && ws[k] == x;
      if k < i {
        assert r[k] == x;
      } else {
        assert r[k + 1] == x;
      }
    }
    forall x | x in r
      ensures x in ws || x == pos
    {
      var k :| 0 <= k < |r| && r[k] == x;
      if k < i {
        assert ws[k] == x;
      } else if k > i {
        assert ws[k - 1] == x;
      }
    }
  }

  /** register: an offset seen before only gets its procs replaced; a new
      one gets a fresh entry that also joins the waiting list. */
  function Register<V>(m: Memo<V>, pos: nat, procs: Procs<V>): (r: Memo<V>)
    requires Valid(m)
    ensures Valid(r)
    ensures pos in r.entries && r.entries[pos].procs == procs
    ensures r.entries.Keys == m.entries.Keys + {pos}
    ensures forall p :: p in m.entries && p != pos ==> r.entries[p] == m.entries[p]
    ensures HasMemo(m, pos) ==>
      r.waiting == m.waiting && r.entries[pos] == m.entries[pos].(procs := procs)
    ensures !HasMemo(m, pos) ==>
      r.entries[pos] == NewEntry(pos, procs)
      && |r.waiting| == |m.waiting| + 1
      && (forall x :: x in r.waiting <==> x in m.waiting || x == pos)
  {
    if HasMemo(m, pos) then
      m.(entries := m.entries[pos := m.entries[pos].(procs := procs)])
    else
      Memo(m.entries[pos := NewEntry(pos, procs)], Enqueue(m.waiting, pos))
  }

  /** dispatch_live_lf: at a newline at `pos`, the first waiting entry, if
      it starts before `pos`, leaves the list and has its content
      processed. Returns the memo, the effect and the offset whose matcher
      ran, if any. */
  function DispatchLiveLf<V>(m: Memo<V>, pos: nat): (r: (Memo<V>, Effect<V>, Option<nat>))
    requires Valid(m)
    ensures Valid(r.0)
    ensures r.0.entries.Keys == m.entries.Keys
    ensures |m.waiting| == 0 || m.waiting[0] >= pos ==> r == (m, Quiet, None)
    ensures |m.waiting| > 0 && m.waiting[0] < pos ==>
      var w := m.waiting[0];
      && r.0.waiting == m.waiting[1..]
      && r.2 == Some(w)
      && r.0.entries == m.entries[w := ProcessContent(m.entries[w]).0]
      && r.1 == ProcessContent(m.entries[w]).1
  {
    if |m.waiting| == 0 then (m, Quiet, None)
    else if m.entries[m.waiting[0]].pos >= pos then (m, Quiet, None)
    else
      var w := m.waiting[0];
      var out := ProcessContent(m.entries[w]);
      (Memo(m.entries[w := out.0], m.waiting[1..]), out.1, Some(w))
  }

  /** handle_heredoc at `pos`: always re-register the procs; replay the
      content when the entry was processed already. Returns the memo, the
      effect and whether a matcher ran (it never does here). */
  function HandleHeredoc<V>(m: Memo<V>, pos: nat, procs: Procs<V>): (r: (Memo<V>, Effect<V>, bool))
    requires Valid(m)
    ensures Valid(r.0)
    ensures !r.2
    ensures pos in r.0.entries && r.0.entries[pos].procs == procs
    ensures r.0.entries.Keys == m.entries.Keys + {pos}
    ensures !IsProcessed(m, pos) ==> r.0 == Register(m, pos, procs) && r.1 == Quiet
    ensures IsProcessed(m, pos) ==>
      r.0 == Register(m, pos, procs)
      && (m.entries[pos].value.None? ==> r.1 == Failed)
      && (m.entries[pos].value.Some? ==> r.1 == Set(procs.setter, m.entries[pos].value))
  {
    var m1 := Register(m, pos, procs);
    if IsProcessed(m1, pos) then
      var out := ProcessContent(m1.entries[pos]);
      (m1.(entries := m1.entries[pos := out.0]), out.1, out.2)
    else (m1, Quiet, false)
  }

  // ---------------------------------------------------------------------
  // Run-once, across any sequence of calls
  // ---------------------------------------------------------------------

  /** The calls a grammar makes on the memo: handle_heredoc at `<<EOS`
      and the newline callback. */
  datatype Call<V> = Handle(pos: nat, procs: Procs<V>) | LiveLf(at: nat)

  /** Replay calls; return the final memo and the offsets whose content
      matcher ran, in order. */
  function Run<V>(m: Memo<V>, calls: seq<Call<V>>): (r: (Memo<V>, seq<nat>))
    requires Valid(m)
    ensures Valid(r.0)
    decreases |calls|
  {
    if |calls| == 0 then (m, [])
    else
      match calls[0]
      case Handle(pos, procs) =>
        Run(HandleHeredoc(m, pos, procs).0, calls[1..])
      case LiveLf(at) =>
        var d := DispatchLiveLf(m, at);
        var rest := Run(d.0, calls[1..]);
        (rest.0, (if d.2.Some? then [d.2.value] else []) + rest.1)
  }

  /** Known offsets stay known and processed entries stay processed. */
  ghost predicate Progress<V>(m: Memo<V>, n: Memo<V>) {
    && m.entries.Keys <= n.entries.Keys
    && (forall p :: IsProcessed(m, p) ==> IsProcessed(n, p))
  }

  lemma {:induction false} RunProgress<V>(m: Memo<V>, calls: seq<Call<V>>)
    requires Valid(m)
    ensures Progress(m, Run(m, calls).0)
    ensures forall p :: p in Run(m, calls).1 ==> IsProcessed(Run(m, calls).0, p)
    ensures forall p :: p in Run(m, calls).1 ==> !IsProcessed(m, p)
    decreases |calls|
  {
    if |calls| > 0 {
      match calls[0]
      case Handle(pos, procs) =>
        var m1 := HandleHeredoc(m, pos, procs).0;
        HandleProgress(m, pos, procs);
        RunProgress(m1, calls[1..]);
        ProgressTransitive(m, m1, Run(m1, calls[1..]).0);
      case LiveLf(at) =>
        var d := DispatchLiveLf(m, at);
        DispatchProgress(m, at);
        RunProgress(d.0, calls[1..]);
        ProgressTransitive(m, d.0, Run(d.0, calls[1..]).0);
    }
  }

  lemma ProgressTransitive<V>(a: Memo<V>, b: Memo<V>, c: Memo<V>)
    requires Progress(a, b) && Progress(b, c)
    ensures Progress(a, c)
  {
  }

  /** handle_heredoc forgets nothing. */
  lemma HandleProgress<V>(m: Memo<V>, pos: nat, procs: Procs<V>)
    requires Valid(m)
    ensures Progress(m, HandleHeredoc(m, pos, procs).0)
  {
  }

  /** The newline callback forgets nothing, and the entry whose matcher it
      ran was unprocessed before and is processed after. */
  lemma DispatchProgress<V>(m: Memo<V>, at: nat)
    requires Valid(m)
    ensures Progress(m, DispatchLiveLf(m, at).0)
    ensures DispatchLiveLf(m, at).2.Some? ==>
      var w := DispatchLiveLf(m, at).2.value;
      IsProcessed(DispatchLiveLf(m, at).0, w) && !IsProcessed(m, w)
  {
  }

  predicate Distinct(xs: seq<nat>) {
    forall i, j :: 0 <= i < j < |xs| ==> xs[i] != xs[j]
  }

  /** Each content matcher runs at most once, whatever the calls: the
      offsets whose matcher ran are distinct and none was processed
      before. */
  lemma {:induction false} MatcherRunsAtMostOnce<V>(m: Memo<V>, calls: seq<Call<V>>)
    requires Valid(m)
    ensures Distinct(Run(m, calls).1)
    decreases |calls|
  {
    if |calls| > 0 {
      match calls[0]
      case Handle(pos, procs) =>
        MatcherRunsAtMostOnce(HandleHeredoc(m, pos, procs).0, calls[1..]);
      case LiveLf(at) =>
        var d := DispatchLiveLf(m, at);
        var rest := Run(d.0, calls[1..]).1;
        MatcherRunsAtMostOnce(d.0, calls[1..]);
        if d.2.Some? {
          RunProgress(d.0, calls[1..]);
          assert IsProcessed(d.0, d.2.value);
          DistinctCons(d.2.value, rest);
        } else {
          assert [] + rest == rest;
        }
    }
  }

  lemma DistinctCons(x: nat, xs: seq<nat>)
    requires Distinct(xs) && x !in xs
    ensures Distinct([x] + xs)
  {
    var ys := [x] + xs;
    forall i, j | 0 <= i < j < |ys|
      ensures ys[i] != ys[j]
    {
      assert ys[j] == xs[j - 1];
      if i > 0 {
        assert ys[i] == xs[i - 1];
      }
    }
  }

  /** A matcher that failed keeps failing: the entry stays processed with
      no value and every replay fails. */
  lemma FailureIsSticky<V>(e: Entry<V>)
    requires !e.processed && e.procs.matcher.Fails?
    ensures var e1 := ProcessContent(e).0;
      e1.processed && e1.value.None? && ProcessContent(e1) == (e1, Failed, false)
  {
  }

  /** A replay hands the setter the content the matcher produced the first
      time, whatever matcher is registered by then. */
  lemma ReplayGivesCachedContent<V>(e: Entry<V>, procs: Procs<V>)
    requires !e.processed && e.procs.matcher.Yields? && e.procs.matcher.content.Some?
    ensures var e1 := ProcessContent(e).0.(procs := procs);
      ProcessContent(e1) == (e1, Set(procs.setter, e.procs.matcher.content), false)
  {
  }
}
