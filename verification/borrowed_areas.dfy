/** Registry of borrowed areas (Pegparse::BorrowedAreas): input ranges that a
    rule anchored at `marker` has already consumed out of order, such as the
    body of a here-document that follows its introducer on a later line. */
module BorrowedAreas {
  import opened Wrappers

  /** The range [start, end) was consumed by a rule anchored at `marker`. */
  datatype Area = Area(marker: nat, start: nat, end: nat)

  predicate Contains(a: Area, p: int) {
    a.start <= p < a.end
  }

  /** add_area: append at the end of the list. */
  function AddArea(areas: seq<Area>, a: Area): (r: seq<Area>)
    ensures |r| == |areas| + 1
    ensures r[..|areas|] == areas && r[|areas|] == a
  {
    areas + [a]
  }

  /** conflicted_area(p): the first area, in list order, containing `p`. */
  function ConflictedArea(areas: seq<Area>, p: int): (r: Option<Area>)
    ensures r.None? <==> forall i :: 0 <= i < |areas| ==> !Contains(areas[i], p)
    ensures r.Some? ==> (exists i :: 0 <= i < |areas| && areas[i] == r.value
                           && Contains(areas[i], p)
                           && (forall j :: 0 <= j < i ==> !Contains(areas[j], p)))
  {
    if |areas| == 0 then None
    else if Contains(areas[0], p) then Some(areas[0])
    else
      var r := ConflictedArea(areas[1..], p);
      r
  }

  /** backtracked(p): drop every area whose marker lies after `p`. */
  function Backtracked(areas: seq<Area>, p: nat): (r: seq<Area>)
    ensures |r| <= |areas|
    ensures forall a :: a in r <==> a in areas && a.marker <= p
  {
    if |areas| == 0 then []
    else if areas[0].marker > p then Backtracked(areas[1..], p)
    else [areas[0]] + Backtracked(areas[1..], p)
  }

  /** borrowed_area_start_pos: the start of the first area, if any. */
  function StartPos(areas: seq<Area>): (r: Option<nat>)
    ensures r.None? <==> |areas| == 0
    ensures r.Some? ==> r.value == areas[0].start
  {
    if |areas| == 0 then None else Some(areas[0].start)
  }

  /** borrowed_area_end_pos: the end of the last area, if any. */
  function EndPos(areas: seq<Area>): (r: Option<nat>)
    ensures r.None? <==> |areas| == 0
    ensures r.Some? ==> r.value == areas[|areas| - 1].end
  {
    if |areas| == 0 then None else Some(areas[|areas| - 1].end)
  }

  /** backtracked is the ordered filter: a one-area list keeps its area
      exactly when the marker is at or before `p`, and filtering a list in
      two parts filters each part in place. Together these fix the result
      as the list with the late-marker areas removed, the others keeping
      their order. */
  lemma {:induction false} BacktrackedAppend(a: seq<Area>, b: seq<Area>, p: nat)
    ensures Backtracked(a + b, p) == Backtracked(a, p) + Backtracked(b, p)
    ensures |a| == 1 ==> Backtracked(a, p) == if a[0].marker <= p then a else []
  {
    if |a| > 0 {
      assert (a + b)[1..] == a[1..] + b;
      BacktrackedAppend(a[1..], b, p);
    } else {
      assert a + b == b;
    }
  }

  /** Filtering at `p` and then at `q <= p` is filtering at `q`. */
  lemma {:induction false} BacktrackedTwice(areas: seq<Area>, p: nat, q: nat)
    requires q <= p
    ensures Backtracked(Backtracked(areas, p), q) == Backtracked(areas, q)
  {
    if |areas| > 0 {
      BacktrackedTwice(areas[1..], p, q);
      if areas[0].marker <= p {
        assert Backtracked(areas, p) == [areas[0]] + Backtracked(areas[1..], p);
        assert ([areas[0]] + Backtracked(areas[1..], p))[1..] == Backtracked(areas[1..], p);
      }
    }
  }

  /** backtracked is idempotent. */
  lemma BacktrackedIdempotent(areas: seq<Area>, p: nat)
    ensures Backtracked(Backtracked(areas, p), p) == Backtracked(areas, p)
  {
    BacktrackedTwice(areas, p, p);
  }

  /** Backtracking past every marker leaves the list as it was. */
  lemma {:induction false} BacktrackedKeepsEarlier(areas: seq<Area>, p: nat)
    requires forall i :: 0 <= i < |areas| ==> areas[i].marker <= p
    ensures Backtracked(areas, p) == areas
  {
    if |areas| > 0 {
      BacktrackedKeepsEarlier(areas[1..], p);
      assert [areas[0]] + areas[1..] == areas;
    }
  }

  /** An empty range (start == end) never conflicts with any offset. */
  lemma EmptyAreaNeverConflicts(areas: seq<Area>, a: Area, p: int)
    requires a.start == a.end
    ensures ConflictedArea(AddArea(areas, a), p) == ConflictedArea(areas, p)
  {
    AppendNonContaining(areas, a, p);
  }

  lemma {:induction false} AppendNonContaining(areas: seq<Area>, a: Area, p: int)
    requires !Contains(a, p)
    ensures ConflictedArea(areas + [a], p) == ConflictedArea(areas, p)
  {
    if |areas| > 0 {
      assert (areas + [a])[1..] == areas[1..] + [a];
      AppendNonContaining(areas[1..], a, p);
    }
  }
}
