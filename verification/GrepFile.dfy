/**
 `OPCBasic::GrepFile`: one pass over a file that reports the matching lines with lines of context
 before and after them.  The regular expression engine is a parameter: `ranges` are a line's matches.
 */
module GrepFile {

  datatype Range = Range(from: int, upTo: int)

  datatype LineResult = LineResult(lineNo: int, subMatches: seq<Range>)

  datatype SelectedLine = SelectedLine(lineNo: int, matchIndex: int, line: string)

  datatype GrepTrace = GrepTrace(lineNo: int, matched: bool, line: string)

  const BLANK := GrepTrace(-1, false, "")

  /** A request.  Lines are numbered from 1. */
  datatype Query = Query(lines: seq<string>, ranges: string -> seq<Range>, before: nat, after: nat) {

    predicate Hit(l: int) {
      1 <= l <= |lines| && ranges(lines[l - 1]) != []
    }

    /** A match, or the start of the file, which counts as a match at line 0. */
    predicate Anchor(p: int) {
      p == 0 || Hit(p)
    }

    /** Among the first `n` lines there is a match at most `before` lines after `l`. */
    predicate LeadsTo(n: int, l: int) {
      exists m :: l < m <= n && m - l <= before && Hit(m)
    }

    /** There is an anchor at most `after` lines before `l`. */
    predicate Trails(l: int) {
      exists p :: 0 <= p < l && l - p <= after && Anchor(p)
    }

    /** Whether line `l` is reported, as far as the first `n` lines can tell. */
    predicate Selected(n: int, l: int) {
      Hit(l) || LeadsTo(n, l) || Trails(l)
    }

    /** No further line can make line `l` reported unless it already is, once `n` lines are read. */
    predicate Settled(n: int, l: int) {
      Selected(n, l) || n + 1 - l > before
    }

    /** The latest anchor at or before line `l`. */
    function LastAnchor(l: nat): (p: nat)
      ensures p <= l && Anchor(p)
      ensures forall i :: p < i <= l ==> !Hit(i)
    {
      if l == 0 || Hit(l) then l else LastAnchor(l - 1)
    }

    lemma TrailsLast(l: nat)
      requires l > 0
      ensures Trails(l) <==> l - LastAnchor(l - 1) <= after
    {
      var p := LastAnchor(l - 1);
      assert Anchor(p);
    }

    /** The number of matches in lines 1 to `l`. */
    function Hits(l: nat): nat {
      if l == 0 then 0 else Hits(l - 1) + (if Hit(l) then 1 else 0)
    }

    /** Which match line `l` belongs to: the one before it in its `after` window, or else the next. */
    function Tag(l: nat): int {
      if Hit(l) || Trails(l) then Hits(l) - 1 else Hits(l)
    }

    function Picked(l: nat): SelectedLine
      requires 1 <= l <= |lines|
    {
      SelectedLine(l, Tag(l), lines[l - 1])
    }

    /** The reported ones of lines 1 to `k`, in order. */
    function Picks(n: int, k: nat): seq<SelectedLine>
      requires k <= |lines|
    {
      if k == 0 then [] else Picks(n, k - 1) + (if Selected(n, k) then [Picked(k)] else [])
    }

    /** The matches in lines 1 to `k`. */
    function Matches(k: nat): (r: seq<LineResult>)
      requires k <= |lines|
      ensures |r| == Hits(k)
    {
      if k == 0 then [] else Matches(k - 1) + (if Hit(k) then [LineResult(k, ranges(lines[k - 1]))] else [])
    }

    /** Consecutive lines, each with its own match index. */
    function Run(from: nat, upTo: nat): (r: seq<SelectedLine>)
      requires 1 <= from <= upTo + 1 && upTo <= |lines|
      ensures |r| == upTo + 1 - from
      decreases upTo + 1 - from
    {
      if from > upTo then [] else [Picked(from)] + Run(from + 1, upTo)
    }

    // ----- what the reported lines are -----

    /** Line `l` is among those reported. */
    predicate Reports(r: seq<SelectedLine>, l: int) {
      exists j :: 0 <= j < |r| && r[j].lineNo == l
    }

    /** A reported line: its number, its text as the file has it, and its match index. */
    predicate IsSelected(n: int, k: nat, x: SelectedLine)
      requires k <= |lines|
    {
      && 1 <= x.lineNo <= k && Selected(n, x.lineNo)
      && x.line == lines[x.lineNo - 1] && x.matchIndex == Tag(x.lineNo)
    }

    /** The lines of `r` are the selected ones of lines 1 to `k`, in order, each with its text and index. */
    predicate IsSelection(n: int, k: nat, r: seq<SelectedLine>)
      requires k <= |lines|
    {
      && (forall j :: 0 <= j < |r| ==> IsSelected(n, k, r[j]))
      && (forall i, j :: 0 <= i < j < |r| ==> r[i].lineNo < r[j].lineNo)
      && (forall l :: 1 <= l <= k && Selected(n, l) ==> Reports(r, l))
    }

    lemma SelectionGrows(n: int, k: nat, q: seq<SelectedLine>)
      requires k < |lines| && IsSelection(n, k, q)
      ensures IsSelection(n, k + 1, q + (if Selected(n, k + 1) then [Picked(k + 1)] else []))
    {
      var r := q + (if Selected(n, k + 1) then [Picked(k + 1)] else []);
      hide Selected, Tag;
      forall j | 0 <= j < |r| ensures IsSelected(n, k + 1, r[j]) {
        assert j < |q| ==> r[j] == q[j] && IsSelected(n, k, q[j]);
      }
      forall l | 1 <= l <= k + 1 && Selected(n, l) ensures Reports(r, l) {
        if l <= k {
          var j :| 0 <= j < |q| && q[j].lineNo == l;
          assert r[j] == q[j];
        } else {
          assert r[|q|].lineNo == l;
        }
      }
    }

    lemma PickOne(n: int, k: nat)
      requires k <= |lines|
      ensures k == 0 ==> Picks(n, k) == []
      ensures k > 0 ==> Picks(n, k) == Picks(n, k - 1) + (if Selected(n, k) then [Picked(k)] else [])
    {
    }

    lemma NothingSelected(n: int)
      ensures IsSelection(n, 0, [])
    {
    }

    /** Exactly the selected lines are reported. */
    lemma {:induction false} PicksAreTheSelected(n: int, k: nat)
      requires k <= |lines|
      ensures IsSelection(n, k, Picks(n, k))
    {
      hide *;
      PickOne(n, k);
      if k == 0 {
        NothingSelected(n);
      } else {
        PicksAreTheSelected(n, k - 1);
        SelectionGrows(n, k - 1, Picks(n, k - 1));
      }
    }

    /**
     The rule in so many words, with lines counted from 0: a line is reported for being a match, for
     one after it, for one before it, or for being near the start.
     */
    lemma ReportedExactly(i: nat)
      requires i < |lines|
      ensures Reports(Picks(|lines|, |lines|), i + 1) <==>
        || ranges(lines[i]) != []
        || (exists m :: i < m < |lines| && m - i <= before && ranges(lines[m]) != [])
        || (exists p :: 0 <= p < i && i - p <= after && ranges(lines[p]) != [])
        || i < after
    {
      var n, l := |lines|, i + 1;
      PicksAreTheSelected(n, n);
      assert Reports(Picks(n, n), l) <==> Selected(n, l);
      hide Picks;
      if exists m :: i < m < n && m - i <= before && ranges(lines[m]) != [] {
        var m :| i < m < n && m - i <= before && ranges(lines[m]) != [];
        assert Hit(m + 1);
      }
      if LeadsTo(n, l) {
        var m :| l < m <= n && m - l <= before && Hit(m);
        assert ranges(lines[m - 1]) != [];
      }
      if exists p :: 0 <= p < i && i - p <= after && ranges(lines[p]) != [] {
        var p :| 0 <= p < i && i - p <= after && ranges(lines[p]) != [];
        assert Anchor(p + 1);
      }
      if Trails(l) {
        var p :| 0 <= p < l && l - p <= after && Anchor(p);
        assert p > 0 ==> ranges(lines[p - 1]) != [];
      }
      if i < after {
        assert Anchor(0);
      }
    }

    predicate Lists(r: seq<LineResult>, l: int) {
      exists j :: 0 <= j < |r| && r[j].lineNo == l
    }

    predicate IsMatch(k: nat, x: LineResult)
      requires k <= |lines|
    {
      1 <= x.lineNo <= k && x.subMatches == ranges(lines[x.lineNo - 1]) != []
    }

    /** The elements of `r` are the matching lines of lines 1 to `k`, in order, each with all its ranges. */
    predicate IsMatchList(k: nat, r: seq<LineResult>)
      requires k <= |lines|
    {
      && (forall j :: 0 <= j < |r| ==> IsMatch(k, r[j]))
      && (forall i, j :: 0 <= i < j < |r| ==> r[i].lineNo < r[j].lineNo)
      && (forall i :: 0 <= i < k && ranges(lines[i]) != [] ==> Lists(r, i + 1))
    }

    lemma MatchListGrows(k: nat, q: seq<LineResult>)
      requires k < |lines| && IsMatchList(k, q)
      ensures IsMatchList(k + 1, q + (if Hit(k + 1) then [LineResult(k + 1, ranges(lines[k]))] else []))
    {
      var x := LineResult(k + 1, ranges(lines[k]));
      if Hit(k + 1) {
        MatchListWith(k, q, x);
      } else {
        assert forall j :: 0 <= j < |q| ==> IsMatch(k, q[j]) && IsMatch(k + 1, q[j]);
        assert q + [] == q;
      }
    }

    lemma MatchListWith(k: nat, q: seq<LineResult>, x: LineResult)
      requires k < |lines| && IsMatchList(k, q) && IsMatch(k + 1, x) && x.lineNo == k + 1
      ensures IsMatchList(k + 1, q + [x])
    {
      var r := q + [x];
      forall j | 0 <= j < |r| ensures IsMatch(k + 1, r[j]) {
        assert j < |q| ==> r[j] == q[j] && IsMatch(k, q[j]);
      }
      assert forall j :: 0 <= j < |q| ==> q[j].lineNo <= k by {
        assert forall j :: 0 <= j < |q| ==> IsMatch(k, q[j]);
      }
      hide IsMatch;
      forall i | 0 <= i < k + 1 && ranges(lines[i]) != [] ensures Lists(r, i + 1) {
        if i < k {
          var j :| 0 <= j < |q| && q[j].lineNo == i + 1;
          assert r[j] == q[j];
        } else {
          assert r[|q|].lineNo == k + 1;
        }
      }
    }

    lemma MatchOne(k: nat)
      requires k <= |lines|
      ensures k == 0 ==> Matches(k) == [] && IsMatchList(k, [])
      ensures k > 0 ==>
        Matches(k) == Matches(k - 1) + (if Hit(k) then [LineResult(k, ranges(lines[k - 1]))] else [])
    {
    }

    /** Exactly the matching lines are listed. */
    lemma {:induction false} MatchesAreTheHits(k: nat)
      requires k <= |lines|
      ensures IsMatchList(k, Matches(k))
    {
      hide *;
      MatchOne(k);
      if k == 0 {
      } else {
        MatchesAreTheHits(k - 1);
        MatchListGrows(k - 1, Matches(k - 1));
      }
    }

    /** `m` is the first match after line `l`. */
    predicate NextMatch(l: int, m: int) {
      l < m && Hit(m) && forall i :: l < i < m ==> !Hit(i)
    }

    lemma {:induction false} HitsBetween(l: nat, m: nat)
      requires l <= m && forall i :: l < i <= m ==> !Hit(i)
      ensures Hits(m) == Hits(l)
    {
      if l == m {
      } else {
        HitsBetween(l, m - 1);
      }
    }

    lemma {:induction false} MatchAt(k: nat, l: nat)
      requires 1 <= l <= k <= |lines| && Hit(l)
      ensures Hits(l) <= Hits(k) && Matches(k)[Hits(l) - 1] == LineResult(l, ranges(lines[l - 1]))
      decreases k
    {
      if l == k {
      } else {
        MatchAt(k - 1, l);
      }
    }

    lemma FindNextMatch(n: nat, l: nat) returns (m: nat)
      requires LeadsTo(n, l)
      ensures NextMatch(l, m) && m <= n && m - l <= before
    {
      m := l + 1;
      var bound :| l < bound <= n && bound - l <= before && Hit(bound);
      while !Hit(m)
        invariant l < m <= bound && forall i :: l < i < m ==> !Hit(i)
        decreases bound - m
      {
        m := m + 1;
      }
    }

    /**
     The match index of a reported line names the line itself if it matches, else the match before it
     if that is within `after` lines, else the next match, which is within `before` lines; it is -1
     exactly for lines that only trail the start of the file.
     */
    lemma TagNamesMatch(n: nat, l: nat)
      requires 1 <= l <= n == |lines| && Selected(n, l)
      ensures -1 <= Tag(l) < Hits(n)
      ensures Tag(l) == -1 <==> !Hit(l) && Trails(l) && LastAnchor(l) == 0
      ensures Hit(l) ==> Matches(n)[Tag(l)].lineNo == l
      ensures !Hit(l) && Trails(l) && LastAnchor(l) > 0 ==>
        l - LastAnchor(l) <= after && Matches(n)[Tag(l)].lineNo == LastAnchor(l)
      ensures !Hit(l) && !Trails(l) ==>
        exists m :: NextMatch(l, m) && m - l <= before && Matches(n)[Tag(l)].lineNo == m
    {
      hide Query.Matches, Query.LeadsTo;
      var p := LastAnchor(l);
      HitsBetween(p, l);
      if Hit(l) {
        MatchAt(n, l);
      } else if Trails(l) {
        TrailsLast(l);
        if p > 0 {
          MatchAt(n, p);
          assert Hits(p) > 0;
        }
        HitsGrow(l, n);
      } else {
        var m := FindNextMatch(n, l);
        HitsBetween(l, m - 1);
        MatchAt(n, m);
      }
    }

    lemma {:induction false} HitsGrow(l: nat, n: nat)
      requires l <= n
      ensures Hits(l) <= Hits(n)
    {
      if l == n {
      } else {
        HitsGrow(l, n - 1);
      }
    }

    // ----- how the selection grows by one line -----

    lemma GrowsOnlyByHits(n: nat, l: nat)
      ensures Selected(n + 1, l) <==>
        Selected(n, l) || (Hit(n + 1) && l < n + 1 && n + 1 - l <= before)
    {
    }

    lemma {:induction false} SamePicks(n: int, m: int, k: nat)
      requires k <= |lines| && forall l :: 1 <= l <= k ==> Selected(n, l) == Selected(m, l)
      ensures Picks(n, k) == Picks(m, k)
      decreases k
    {
      if k == 0 {
      } else {
        SamePicks(n, m, k - 1);
      }
    }

    lemma {:induction false} NoPicks(n: int, j: nat, k: nat)
      requires j <= k <= |lines| && forall l :: j < l <= k ==> !Selected(n, l)
      ensures Picks(n, k) == Picks(n, j)
      decreases k
    {
      if j == k {
      } else {
        NoPicks(n, j, k - 1);
      }
    }

    lemma {:induction false} AllPicks(n: int, j: nat, k: nat)
      requires j <= k <= |lines| && forall l :: j < l <= k ==> Selected(n, l)
      ensures Picks(n, k) == Picks(n, j) + Run(j + 1, k)
      decreases k
    {
      if j == k {
      } else {
        AllPicks(n, j, k - 1);
        RunSnoc(j + 1, k);
      }
    }

    lemma {:induction false} RunSnoc(from: nat, upTo: nat)
      requires 1 <= from <= upTo <= |lines|
      ensures Run(from, upTo) == Run(from, upTo - 1) + [Picked(upTo)]
      decreases upTo - from
    {
      if from == upTo {
      } else {
        RunSnoc(from + 1, upTo);
      }
    }
  }

  /** `circular_buffer::push_back`: a full buffer loses its oldest element. */
  function PushBack<T>(buf: seq<T>, capacity: nat, x: T): seq<T>
    requires 0 < capacity
  {
    if |buf| == capacity then buf[1..] + [x] else buf + [x]
  }

  /** The buffer holds lines `from` to `to`, unmatched so far, and a blank entry for the next. */
  predicate Holds(q: Query, buf: seq<GrepTrace>, from: nat, upTo: nat)
    requires 1 <= from <= upTo + 1 && upTo <= |q.lines|
  {
    && |buf| == upTo + 2 - from
    && buf[|buf| - 1] == BLANK
    && forall j :: 0 <= j < |buf| - 1 ==> buf[j].lineNo == from + j && buf[j].line == q.lines[from + j - 1]
  }

  /** What the loop keeps: after `i` lines, the buffer holds lines `from` to `i`. */
  ghost predicate LoopInv(q: Query, i: nat, from: nat, buf: seq<GrepTrace>, selected: seq<SelectedLine>,
                          matchIndex: int, afterCount: int)
  {
    && i <= |q.lines| && 1 <= from <= i + 1
    && Holds(q, buf, from, i) && |buf| <= q.before + 1
    && selected == q.Picks(i, i)
    && matchIndex == q.Hits(i) - 1
    && afterCount == (if i - q.LastAnchor(i) < q.after then q.after - (i - q.LastAnchor(i)) else 0)
    && (afterCount > 0 ==> |buf| == 1)
    && (forall l :: from <= l <= i ==> !q.Selected(i, l))
    && (forall l :: 1 <= l < from ==> q.Settled(i, l))
  }

  lemma LoopStarts(q: Query)
    ensures LoopInv(q, 0, 1, [BLANK], [], -1, q.after)
  {
  }

  lemma SelectedSoFar(q: Query, i: nat, from: nat, buf: seq<GrepTrace>, selected: seq<SelectedLine>,
                      matchIndex: int, afterCount: int)
    requires LoopInv(q, i, from, buf, selected, matchIndex, afterCount)
    ensures i <= |q.lines| && selected == q.Picks(i, i) && buf != []
  {
  }

  /** A matching line selects the whole buffer and nothing before it. */
  lemma HitSelection(q: Query, i: nat, n: nat, from: nat)
    requires i < |q.lines| && n == i + 1 && 1 <= from <= n && q.Hit(n) && n - from <= q.before
    requires forall l :: 1 <= l < from ==> q.Settled(i, l)
    ensures forall l: nat :: from <= l <= n ==> q.Selected(n, l)
    ensures forall l: nat :: 1 <= l < from ==> q.Selected(n, l) == q.Selected(i, l)
    ensures forall l :: 1 <= l <= n ==> q.Settled(n, l)
  {
    forall l: nat | 1 <= l <= n
      ensures from <= l ==> q.Selected(n, l)
      ensures l < from ==> q.Selected(n, l) == q.Selected(i, l) && q.Settled(n, l)
    {
      q.GrowsOnlyByHits(i, l);
      assert l < from ==> q.Settled(i, l);
    }
  }

  lemma HitPicks(q: Query, i: nat, n: nat, from: nat)
    requires i < |q.lines| && n == i + 1 && 1 <= from <= n
    requires forall l: nat :: from <= l <= n ==> q.Selected(n, l)
    requires forall l: nat :: 1 <= l < from ==> q.Selected(n, l) == q.Selected(i, l)
    requires forall l :: from <= l <= i ==> !q.Selected(i, l)
    ensures q.Picks(n, n) == q.Picks(i, i) + q.Run(from, n)
  {
    q.SamePicks(i, n, from - 1);
    q.NoPicks(i, from - 1, i);
    q.AllPicks(n, from - 1, n);
  }

  lemma HitTags(q: Query, i: nat, from: nat)
    requires i < |q.lines| && 1 <= from <= i + 1 && q.Hit(i + 1)
    requires forall l :: from <= l <= i ==> !q.Selected(i, l)
    ensures forall l: nat :: from <= l <= i + 1 ==> q.Tag(l) == q.Hits(i)
  {
    forall l: nat | from <= l <= i ensures q.Tag(l) == q.Hits(i) {
      forall k | l < k <= i ensures !q.Hit(k) {
        assert !q.Selected(i, k);
      }
      q.HitsBetween(l, i);
      assert !q.Selected(i, l);
    }
  }

  /** A matching line: everything in the buffer is reported. */
  lemma HitStep(q: Query, i: nat, from: nat, buf: seq<GrepTrace>, selected: seq<SelectedLine>,
                matchIndex: int, afterCount: int)
    requires i < |q.lines| && LoopInv(q, i, from, buf, selected, matchIndex, afterCount) && q.Hit(i + 1)
    ensures LoopInv(q, i + 1, i + 2, [BLANK], selected + q.Run(from, i + 1), matchIndex + 1, q.after)
    ensures forall l: nat :: from <= l <= i + 1 ==> q.Tag(l) == matchIndex + 1
    ensures 1 <= from <= i + 1 && Holds(q, buf, from, i)
  {
    HitSelection(q, i, i + 1, from);
    HitPicks(q, i, i + 1, from);
    HitTags(q, i, from);
    assert q.LastAnchor(i + 1) == i + 1;
    assert Holds(q, [BLANK], i + 2, i + 1);
  }

  lemma MissSelection(q: Query, i: nat)
    requires i < |q.lines| && !q.Hit(i + 1)
    ensures forall l: nat :: q.Selected(i + 1, l) == q.Selected(i, l)
    ensures q.Selected(i + 1, i + 1) <==> i - q.LastAnchor(i) < q.after
    ensures q.LastAnchor(i + 1) == q.LastAnchor(i) && q.Hits(i + 1) == q.Hits(i)
    ensures q.Picks(i + 1, i) == q.Picks(i, i)
  {
    forall l: nat ensures q.Selected(i + 1, l) == q.Selected(i, l) {
      q.GrowsOnlyByHits(i, l);
    }
    q.TrailsLast(i + 1);
    q.SamePicks(i, i + 1, i);
  }

  /** A line in the `after` window: it alone is in the buffer and it is reported. */
  lemma TrailStep(q: Query, i: nat, from: nat, buf: seq<GrepTrace>, selected: seq<SelectedLine>,
                  matchIndex: int, afterCount: int)
    requires i < |q.lines| && LoopInv(q, i, from, buf, selected, matchIndex, afterCount)
    requires !q.Hit(i + 1) && afterCount > 0
    ensures LoopInv(q, i + 1, i + 2, [BLANK], selected + [SelectedLine(i + 1, matchIndex, q.lines[i])],
                    matchIndex, afterCount - 1)
    ensures |buf| == 1
  {
    MissSelection(q, i);
    q.TrailsLast(i + 1);
    assert Holds(q, [BLANK], i + 2, i + 1);
    var n := i + 1;
    forall l | 1 <= l < i + 2 ensures q.Settled(n, l) {
      if l < from {
        assert q.Settled(i, l);
      }
    }
  }

  /** Any other line stays in the buffer, which forgets its oldest line when it is full. */
  lemma MissStep(q: Query, i: nat, from: nat, buf: seq<GrepTrace>, selected: seq<SelectedLine>,
                 matchIndex: int, afterCount: int, filled: seq<GrepTrace>)
    requires i < |q.lines| && LoopInv(q, i, from, buf, selected, matchIndex, afterCount)
    requires !q.Hit(i + 1) && afterCount <= 0
    requires filled == buf[|buf| - 1 := GrepTrace(i + 1, false, q.lines[i])]
    ensures var next := if |buf| == q.before + 1 then from + 1 else from;
      LoopInv(q, i + 1, next, PushBack(filled, q.before + 1, BLANK), selected, matchIndex, afterCount)
  {
    MissSelection(q, i);
    var next := if |buf| == q.before + 1 then from + 1 else from;
    var n := i + 1;
    forall l | 1 <= l < next ensures q.Settled(n, l) {
      if l < from {
        assert q.Settled(i, l);
      }
    }
    forall l | next <= l <= i + 1 ensures !q.Selected(n, l) {
      if l <= i {
        assert !q.Selected(i, l);
      }
    }
    assert Holds(q, PushBack(filled, q.before + 1, BLANK), next, i + 1);
  }

  lemma RunFront(q: Query, at: nat, upTo: nat, out: seq<SelectedLine>, x: SelectedLine)
    requires 1 <= at <= upTo <= |q.lines| && x == q.Picked(at)
    ensures (out + [x]) + q.Run(at + 1, upTo) == out + q.Run(at, upTo)
  {
  }

  lemma RunNothing(q: Query, upTo: nat)
    requires upTo <= |q.lines|
    ensures q.Run(upTo + 1, upTo) == []
  {
  }

  /** The inner loop: the buffer is emptied from the front. */
  method Drain(ghost q: Query, buf: seq<GrepTrace>, ghost from: nat, ghost upTo: nat, matchIndex: int)
    returns (out: seq<SelectedLine>)
    requires 1 <= from <= upTo <= |q.lines| && |buf| == upTo + 1 - from
    requires forall j :: 0 <= j < |buf| ==> buf[j].lineNo == from + j && buf[j].line == q.lines[from + j - 1]
    requires forall l: nat :: from <= l <= upTo ==> q.Tag(l) == matchIndex
    ensures out == q.Run(from, upTo)
  {
    hide Query.Run, Query.Tag;
    RunNothing(q, upTo);
    out := [];
    var rest := buf;
    ghost var at := from;
    while |rest| > 0
      invariant from <= at && |rest| == upTo + 1 - at
      invariant forall j :: 0 <= j < |rest| ==> rest[j].lineNo == at + j && rest[j].line == q.lines[at + j - 1]
      invariant out + q.Run(at, upTo) == q.Run(from, upTo)
      decreases |rest|
    {
      var topTrace := rest[0];
      var selected := SelectedLine(topTrace.lineNo, matchIndex, topTrace.line);
      RunFront(q, at, upTo, out, selected);
      out := out + [selected];
      rest := rest[1..];
      at := at + 1;
    }
  }

  /** The buffer with its blank entry filled in. */
  predicate Filled(q: Query, i: nat, buf: seq<GrepTrace>, filled: seq<GrepTrace>)
    requires i < |q.lines|
  {
    buf != [] && filled == buf[|buf| - 1 := GrepTrace(i + 1, q.Hit(i + 1), q.lines[i])]
  }

  /** A matching line. */
  method OnMatch(ghost q: Query, ghost i: nat, ghost from: nat, ghost buf: seq<GrepTrace>,
                 filled: seq<GrepTrace>, selected: seq<SelectedLine>, matchIndex: int, ghost afterCount: int)
    returns (out: seq<SelectedLine>)
    requires i < |q.lines| && LoopInv(q, i, from, buf, selected, matchIndex - 1, afterCount)
    requires Filled(q, i, buf, filled) && q.Hit(i + 1)
    ensures LoopInv(q, i + 1, i + 2, PushBack([], q.before + 1, BLANK), out, matchIndex, q.after)
  {
    hide LoopInv, Query.Tag;
    HitStep(q, i, from, buf, selected, matchIndex - 1, afterCount);
    assert PushBack([], q.before + 1, BLANK) == [BLANK];
    var drained := Drain(q, filled, from, i + 1, matchIndex);
    out := selected + drained;
  }

  /** Any other line in the `after` window. */
  method OnTrailing(ghost q: Query, ghost i: nat, ghost from: nat, ghost buf: seq<GrepTrace>,
                    filled: seq<GrepTrace>, selected: seq<SelectedLine>, matchIndex: int, afterCount: int)
    returns (rest: seq<GrepTrace>, out: seq<SelectedLine>)
    requires i < |q.lines| && LoopInv(q, i, from, buf, selected, matchIndex, afterCount + 1)
    requires Filled(q, i, buf, filled) && !q.Hit(i + 1) && afterCount >= 0
    ensures LoopInv(q, i + 1, i + 2, PushBack(rest, q.before + 1, BLANK), out, matchIndex, afterCount)
  {
    TrailStep(q, i, from, buf, selected, matchIndex, afterCount + 1);
    var topTrace := filled[0];
    out := selected + [SelectedLine(topTrace.lineNo, matchIndex, topTrace.line)];
    rest := filled[1..];
  }

  /** The reported lines are exactly those the window rule selects, with their match indices. */
  method GrepFile(q: Query) returns (matches: seq<LineResult>, selected: seq<SelectedLine>)
    ensures matches == q.Matches(|q.lines|)
    ensures selected == q.Picks(|q.lines|, |q.lines|)
    ensures q.IsMatchList(|q.lines|, matches) && q.IsSelection(|q.lines|, |q.lines|, selected)
  {
    hide LoopInv, Query.IsMatchList, Query.IsSelection;
    q.MatchesAreTheHits(|q.lines|);
    q.PicksAreTheSelected(|q.lines|, |q.lines|);
    LoopStarts(q);
    var lineNo, matchIndex, afterCount := 1, -1, q.after;
    var buf := [BLANK];
    ghost var from := 1;
    matches, selected := [], [];
    for i := 0 to |q.lines|
      invariant lineNo == i + 1
      invariant matches == q.Matches(i)
      invariant LoopInv(q, i, from, buf, selected, matchIndex, afterCount)
    {
      SelectedSoFar(q, i, from, buf, selected, matchIndex, afterCount);
      var line := q.lines[i];
      var found := q.ranges(line);
      var filled := buf[|buf| - 1 := GrepTrace(lineNo, found != [], line)];
      assert Filled(q, i, buf, filled);
      lineNo := lineNo + 1;
      if found != [] {
        matches := matches + [LineResult(i + 1, found)];
        matchIndex := matchIndex + 1;
        selected := OnMatch(q, i, from, buf, filled, selected, matchIndex, afterCount);
        afterCount := q.after;
        buf := [];
        from := i + 2;
      } else if afterCount > 0 {
        afterCount := afterCount - 1;
        buf, selected := OnTrailing(q, i, from, buf, filled, selected, matchIndex, afterCount);
        from := i + 2;
      } else {
        MissStep(q, i, from, buf, selected, matchIndex, afterCount, filled);
        buf := filled;
        from := if |buf| == q.before + 1 then from + 1 else from;
      }
      buf := PushBack(buf, q.before + 1, BLANK);
    }
    SelectedSoFar(q, |q.lines|, from, buf, selected, matchIndex, afterCount);
  }
}
