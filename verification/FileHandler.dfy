/** Text rewriting: the in-place replacement of `SReplaceVisit` and what it does to a line. */
module FileHandler {
  import opened Bytes

  predicate OccursAt(s: string, p: string, i: nat) {
    i + |p| <= |s| && s[i..i + |p|] == p
  }

  /** `std::string::find`: the leftmost occurrence at or after `i`. */
  function Find(s: string, p: string, i: nat): (r: Option<nat>)
    ensures r.Some? ==> i <= r.value && OccursAt(s, p, r.value)
    ensures r.Some? ==> forall j :: i <= j < r.value ==> !OccursAt(s, p, j)
    ensures r.None? ==> forall j :: i <= j ==> !OccursAt(s, p, j)
    decreases |s| - i
  {
    if i + |p| > |s| then None
    else if s[i..i + |p|] == p then Some(i)
    else Find(s, p, i + 1)
  }

  /** Every occurrence replaced, left to right, without looking at replaced text again. */
  function ReplaceAll(s: string, from: string, subst: string): string
    requires from != []
  {
    if s == [] then []
    else if from <= s then subst + ReplaceAll(s[|from|..], from, subst)
    else [s[0]] + ReplaceAll(s[1..], from, subst)
  }

  /** The loop of `SReplaceVisit`, which has a line and the position of an occurrence, or is over. */
  datatype Loop = Running(line: string, at: nat) | Ended(line: string)

  function Look(line: string, from: string, i: nat): (r: Loop)
    ensures r.line == line
    ensures r.Running? ==> i <= r.at && OccursAt(line, from, r.at)
  {
    match Find(line, from, i)
    case None => Ended(line)
    case Some(at) => Running(line, at)
  }

  /** One round: replace the occurrence found, then look behind the inserted text. */
  function Round(x: Loop, from: string, subst: string): Loop
    requires x.Running? ==> OccursAt(x.line, from, x.at)
  {
    match x
    case Ended(_) => x
    case Running(line, at) => Look(line[..at] + subst + line[at + |from|..], from, at + |subst|)
  }

  function Rounds(line: string, from: string, subst: string, k: nat): (x: Loop)
    ensures x.Running? ==> OccursAt(x.line, from, x.at)
  {
    if k == 0 then Look(line, from, 0) else Round(Rounds(line, from, subst, k - 1), from, subst)
  }

  lemma RunningIsShorter(x: Loop, from: string, subst: string)
    requires x.Running? && OccursAt(x.line, from, x.at) && from != []
    requires Round(x, from, subst).Running?
    ensures |Round(x, from, subst).line| - Round(x, from, subst).at < |x.line| - x.at
  {
  }

  lemma {:induction false} RunsBounded(line: string, from: string, subst: string, k: nat)
    requires from != [] && Rounds(line, from, subst, k).Running?
    ensures |Rounds(line, from, subst, k).line| - Rounds(line, from, subst, k).at <= |line| - k
  {
    if k == 0 {
    } else {
      RunsBounded(line, from, subst, k - 1);
      RunningIsShorter(Rounds(line, from, subst, k - 1), from, subst);
    }
  }

  lemma {:induction false} EmptyNeverEnds(line: string, subst: string, k: nat)
    ensures Rounds(line, [], subst, k).Running?
  {
    if k == 0 {
    } else {
      EmptyNeverEnds(line, subst, k - 1);
      var x := Rounds(line, [], subst, k - 1);
      var next := x.line[..x.at] + subst + x.line[x.at..];
      assert OccursAt(next, [], x.at + |subst|);
    }
  }

  /** The loop ends exactly when the text to replace is not empty. */
  lemma LoopEndsExactly(line: string, from: string, subst: string)
    ensures (exists k: nat :: Rounds(line, from, subst, k).Ended?) <==> from != []
  {
    if from == [] {
      forall k: nat ensures !Rounds(line, from, subst, k).Ended? {
        EmptyNeverEnds(line, subst, k);
      }
    } else {
      var k := |line| + 1;
      if Rounds(line, from, subst, k).Running? {
        RunsBounded(line, from, subst, k);
        assert false;
      }
      assert Rounds(line, from, subst, k).Ended?;
    }
  }

  lemma OccursInTail(s: string, from: string, i: nat, j: nat)
    requires i <= |s|
    ensures OccursAt(s[i..], from, j) <==> OccursAt(s, from, i + j)
  {
    if j + |from| <= |s| - i {
      assert s[i..][j..j + |from|] == s[i + j..i + j + |from|];
    }
  }

  lemma OccursAtStart(s: string, from: string)
    ensures OccursAt(s, from, 0) <==> from <= s
  {
    if |from| <= |s| {
      assert s[0..0 + |from|] == s[..|from|];
    }
  }

  /** Where there is no occurrence a character is kept. */
  lemma ReplaceStep(s: string, from: string, subst: string, i: nat)
    requires from != [] && i < |s|
    ensures ReplaceAll(s[i..], from, subst) ==
      if OccursAt(s, from, i) then subst + ReplaceAll(s[i + |from|..], from, subst)
      else [s[i]] + ReplaceAll(s[i + 1..], from, subst)
  {
    var t := s[i..];
    OccursInTail(s, from, i, 0);
    OccursAtStart(t, from);
    assert t[0] == s[i] && t[1..] == s[i + 1..];
    if from <= t {
      assert t[|from|..] == s[i + |from|..];
    }
  }

  /** The rest of the line from `i` on, when `r` is the next occurrence: nothing changes before it. */
  predicate Searched(s: string, from: string, subst: string, i: nat, r: Option<nat>)
    requires from != [] && i <= |s|
  {
    match r
    case None => ReplaceAll(s[i..], from, subst) == s[i..]
    case Some(at) =>
      && i <= at && at + |from| <= |s|
      && ReplaceAll(s[i..], from, subst) == s[i..at] + subst + ReplaceAll(s[at + |from|..], from, subst)
  }

  lemma SearchedHere(s: string, from: string, subst: string, i: nat)
    requires from != [] && i < |s| && OccursAt(s, from, i)
    ensures Searched(s, from, subst, i, Some(i))
  {
    hide ReplaceAll;
    ReplaceStep(s, from, subst, i);
    assert s[i..i] + subst == subst;
  }

  lemma PrependOne(s: string, i: nat, at: nat, subst: string, tail: string)
    requires i < at <= |s|
    ensures [s[i]] + (s[i + 1..at] + subst + tail) == s[i..at] + subst + tail
  {
    assert s[i..at] == [s[i]] + s[i + 1..at];
  }

  lemma SearchedLater(s: string, from: string, subst: string, i: nat, r: Option<nat>)
    requires from != [] && i < |s| && !OccursAt(s, from, i) && Searched(s, from, subst, i + 1, r)
    ensures Searched(s, from, subst, i, r)
  {
    hide ReplaceAll, OccursAt;
    ReplaceStep(s, from, subst, i);
    match r {
      case None =>
        assert s[i..] == [s[i]] + s[i + 1..];
      case Some(at) =>
        PrependOne(s, i, at, subst, ReplaceAll(s[at + |from|..], from, subst));
    }
  }

  lemma {:induction false} SearchedRest(s: string, from: string, subst: string, i: nat)
    requires from != [] && i <= |s|
    ensures Searched(s, from, subst, i, Find(s, from, i))
    decreases |s| - i
  {
    if i == |s| {
      assert s[i..] == [];
    } else if OccursAt(s, from, i) {
      SearchedHere(s, from, subst, i);
    } else {
      SearchedRest(s, from, subst, i + 1);
      FindSkips(s, from, i);
      SearchedLater(s, from, subst, i, Find(s, from, i + 1));
    }
  }

  lemma FindSkips(s: string, from: string, i: nat)
    requires !OccursAt(s, from, i)
    ensures Find(s, from, i) == Find(s, from, i + 1)
  {
  }

  /** The first `done` characters are final, and replacing in the rest gives `goal`. */
  predicate Settled(line: string, from: string, subst: string, done: nat, goal: string)
    requires from != []
  {
    done <= |line| && line[..done] + ReplaceAll(line[done..], from, subst) == goal
  }

  /** One round settles the line up to the end of the inserted text. */
  lemma RoundSettles(line: string, from: string, subst: string, done: nat, at: nat, goal: string)
    requires from != [] && Settled(line, from, subst, done, goal) && Find(line, from, done) == Some(at)
    ensures var next := line[..at] + subst + line[at + |from|..];
      && Settled(next, from, subst, at + |subst|, goal) && |next| - (at + |subst|) < |line| - done
  {
    hide Find, ReplaceAll, OccursAt;
    SearchedRest(line, from, subst, done);
    var next := line[..at] + subst + line[at + |from|..];
    assert next[..at + |subst|] == line[..done] + line[done..at] + subst;
    assert next[at + |subst|..] == line[at + |from|..];
  }

  lemma AllSettled(line: string, from: string, subst: string, done: nat, goal: string)
    requires from != [] && Settled(line, from, subst, done, goal) && Find(line, from, done) == None
    ensures line == goal
  {
    SearchedRest(line, from, subst, done);
    assert line == line[..done] + line[done..];
  }

  lemma NoneSettled(line: string, from: string, subst: string)
    requires from != []
    ensures Settled(line, from, subst, 0, ReplaceAll(line, from, subst))
  {
    assert line[0..] == line && line[..0] == [];
  }

  /** Up to `done` the line is final, and the search has gone on from there. */
  predicate SettledUpTo(x: Loop, from: string, subst: string, done: nat, goal: string)
    requires from != []
  {
    Settled(x.line, from, subst, done, goal) && Find(x.line, from, done) == if x.Running? then Some(x.at) else None
  }

  lemma StartSettled(line: string, from: string, subst: string)
    requires from != []
    ensures SettledUpTo(Look(line, from, 0), from, subst, 0, ReplaceAll(line, from, subst))
  {
    NoneSettled(line, from, subst);
    hide Find, Settled, ReplaceAll;
  }

  lemma RoundSettled(x: Loop, from: string, subst: string, done: nat, goal: string)
    requires from != [] && x.Running? && OccursAt(x.line, from, x.at) && SettledUpTo(x, from, subst, done, goal)
    ensures SettledUpTo(Round(x, from, subst), from, subst, x.at + |subst|, goal)
  {
    hide Find, Settled;
    RoundSettles(x.line, from, subst, done, x.at, goal);
  }

  lemma RoundsUnfolded(line: string, from: string, subst: string, k: nat)
    ensures k == 0 ==> Rounds(line, from, subst, k) == Look(line, from, 0)
    ensures k > 0 ==> Rounds(line, from, subst, k) == Round(Rounds(line, from, subst, k - 1), from, subst)
    ensures k > 0 && Rounds(line, from, subst, k - 1).Ended? ==>
      Rounds(line, from, subst, k) == Rounds(line, from, subst, k - 1)
  {
  }

  lemma {:induction false} RoundsSettle(line: string, from: string, subst: string, k: nat) returns (done: nat)
    requires from != []
    ensures SettledUpTo(Rounds(line, from, subst, k), from, subst, done, ReplaceAll(line, from, subst))
  {
    hide *;
    RoundsUnfolded(line, from, subst, k);
    if k == 0 {
      done := 0;
      StartSettled(line, from, subst);
    } else {
      done := RoundsSettle(line, from, subst, k - 1);
      var x := Rounds(line, from, subst, k - 1);
      if x.Running? {
        RoundSettled(x, from, subst, done, ReplaceAll(line, from, subst));
        done := x.at + |subst|;
      }
    }
  }

  /** When the loop is over, every occurrence has been replaced. */
  lemma LoopReplacesAll(line: string, from: string, subst: string, k: nat)
    requires from != [] && Rounds(line, from, subst, k).Ended?
    ensures Rounds(line, from, subst, k).line == ReplaceAll(line, from, subst)
  {
    var done := RoundsSettle(line, from, subst, k);
    AllSettled(Rounds(line, from, subst, k).line, from, subst, done, ReplaceAll(line, from, subst));
  }

  /** `SReplaceVisit::operator()`. */
  method ReplaceInPlace(strLine: string, strFrom: string, strTo: string) returns (line: string)
    requires strFrom != []
    ensures line == ReplaceAll(strLine, strFrom, strTo)
  {
    line := strLine;
    ghost var done: nat, goal := 0, ReplaceAll(strLine, strFrom, strTo);
    NoneSettled(line, strFrom, strTo);
    var nIndex := Find(line, strFrom, 0);
    while nIndex != None
      invariant Settled(line, strFrom, strTo, done, goal) && nIndex == Find(line, strFrom, done)
      decreases |line| - done
    {
      var at := nIndex.value;
      RoundSettles(line, strFrom, strTo, done, at, goal);
      line := line[..at] + strTo + line[at + |strFrom|..];
      done := at + |strTo|;
      nIndex := Find(line, strFrom, at + |strTo|);
    }
    AllSettled(line, strFrom, strTo, done, goal);
  }

  // ----- what was replaced -----

  /** The stretches of `s` between the occurrences that are replaced. */
  function Pieces(s: string, from: string): (r: seq<string>)
    requires from != []
    ensures r != []
    decreases |s|
  {
    match Find(s, from, 0)
    case None => [s]
    case Some(at) => [s[..at]] + Pieces(s[at + |from|..], from)
  }

  function Join(pieces: seq<string>, glue: string): string {
    if pieces == [] then []
    else if |pieces| == 1 then pieces[0]
    else pieces[0] + glue + Join(pieces[1..], glue)
  }

  /** Followed by `from`, the piece has its first occurrence of `from` at its end. */
  predicate FirstAtEnd(piece: string, from: string) {
    Find(piece + from, from, 0) == Some(|piece|)
  }

  predicate LeftmostPieces(pieces: seq<string>, from: string) {
    && pieces != []
    && (forall i :: 0 <= i < |pieces| - 1 ==> FirstAtEnd(pieces[i], from))
    && Find(pieces[|pieces| - 1], from, 0) == None
  }

  lemma FoundIsFirstAtEnd(s: string, from: string, at: nat)
    requires Find(s, from, 0) == Some(at)
    ensures FirstAtEnd(s[..at], from)
  {
    hide Find;
    var t := s[..at] + from;
    assert t == s[..at + |from|];
    assert OccursAt(t, from, at);
    forall j: nat | j < at ensures !OccursAt(t, from, j) {
      assert !OccursAt(s, from, j);
      if j + |from| <= |t| {
        assert t[j..j + |from|] == s[j..j + |from|];
      }
    }
  }

  lemma {:induction false} PiecesAreLeftmost(s: string, from: string)
    requires from != []
    ensures LeftmostPieces(Pieces(s, from), from)
    decreases |s|
  {
    hide Find, FirstAtEnd;
    match Find(s, from, 0) {
      case None =>
      case Some(at) =>
        FoundIsFirstAtEnd(s, from, at);
        PiecesAreLeftmost(s[at + |from|..], from);
        var p, q := Pieces(s, from), Pieces(s[at + |from|..], from);
        forall i | 0 <= i < |p| - 1 ensures FirstAtEnd(p[i], from) {
          assert i > 0 ==> p[i] == q[i - 1];
        }
    }
  }

  lemma JoinOne(x: string, glue: string)
    ensures Join([x], glue) == x
  {
  }

  lemma JoinCons(x: string, q: seq<string>, glue: string)
    requires q != []
    ensures Join([x] + q, glue) == x + glue + Join(q, glue)
  {
    assert ([x] + q)[1..] == q;
  }

  /** The line is its pieces glued with `from`. */
  lemma {:induction false} PiecesJoin(s: string, from: string)
    requires from != []
    ensures Join(Pieces(s, from), from) == s
    decreases |s|
  {
    hide Find, Join;
    JoinOne(s, from);
    match Find(s, from, 0) {
      case None =>
      case Some(at) =>
        var rest := s[at + |from|..];
        PiecesJoin(rest, from);
        JoinCons(s[..at], Pieces(rest, from), from);
        assert s == s[..at] + from + rest;
    }
  }

  lemma FromStart(s: string, from: string, subst: string, r: Option<nat>)
    requires from != [] && Searched(s, from, subst, 0, r)
    ensures match r
      case None => ReplaceAll(s, from, subst) == s
      case Some(at) =>
        && at + |from| <= |s|
        && ReplaceAll(s, from, subst) == s[..at] + subst + ReplaceAll(s[at + |from|..], from, subst)
  {
    assert s[0..] == s;
  }

  /** The result is the same pieces glued with the new text. */
  lemma {:induction false} ReplacementJoin(s: string, from: string, subst: string)
    requires from != []
    ensures Join(Pieces(s, from), subst) == ReplaceAll(s, from, subst)
    decreases |s|
  {
    hide Find, ReplaceAll, Join, Searched, OccursAt;
    var r := Find(s, from, 0);
    SearchedRest(s, from, subst, 0);
    FromStart(s, from, subst, r);
    JoinOne(s, subst);
    match r {
      case None =>
      case Some(at) =>
        var rest := s[at + |from|..];
        ReplacementJoin(rest, from, subst);
        JoinCons(s[..at], Pieces(rest, from), subst);
    }
  }

  function TotalLength(p: seq<string>): nat {
    if p == [] then 0 else |p[0]| + TotalLength(p[1..])
  }

  lemma {:induction false} JoinLength(p: seq<string>, glue: string)
    requires p != []
    ensures |Join(p, glue)| == TotalLength(p) + (|p| - 1) * |glue|
  {
    if |p| == 1 {
    } else {
      JoinLength(p[1..], glue);
      assert (|p| - 1) * |glue| == (|p[1..]| - 1) * |glue| + |glue|;
    }
  }

  /**
   The line is its pieces glued with the old text, each ending at the first occurrence there is; the
   result is the same pieces glued with the new text, so `k` replacements change the length by `k`
   times the difference.
   */
  lemma ReplacementExchangesGlue(s: string, from: string, subst: string)
    requires from != []
    ensures var p := Pieces(s, from);
      && LeftmostPieces(p, from)
      && Join(p, from) == s && Join(p, subst) == ReplaceAll(s, from, subst)
      && |ReplaceAll(s, from, subst)| == |s| + (|p| - 1) * (|subst| - |from|)
  {
    hide Pieces, Join, ReplaceAll, LeftmostPieces;
    var p := Pieces(s, from);
    PiecesAreLeftmost(s, from);
    PiecesJoin(s, from);
    ReplacementJoin(s, from, subst);
    JoinLength(p, from);
    JoinLength(p, subst);
    Distribute(|p| - 1, |subst|, |from|);
  }

  lemma Distribute(k: int, a: int, b: int)
    ensures k * (a - b) == k * a - k * b
  {
  }
}
