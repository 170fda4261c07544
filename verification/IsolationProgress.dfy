/**
 Validation never waits in a circle, and only finitely many steps are left to any set of commits.
 */
module IsolationProgress {
  import opened Options
  import opened CommitRecords
  import opened IsolationProtocol
  import opened IsolationInvariants
  import opened Isolation

  /* Neither validated nor aborted yet. */
  predicate Undecided(s: State, n: nat) {
    s.initial <= n < |s.commits| && (s.commits[n].marker.Empty? || s.commits[n].marker.Pending?)
  }

  /* A commit that cannot move waits for a strictly smaller number that is not decided yet. */
  lemma WaitsForSmaller(run: seq<State>, k: nat, n: nat)
    requires Execution(run) && k < |run| && Undecided(run[k], n)
    requires !CanAdvance(run[k], n) && !run[k].commits[n].pc.Panicked?
    ensures var pc := run[k].commits[n].pc;
            (pc.Walking? || pc.Awaiting?) && pc.cursor < n && Undecided(run[k], pc.cursor)
  {
    var s := run[k];
    ReachableHasInvariant(run, k);
    assert CommitOk(s, n);
    var pc := s.commits[n].pc;
    assert pc.Walking? || pc.Awaiting?;
    if pc.cursor < s.initial {
      assert false;
    }
  }

  lemma {:induction false} LeastUndecided(s: State, n: nat) returns (m: nat)
    requires Undecided(s, n)
    ensures m <= n && Undecided(s, m) && forall p :: 0 <= p < m ==> !Undecided(s, p)
  {
    if p :| 0 <= p < n && Undecided(s, p) {
      m := LeastUndecided(s, p);
    } else {
      m := n;
    }
  }

  /* As long as some commit is undecided and no thread has panicked, some undecided commit can move. */
  lemma SomeUndecidedCanAdvance(run: seq<State>, k: nat, n: nat) returns (m: nat)
    requires Execution(run) && k < |run| && Undecided(run[k], n)
    requires forall p :: 0 <= p < |run[k].commits| ==> !run[k].commits[p].pc.Panicked?
    ensures m <= n && Undecided(run[k], m) && CanAdvance(run[k], m)
  {
    m := LeastUndecided(run[k], n);
    if !CanAdvance(run[k], m) {
      WaitsForSmaller(run, k, m);
      assert false;
    }
  }

  /******* A bound on the remaining steps *******/

  function Minus(a: nat, b: nat): nat {
    if a < b then 0 else a - b
  }

  /* The steps a thread may still take once its slot is finished, among `total` numbers. */
  function MarkRank(total: nat, candidate: nat): nat {
    3 + 3 * Minus(total + 2, candidate)
  }

  /* An upper bound on the steps left to the thread of commit n. */
  function Rank(total: nat, n: nat, c: Commit): nat {
    var loading := MarkRank(total, 0) + 3;
    var applying := loading + 1;
    match c.pc
    case Done => 0
    case Panicked => 0
    case Persisting => 1
    case Swapping(candidate, _) => MarkRank(total, candidate)
    case Inspecting(candidate, _) => MarkRank(total, candidate) + 1
    case Locating(candidate) => MarkRank(total, candidate) + 2
    case LoadingMark => loading
    case Applying => applying
    case Unpinning => if c.marker.Aborted? then 2 else applying + 1
    case Publishing => applying + 2
    case Deciding(_) => applying + 3
    case Awaiting(cursor, _) => applying + 3 + 2 * Minus(n, cursor)
    case Walking(cursor, _) => applying + 4 + 2 * Minus(n, cursor)
    case Scanning(cursor, _, _) => applying + 5 + 2 * Minus(n, cursor)
    case ReadingStatuses(_) => applying + 6 + 2 * n
    case Collecting => applying + 7 + 2 * n
    case Entering => applying + 8 + 2 * n
    case Logged => applying + 9 + 2 * n
  }

  function RankAt(s: State, n: nat): nat
    requires n < |s.commits|
  {
    Rank(|s.commits|, n, s.commits[n])
  }

  function Work(s: State, upto: nat): nat
    requires upto <= |s.commits|
  {
    if upto == 0 then 0 else Work(s, upto - 1) + RankAt(s, upto - 1)
  }

  lemma {:induction false} WorkChangesByOne(s: State, s': State, n: nat, upto: nat)
    requires |s'.commits| == |s.commits| && upto <= |s.commits| && n < |s.commits|
    requires forall m :: 0 <= m < |s.commits| && m != n ==> s'.commits[m] == s.commits[m]
    ensures Work(s', upto) == if n < upto then Work(s, upto) - RankAt(s, n) + RankAt(s', n) else Work(s, upto)
  {
    if upto > 0 {
      WorkChangesByOne(s, s', n, upto - 1);
    }
  }

  lemma ScanLowersRank(s: State, n: nat)
    requires n < |s.commits| && s.commits[n].pc.Scanning? && s.commits[n].pc.stop <= n
    requires s.commits[n].pc.cursor <= s.commits[n].pc.stop
    ensures Rank(|s.commits|, n, Scan(s, n)) < RankAt(s, n)
  {
    var c := s.commits[n];
    var Scanning(cursor, stop, statuses) := c.pc;
    if cursor < stop && cursor < |s.commits| {
      SettleLowersRank(|s.commits|, n, c, s.commits[cursor].record, cursor, Scanning(cursor + 1, stop, statuses));
    }
  }

  /* Dealing with one predecessor, whatever comes of it. */
  lemma SettleLowersRank(total: nat, n: nat, c: Commit, p: CommitRecord, cursor: nat, next: Pc)
    requires cursor < n && (c.pc.Scanning? || c.pc.Walking? || c.pc.Awaiting?) && c.pc.cursor == cursor
    requires (next.Scanning? && c.pc.Scanning?) || next.Walking?
    requires next.cursor == cursor + 1
    ensures Rank(total, n, Settle(c, p, cursor, next)) < Rank(total, n, c)
    ensures Rank(total, n, Skip(c, cursor, next)) < Rank(total, n, c)
  {
  }

  lemma WalkLowersRank(s: State, n: nat)
    requires n < |s.commits| && s.commits[n].pc.Walking? && CanWalk(s, n)
    ensures Rank(|s.commits|, n, Walk(s, n)) < RankAt(s, n)
  {
    var c := s.commits[n];
    var Walking(cursor, index) := c.pc;
    if cursor < n && InWindow(c.held, cursor, index) {
      SettleLowersRank(|s.commits|, n, c, s.commits[cursor].record, cursor, NextWalk(c.held, cursor, index));
    }
  }

  lemma AwaitLowersRank(s: State, n: nat)
    requires n < |s.commits| && s.commits[n].pc.Awaiting? && CanAwait(s, n)
    ensures Rank(|s.commits|, n, Await(s, n)) < RankAt(s, n)
  {
    var c := s.commits[n];
    var Awaiting(cursor, index) := c.pc;
    if cursor < n && InWindow(c.held, cursor, index) {
      SettleLowersRank(|s.commits|, n, c, s.commits[cursor].record, cursor, NextWalk(c.held, cursor, index));
    }
  }

  lemma MarkLowersRank(s: State, n: nat)
    requires 0 < n < |s.commits| && |s.windows| > 0 && s.watermark < |s.commits|
    ensures s.commits[n].pc.LoadingMark? ==> Rank(|s.commits|, n, LoadMark(s, n)) < RankAt(s, n)
    ensures s.commits[n].pc.Locating? ==> Rank(|s.commits|, n, Locate(s, n)) < RankAt(s, n)
    ensures s.commits[n].pc.Inspecting? ==> Rank(|s.commits|, n, Inspect(s, n)) < RankAt(s, n)
  {
  }

  lemma SwapLowersRank(s: State, n: nat)
    requires n < |s.commits| && s.commits[n].pc.Swapping? && s.commits[n].pc.candidate < |s.commits|
    ensures RankAt(Swap(s, n), n) < RankAt(s, n)
  {
  }

  /* The other program counters are passed once each. */
  lemma OnceLowersRank(s: State, n: nat)
    requires CanAdvance(s, n) && s.commits[n].record.open < n
    requires var pc := s.commits[n].pc;
             !(pc.Scanning? || pc.Walking? || pc.Awaiting? || MovingWatermark(pc))
    requires s.commits[n].pc.Deciding? ==> s.commits[n].marker.Pending?
    ensures |Advance(s, n).commits| == |s.commits| && RankAt(Advance(s, n), n) < RankAt(s, n)
  {
  }

  lemma AdvanceLowersRank(s: State, n: nat)
    requires 0 < n < |s.commits| && |s.windows| > 0 && CommitOk(s, n) && s.watermark < |s.commits| && CanAdvance(s, n)
    ensures |Advance(s, n).commits| == |s.commits| && RankAt(Advance(s, n), n) < RankAt(s, n)
  {
    match s.commits[n].pc
    case Scanning(_, _, _) => ScanLowersRank(s, n);
    case Walking(_, _) => WalkLowersRank(s, n);
    case Awaiting(_, _) => AwaitLowersRank(s, n);
    case LoadingMark => MarkLowersRank(s, n);
    case Locating(_) => MarkLowersRank(s, n);
    case Inspecting(_, _) => MarkLowersRank(s, n);
    case Swapping(_, _) => SwapLowersRank(s, n);
    case _ => OnceLowersRank(s, n);
  }

  lemma OthersStay(s: State, n: nat)
    requires CanAdvance(s, n)
    ensures |Advance(s, n).commits| == |s.commits|
    ensures forall m :: 0 <= m < |s.commits| && m != n ==> Advance(s, n).commits[m] == s.commits[m]
  {
  }

  /* Every step of a commit's thread uses up some of the remaining work. */
  lemma AdvanceUsesUpWork(s: State, n: nat)
    requires Inv(s) && CanAdvance(s, n)
    ensures var s' := Advance(s, n); |s'.commits| == |s.commits| && Work(s', |s'.commits|) < Work(s, |s.commits|)
  {
    HistoryTakesNoStep(s, n);
    var s' := Advance(s, n);
    assert CommitOk(s, n);
    AdvanceLowersRank(s, n);
    OthersStay(s, n);
    WorkChangesByOne(s, s', n, |s.commits|);
  }

  /* The step from position m on is one of a commit's thread. */
  ghost predicate CommitMovesAt(run: seq<State>, m: nat)
    requires m + 1 < |run|
  {
    exists n: nat :: CanAdvance(run[m], n) && run[m + 1] == Advance(run[m], n)
  }

  /* How many steps of commit threads there are between positions i and k. */
  ghost function CommitMoves(run: seq<State>, i: nat, k: nat): nat
    requires i <= k < |run|
    decreases k
  {
    if i == k then 0 else CommitMoves(run, i, k - 1) + (if CommitMovesAt(run, k - 1) then 1 else 0)
  }

  lemma {:induction false} WorkOfSameCommits(s: State, s': State, upto: nat)
    requires s'.commits == s.commits && upto <= |s.commits|
    ensures Work(s', upto) == Work(s, upto)
  {
    if upto > 0 {
      WorkOfSameCommits(s, s', upto - 1);
    }
  }

  /* Only a new commit adds work. */
  lemma StepAddsNoWork(s: State, step: Step)
    requires Inv(s) && Enabled(s, step) && |Apply(s, step).commits| == |s.commits|
    ensures Work(Apply(s, step), |s.commits|) <= Work(s, |s.commits|)
  {
    hide Inv, Work;
    if step.AdvanceCommit? {
      AdvanceUsesUpWork(s, step.n);
    } else {
      WorkOfSameCommits(s, Apply(s, step), |s.commits|);
    }
  }

  /* Between two states with the same commits, the commit threads take at most as many steps as there was
     work, however the scheduler picks them and whatever snapshots are opened or closed and windows freed
     in between. */
  lemma {:induction false} CommitStepsAreBounded(run: seq<State>, i: nat, k: nat)
    requires Execution(run) && i <= k < |run| && |run[k].commits| == |run[i].commits|
    ensures CommitMoves(run, i, k) + Work(run[k], |run[k].commits|) <= Work(run[i], |run[i].commits|)
    decreases k
  {
    hide Inv, Work, CanAdvance, Advance, Enabled, Apply;
    if i < k {
      RunsMoveForward(run, i, k - 1);
      RunsMoveForward(run, k - 1, k);
      CommitStepsAreBounded(run, i, k - 1);
      var step := StepInto(run, k);
      if CommitMovesAt(run, k - 1) {
        var n: nat :| CanAdvance(run[k - 1], n) && run[k] == Advance(run[k - 1], n);
        AdvanceUsesUpWork(run[k - 1], n);
      } else {
        StepAddsNoWork(run[k - 1], step);
      }
    }
  }

  lemma StuckIsDecidedOrWaiting(s: State, n: nat)
    requires Inv(s) && s.initial <= n < |s.commits| && !CanAdvance(s, n) && !s.commits[n].pc.Panicked?
    ensures Undecided(s, n) || (s.commits[n].pc.Done? && Finished(s.commits[n].marker) && s.commits[n].persisted.Some?)
  {
    assert CommitOk(s, n);
  }

  /* When no commit can move and none has panicked, every commit is decided, and its status is in the log. */
  lemma QuietMeansDecided(run: seq<State>, k: nat, n: nat)
    requires Execution(run) && k < |run| && run[k].initial <= n < |run[k].commits|
    requires forall p :: 0 <= p < |run[k].commits| ==> !CanAdvance(run[k], p) && !run[k].commits[p].pc.Panicked?
    ensures run[k].commits[n].pc.Done? && Finished(run[k].commits[n].marker)
    ensures run[k].commits[n].persisted == Some(run[k].commits[n].marker.Applied?)
  {
    ReachableHasInvariant(run, k);
    StuckIsDecidedOrWaiting(run[k], n);
    if Undecided(run[k], n) {
      var m := SomeUndecidedCanAdvance(run, k, n);
    }
    assert CommitOk(run[k], n);
  }
}
