/**
 The watermark loop of `may_increment_watermark` keeps the protocol's invariant: the watermark only
 moves over finished slots, and a finished slot right after it always has a thread that will look at it.
 */
module IsolationWatermark {
  import opened TimelineWindows
  import opened IsolationProtocol
  import opened IsolationInvariants
  import opened IsolationSteps

  /* A step of the watermark loop that only moves the program counter. */
  lemma MarkStep(s: State, n: nat, pc: Pc)
    requires Inv(s) && s.initial <= n < |s.commits|
    requires var c := s.commits[n]; c.pc.LoadingMark? || c.pc.Locating? || c.pc.Inspecting? || c.pc.Swapping?
    requires pc.Locating? || pc.Inspecting? || pc.Swapping? || s.commits[n].(pc := pc) == AfterMark(s.commits[n])
    requires PcOk(WithCommit(s, n, s.commits[n].(pc := pc)), n)
    requires AdvanceOk(WithCommit(s, n, s.commits[n].(pc := pc)))
    ensures Inv(WithCommit(s, n, s.commits[n].(pc := pc)))
    ensures Evolves(s, WithCommit(s, n, s.commits[n].(pc := pc)))
  {
    hide Walked, Justified, PinCount, HeldAt, HeldFrom, Contiguous, Resolve;
    assert CommitOk(s, n);
    var c' := s.commits[n].(pc := pc);
    DecisionKept(s, n, c');
    CommitStepKeepsInvariant(s, n, c');
  }

  lemma LoadingMarkStep(s: State, n: nat)
    requires Inv(s) && s.initial <= n < |s.commits| && s.commits[n].pc.LoadingMark?
    ensures Inv(Advance(s, n)) && Evolves(s, Advance(s, n))
  {
    assert CommitOk(s, n);
    var c' := LoadMark(s, n);
    ResponsibilityKept(s, n, c');
    MarkStep(s, n, c'.pc);
  }

  /* A finished slot right after the watermark is in memory. */
  lemma NextSlotIsInMemory(s: State)
    requires Inv(s) && NextSlotFinished(s)
    ensures Resolve(s.windows, s.watermark + 1).Some?
  {
    assert CommitOk(s, s.watermark + 1);
  }

  lemma LocatingStep(s: State, n: nat)
    requires Inv(s) && s.initial <= n < |s.commits| && s.commits[n].pc.Locating?
    ensures Inv(Advance(s, n)) && Evolves(s, Advance(s, n))
  {
    assert CommitOk(s, n);
    var c' := Locate(s, n);
    var candidate := s.commits[n].pc.candidate;
    ResolveNamesTheWindow(s.windows, candidate);
    if c'.pc.Inspecting? {
      ResponsibilityKept(s, n, c');
    } else if NextSlotFinished(s) {
      NextSlotIsInMemory(s);
      ResponsibilityKept(s, n, c');
    } else {
      NothingToBeResponsibleFor(s, n, c');
    }
    MarkStep(s, n, c'.pc);
  }

  lemma InspectingStep(s: State, n: nat)
    requires Inv(s) && s.initial <= n < |s.commits| && s.commits[n].pc.Inspecting?
    ensures Inv(Advance(s, n)) && Evolves(s, Advance(s, n))
  {
    hide Walked, Justified, PinCount, HeldAt, HeldFrom, Contiguous, Resolve;
    assert CommitOk(s, n);
    var c' := Inspect(s, n);
    if NextSlotFinished(s) {
      ResponsibilityKept(s, n, c');
    } else {
      NothingToBeResponsibleFor(s, n, c');
    }
    MarkStep(s, n, c'.pc);
  }

  /* Moving the watermark over a finished slot: what is known about the commits. */
  lemma RaisedCommits(s: State, n: nat)
    requires CommitsOk(s) && 1 <= s.initial <= n < |s.commits| && s.commits[n].pc.Swapping?
    requires s.commits[n].pc.candidate == s.watermark + 1
    ensures Evolves(s, Swap(s, n)) && CommitsOk(Swap(s, n))
  {
    assert CommitOk(s, n);
    var s' := Swap(s, n);
    if Committed(s.commits[n].marker) {
      WalkedIsStable(s, s', n, n);
    } else {
      JustifiedIsStable(s, s', n);
    }
    OtherCommitsOk(s, s', n);
  }

  lemma RaisedWatermarkOk(s: State, n: nat)
    requires WindowsOk(s) && WatermarkOk(s) && CommitsOk(s) && s.initial <= n < |s.commits| && s.commits[n].pc.Swapping?
    requires s.commits[n].pc.candidate == s.watermark + 1
    ensures WindowsOk(Swap(s, n)) && WatermarkOk(Swap(s, n))
  {
    assert CommitOk(s, n);
    assert CommitOk(s, s.watermark + 1);
  }

  lemma RaisingWatermark(s: State, n: nat)
    requires Inv(s) && s.initial <= n < |s.commits| && s.commits[n].pc.Swapping?
    requires s.commits[n].pc.candidate == s.watermark + 1
    ensures Inv(Swap(s, n)) && Evolves(s, Swap(s, n))
  {
    var s' := Swap(s, n);
    RaisedCommits(s, n);
    RaisedWatermarkOk(s, n);
    UsageStaysOk(s, n, s'.commits[n]);
    forall j | 0 <= j < |s'.snapshots| ensures SnapshotOk(s', s'.snapshots[j]) {
      assert SnapshotOk(s, s.snapshots[j]);
    }
    assert Responsible(s', n);
  }

  lemma SwappingStep(s: State, n: nat)
    requires Inv(s) && s.initial <= n < |s.commits| && s.commits[n].pc.Swapping?
    ensures Inv(Advance(s, n)) && Evolves(s, Advance(s, n))
  {
    assert CommitOk(s, n);
    if s.watermark + 1 == s.commits[n].pc.candidate {
      RaisingWatermark(s, n);
    } else {
      var c' := AfterMark(s.commits[n]);
      ResponsibilityKept(s, n, c');
      MarkStep(s, n, c'.pc);
    }
  }
}
