/**
 The sync thread's acknowledgement protocol (durability/wal.rs: `schedule_next_sync_may_subscribe`,
 `may_sync_and_update_state`, `sync_all`): producers write a record and push into one of two buffers, and each
 round of the sync thread flips the buffers, syncs the newest file, and drains the buffer it left.
 */
module Fsync {

  /* An entry of a buffer: when its sender's record was written, when the entry was pushed and in which round,
     and whether the sender waits. */
  datatype Entry = Entry(written: nat, pushed: nat, round: nat, subscribed: bool)

  /* A file of the log: the moments at which its records were written, and those that have been synced. */
  datatype File = File(records: set<nat>, synced: set<nat>)

  /* A producer that has written its record, and one that has also read the index. */
  datatype Producer = Wrote(written: nat) | Asking(written: nat, index: nat)

  /* The sync thread. It holds the lock of buffer `index` from Locked until the round ends. */
  datatype Pc =
    | Idle
    | Loaded(index: nat)
    | Flipped(index: nat)
    | Locked(index: nat)
    | Syncing(index: nat, began: nat)
    | Draining(index: nat, began: nat, ended: nat)

  /* An acknowledgement sent by the sync thread, with the moments that led to it. */
  datatype Ack = Ack(written: nat, pushed: nat, began: nat, ended: nat, sent: nat)

  datatype State = State(
    buffers: map<nat, seq<Entry>>,
    current: nat,
    producers: map<nat, Producer>,
    files: seq<File>,
    pc: Pc,
    clock: nat,
    rounds: nat,
    acks: seq<Ack>)

  /* The steps of the producers and of the sync thread. A write may first rotate to a file with a new path; one
     that reuses the newest path stays in the same file. A producer reads the index first and pushes later, so
     the index may be stale. Records written without a request are those of producers that never read it. */
  datatype Step =
    | Write(producer: nat, rotate: bool)
    | ReadIndex(producer: nat)
    | Push(producer: nat, subscribe: bool)
    | LoadCurrent
    | Flip
    | Lock
    | BeginSync
    | EndSync
    | Pop
    | Finish

  const INIT: State := State(map[0 := [], 1 := []], 0, map[], [], Idle, 0, 0, [])

  predicate HoldsLock(s: State, index: nat) {
    (s.pc.Locked? || s.pc.Syncing? || s.pc.Draining?) && s.pc.index == index
  }

  function Buffer(s: State, index: nat): seq<Entry> {
    if index in s.buffers then s.buffers[index] else []
  }

  /* While it syncs, the thread holds the lock on the files, and nothing is written. */
  predicate Enabled(s: State, step: Step) {
    match step
    case Write(p, rotate) => p !in s.producers && !s.pc.Syncing? && (s.files == [] ==> rotate)
    case ReadIndex(p) => p in s.producers && s.producers[p].Wrote?
    case Push(p, _) => p in s.producers && s.producers[p].Asking? && !HoldsLock(s, s.producers[p].index)
    case LoadCurrent => s.pc.Idle?
    case Flip => s.pc.Loaded?
    case Lock => s.pc.Flipped?
    case BeginSync => s.pc.Locked? && Buffer(s, s.pc.index) != []
    case EndSync => s.pc.Syncing?
    case Pop => s.pc.Draining? && Buffer(s, s.pc.index) != []
    case Finish => (s.pc.Locked? || s.pc.Draining?) && Buffer(s, s.pc.index) == []
  }

  function Stored(files: seq<File>, moment: nat, rotate: bool): (r: seq<File>)
    requires files == [] ==> rotate
  {
    if rotate then files + [File({moment}, {})]
    else
      var last := |files| - 1;
      files[last := files[last].(records := files[last].records + {moment})]
  }

  /* Only the newest file is synced. */
  function Synced(files: seq<File>): (r: seq<File>) {
    if files == [] then []
    else
      var last := |files| - 1;
      files[last := files[last].(synced := files[last].records)]
  }

  function Apply(s: State, step: Step): State
    requires Enabled(s, step)
  {
    var s := s.(clock := s.clock + 1);
    match step
    case Write(p, rotate) =>
      s.(producers := s.producers[p := Wrote(s.clock - 1)], files := Stored(s.files, s.clock - 1, rotate))
    case ReadIndex(p) => s.(producers := s.producers[p := Asking(s.producers[p].written, s.current)])
    case Push(p, subscribe) =>
      var Asking(written, index) := s.producers[p];
      s.(producers := s.producers - {p},
         buffers := s.buffers[index := Buffer(s, index) + [Entry(written, s.clock - 1, s.rounds, subscribe)]])
    case LoadCurrent => s.(pc := Loaded(s.current))
    case Flip => s.(current := if s.pc.index == 0 then 1 else 0, pc := Flipped(s.pc.index))
    case Lock => s.(pc := Locked(s.pc.index))
    case BeginSync => s.(pc := Syncing(s.pc.index, s.clock - 1))
    case EndSync => s.(pc := Draining(s.pc.index, s.pc.began, s.clock - 1), files := Synced(s.files))
    case Pop =>
      var index := s.pc.index;
      var entries := Buffer(s, index);
      var popped := entries[|entries| - 1];
      s.(buffers := s.buffers[index := entries[..|entries| - 1]],
         acks := if !popped.subscribed then s.acks
                 else s.acks + [Ack(popped.written, popped.pushed, s.pc.began, s.pc.ended, s.clock - 1)])
    case Finish => s.(pc := Idle, rounds := s.rounds + 1)
  }

  /******* Traces *******/

  /* Every step of the trace was possible when it was taken. */
  predicate Legal(trace: seq<Step>)
    decreases |trace|, 0
  {
    trace == [] || (Legal(trace[..|trace| - 1]) && Enabled(After(trace[..|trace| - 1]), trace[|trace| - 1]))
  }

  function After(trace: seq<Step>): State
    requires Legal(trace)
    decreases |trace|, 1
  {
    if trace == [] then INIT else Apply(After(trace[..|trace| - 1]), trace[|trace| - 1])
  }

  predicate Happened(trace: seq<Step>, t: nat, step: Step) {
    t < |trace| && trace[t] == step
  }

  predicate PushedAt(trace: seq<Step>, t: nat, subscribe: bool) {
    t < |trace| && trace[t].Push? && trace[t].subscribe == subscribe
  }

  predicate WrittenAt(trace: seq<Step>, t: nat, producer: nat) {
    t < |trace| && trace[t].Write? && trace[t].producer == producer
  }

  /* How many rounds a trace completes. */
  function RoundsIn(trace: seq<Step>): nat {
    if trace == [] then 0 else RoundsIn(trace[..|trace| - 1]) + (if trace[|trace| - 1].Finish? then 1 else 0)
  }

  /******* Which buffer each round drains *******/

  /* Round r drains buffer r % 2, and entries never wait longer than the round after the one they came in. */
  predicate Alternates(s: State) {
    && s.buffers.Keys == {0, 1} && s.current < 2
    && (forall p :: p in s.producers && s.producers[p].Asking? ==> s.producers[p].index < 2)
    && (!s.pc.Idle? ==> s.pc.index == s.rounds % 2)
    && s.current == (if s.pc.Idle? || s.pc.Loaded? then s.rounds % 2 else 1 - s.rounds % 2)
  }

  predicate Timely(e: Entry, index: nat, rounds: nat) {
    e.round == rounds || (e.round + 1 == rounds && index == rounds % 2)
  }

  ghost predicate EntriesTimely(s: State) {
    forall b, k :: b in {0, 1} && 0 <= k < |Buffer(s, b)| ==> Timely(Buffer(s, b)[k], b, s.rounds)
  }

  lemma StepAlternates(s: State, step: Step)
    requires Alternates(s) && Enabled(s, step)
    ensures Alternates(Apply(s, step))
  {
  }

  lemma StepTimely(s: State, step: Step)
    requires Alternates(s) && EntriesTimely(s) && Enabled(s, step)
    ensures EntriesTimely(Apply(s, step))
  {
    var s' := Apply(s, step);
    forall b, k | b in {0, 1} && 0 <= k < |Buffer(s', b)| ensures Timely(Buffer(s', b)[k], b, s'.rounds) {
      if k < |Buffer(s, b)| {
        assert Timely(Buffer(s, b)[k], b, s.rounds);
      }
    }
  }

  /******* Every acknowledgement follows a sync that began after the push *******/

  predicate Recorded(trace: seq<Step>, e: Entry) {
    && PushedAt(trace, e.pushed, e.subscribed) && e.round == RoundsIn(trace[..e.pushed])
    && e.written < e.pushed && WrittenAt(trace, e.written, trace[e.pushed].producer)
  }

  predicate SyncRecorded(trace: seq<Step>, pc: Pc) {
    && ((pc.Syncing? || pc.Draining?) ==> Happened(trace, pc.began, BeginSync))
    && (pc.Draining? ==> pc.began < pc.ended && Happened(trace, pc.ended, EndSync))
  }

  predicate InOrder(trace: seq<Step>, a: Ack) {
    && a.written < a.pushed < a.began < a.ended < a.sent
    && PushedAt(trace, a.pushed, true) && WrittenAt(trace, a.written, trace[a.pushed].producer)
    && Happened(trace, a.began, BeginSync) && Happened(trace, a.ended, EndSync) && Happened(trace, a.sent, Pop)
  }

  ghost predicate EntriesRecorded(trace: seq<Step>, s: State) {
    forall b, k :: b in {0, 1} && 0 <= k < |Buffer(s, b)| ==> Recorded(trace, Buffer(s, b)[k])
  }

  ghost predicate WritesRecorded(trace: seq<Step>, s: State) {
    forall p :: p in s.producers ==> WrittenAt(trace, s.producers[p].written, p)
  }

  /* Everything in the buffer being synced was pushed before the sync began. */
  ghost predicate SyncCovers(s: State) {
    s.pc.Syncing? || s.pc.Draining? ==>
      forall k :: 0 <= k < |Buffer(s, s.pc.index)| ==> Buffer(s, s.pc.index)[k].pushed < s.pc.began
  }

  ghost predicate AcksInOrder(trace: seq<Step>, s: State) {
    forall i :: 0 <= i < |s.acks| ==> InOrder(trace, s.acks[i])
  }

  ghost predicate Sound(trace: seq<Step>, s: State) {
    && Alternates(s) && EntriesTimely(s)
    && s.clock == |trace| && s.rounds == RoundsIn(trace)
    && WritesRecorded(trace, s)
    && EntriesRecorded(trace, s) && SyncRecorded(trace, s.pc) && SyncCovers(s) && AcksInOrder(trace, s)
  }

  lemma RecordedLater(trace: seq<Step>, step: Step, e: Entry)
    requires Recorded(trace, e)
    ensures Recorded(trace + [step], e)
  {
    assert (trace + [step])[..e.pushed] == trace[..e.pushed];
  }

  lemma StepRecords(trace: seq<Step>, s: State, step: Step)
    requires Sound(trace, s) && Enabled(s, step)
    ensures EntriesRecorded(trace + [step], Apply(s, step))
  {
    hide Recorded, RoundsIn, Timely, InOrder, SyncRecorded, Stored, Synced;
    var s', trace' := Apply(s, step), trace + [step];
    forall b, k | b in {0, 1} && 0 <= k < |Buffer(s', b)| ensures Recorded(trace', Buffer(s', b)[k]) {
      if k < |Buffer(s, b)| {
        assert Recorded(trace, Buffer(s, b)[k]);
        RecordedLater(trace, step, Buffer(s, b)[k]);
      } else {
        NewEntryRecorded(trace, step, s.producers[step.producer].written, Buffer(s', b)[k]);
      }
    }
  }

  lemma NewEntryRecorded(trace: seq<Step>, step: Step, written: nat, e: Entry)
    requires step.Push? && e == Entry(written, |trace|, RoundsIn(trace), step.subscribe)
    requires WrittenAt(trace, written, step.producer)
    ensures Recorded(trace + [step], e)
  {
    assert (trace + [step])[..|trace|] == trace;
  }

  lemma StepKeepsWritesRecorded(trace: seq<Step>, s: State, step: Step)
    requires s.clock == |trace| && WritesRecorded(trace, s) && Enabled(s, step)
    ensures WritesRecorded(trace + [step], Apply(s, step))
  {
    hide Stored, Synced;
  }

  lemma StepKeepsSyncRecorded(trace: seq<Step>, s: State, step: Step)
    requires Sound(trace, s) && Enabled(s, step)
    ensures SyncRecorded(trace + [step], Apply(s, step).pc)
  {
    hide RoundsIn, Timely, InOrder, EntriesRecorded, EntriesTimely, SyncCovers, AcksInOrder;
    var trace' := trace + [step];
    assert forall t: nat :: t < |trace| ==> trace'[t] == trace[t];
    assert trace'[|trace|] == step;
  }

  lemma PushedBefore(trace: seq<Step>, s: State, b: nat, k: nat)
    requires Sound(trace, s) && b < 2 && k < |Buffer(s, b)|
    ensures Buffer(s, b)[k].pushed < s.clock
  {
    assert Recorded(trace, Buffer(s, b)[k]);
  }

  /* The buffer being synced is locked: no step adds to it. */
  lemma SyncedBufferOnlyShrinks(s: State, step: Step)
    requires Alternates(s) && Enabled(s, step) && (s.pc.Syncing? || s.pc.Draining?)
    ensures Buffer(Apply(s, step), s.pc.index) <= Buffer(s, s.pc.index)
  {
  }

  lemma StepCovers(trace: seq<Step>, s: State, step: Step)
    requires Sound(trace, s) && Enabled(s, step)
    ensures SyncCovers(Apply(s, step))
  {
    var s' := Apply(s, step);
    if s'.pc.Syncing? || s'.pc.Draining? {
      forall k | 0 <= k < |Buffer(s', s'.pc.index)| ensures Buffer(s', s'.pc.index)[k].pushed < s'.pc.began {
        hide RoundsIn, Timely, InOrder, EntriesTimely, AcksInOrder, EntriesRecorded;
        if step.BeginSync? {
          PushedBefore(trace, s, s.pc.index, k);
        } else {
          SyncedBufferOnlyShrinks(s, step);
        }
      }
    }
  }

  lemma InOrderLater(trace: seq<Step>, step: Step, a: Ack)
    requires InOrder(trace, a)
    ensures InOrder(trace + [step], a)
  {
  }

  lemma NewAckInOrder(trace: seq<Step>, pc: Pc, e: Entry)
    requires pc.Draining? && SyncRecorded(trace, pc) && Recorded(trace, e) && e.subscribed && e.pushed < pc.began
    ensures InOrder(trace + [Pop], Ack(e.written, e.pushed, pc.began, pc.ended, |trace|))
  {
    hide RoundsIn;
  }

  lemma StepAcks(trace: seq<Step>, s: State, step: Step)
    requires Sound(trace, s) && Enabled(s, step)
    ensures AcksInOrder(trace + [step], Apply(s, step))
  {
    hide RoundsIn, Timely, InOrder, Recorded, SyncRecorded, Stored, Synced;
    var s' := Apply(s, step);
    forall i | 0 <= i < |s'.acks| ensures InOrder(trace + [step], s'.acks[i]) {
      if i < |s.acks| {
        InOrderLater(trace, step, s.acks[i]);
      } else {
        var entries := Buffer(s, s.pc.index);
        NewAckInOrder(trace, s.pc, entries[|entries| - 1]);
      }
    }
  }

  lemma {:induction false} TraceIsSound(trace: seq<Step>)
    requires Legal(trace)
    ensures Sound(trace, After(trace))
  {
    if trace != [] {
      hide Sound;
      var before, step := trace[..|trace| - 1], trace[|trace| - 1];
      TraceIsSound(before);
      assert trace == before + [step];
      SoundStep(before, After(before), step);
    } else {
      assert Sound([], INIT);
    }
  }

  lemma SoundStep(trace: seq<Step>, s: State, step: Step)
    requires Sound(trace, s) && Enabled(s, step)
    ensures Sound(trace + [step], Apply(s, step))
  {
    hide Alternates, EntriesTimely, EntriesRecorded, SyncCovers, SyncRecorded, AcksInOrder, Apply, Enabled, RoundsIn,
      WritesRecorded;
    StepAlternates(s, step);
    StepTimely(s, step);
    StepRecords(trace, s, step);
    StepKeepsWritesRecorded(trace, s, step);
    StepKeepsSyncRecorded(trace, s, step);
    StepCovers(trace, s, step);
    StepAcks(trace, s, step);
    StepCounts(trace, s, step);
  }

  lemma StepCounts(trace: seq<Step>, s: State, step: Step)
    requires Enabled(s, step) && s.rounds == RoundsIn(trace)
    ensures Apply(s, step).clock == s.clock + 1 && Apply(s, step).rounds == RoundsIn(trace + [step])
  {
    assert (trace + [step])[..|trace|] == trace;
  }

  /* Whatever the interleaving: an acknowledgement is sent after a sync ended that had begun after the
     acknowledged entry was pushed. */
  lemma AcksFollowTheirSync(trace: seq<Step>, i: nat)
    requires Legal(trace) && i < |After(trace).acks|
    ensures InOrder(trace, After(trace).acks[i])
  {
    TraceIsSound(trace);
  }

  /* An entry is no longer in a buffer once two rounds have completed since it was pushed. */
  lemma DrainedWithinTwoRounds(trace: seq<Step>, b: nat, k: nat)
    requires Legal(trace) && b < 2 && k < |Buffer(After(trace), b)|
    ensures var e := Buffer(After(trace), b)[k]; e.pushed < |trace| && RoundsIn(trace) < RoundsIn(trace[..e.pushed]) + 2
  {
    TraceIsSound(trace);
    var s := After(trace);
    assert Timely(Buffer(s, b)[k], b, s.rounds);
    assert Recorded(trace, Buffer(s, b)[k]);
  }

  /******* Each waiting sender is acknowledged exactly once *******/

  /* The moments at which the entries of a buffer were pushed. */
  function Moments(es: seq<Entry>): multiset<nat> {
    if es == [] then multiset{} else Moments(es[..|es| - 1]) + multiset{es[|es| - 1].pushed}
  }

  function AckedMoments(acks: seq<Ack>): multiset<nat> {
    if acks == [] then multiset{} else AckedMoments(acks[..|acks| - 1]) + multiset{acks[|acks| - 1].pushed}
  }

  function Accounted(s: State): multiset<nat> {
    Moments(Buffer(s, 0)) + Moments(Buffer(s, 1)) + AckedMoments(s.acks)
  }

  /* Every push of a waiting sender is accounted for once, every other moment at most once. */
  ghost predicate Conserved(trace: seq<Step>, s: State) {
    && (forall t: nat :: PushedAt(trace, t, true) ==> Accounted(s)[t] == 1)
    && (forall t: nat :: Accounted(s)[t] > 0 ==>
      Accounted(s)[t] == 1 && (PushedAt(trace, t, true) || PushedAt(trace, t, false)))
  }

  lemma MomentsOfAppend(es: seq<Entry>, e: Entry)
    ensures Moments(es + [e]) == Moments(es) + multiset{e.pushed}
  {
    assert (es + [e])[..|es|] == es;
  }

  lemma AckedMomentsOfAppend(acks: seq<Ack>, a: Ack)
    ensures AckedMoments(acks + [a]) == AckedMoments(acks) + multiset{a.pushed}
  {
    assert (acks + [a])[..|acks|] == acks;
  }

  lemma PushAccounts(trace: seq<Step>, s: State, step: Step)
    requires Sound(trace, s) && Enabled(s, step) && step.Push?
    ensures Accounted(Apply(s, step)) == Accounted(s) + multiset{|trace|}
  {
    hide Moments, AckedMoments, EntriesTimely, EntriesRecorded, SyncCovers, SyncRecorded, AcksInOrder;
    var Asking(written, index) := s.producers[step.producer];
    MomentsOfAppend(Buffer(s, index), Entry(written, s.clock, s.rounds, step.subscribe));
  }

  lemma PopAccounts(trace: seq<Step>, s: State, step: Step)
    requires Sound(trace, s) && Enabled(s, step) && step.Pop?
    ensures var entries := Buffer(s, s.pc.index);
            var popped := entries[|entries| - 1];
            && PushedAt(trace, popped.pushed, popped.subscribed)
            && Accounted(Apply(s, step)) ==
              if popped.subscribed then Accounted(s) else Accounted(s) - multiset{popped.pushed}
  {
    hide Moments, AckedMoments, RoundsIn, Apply, Buffer, Alternates;
    SoundAlternates(trace, s);
    PopChanges(s, step);
    var entries := Buffer(s, s.pc.index);
    var popped := entries[|entries| - 1];
    assert Recorded(trace, popped);
    hide Sound;
    assert entries == entries[..|entries| - 1] + [popped];
    MomentsOfAppend(entries[..|entries| - 1], popped);
    AckedMomentsOfAppend(s.acks, Ack(popped.written, popped.pushed, s.pc.began, s.pc.ended, s.clock));
    assert s.acks + [] == s.acks;
  }

  /* A push accounts for one more moment; popping loses only what was pushed without waiting. */
  lemma StepAccounts(trace: seq<Step>, s: State, step: Step)
    requires Sound(trace, s) && Enabled(s, step)
    ensures var s' := Apply(s, step);
            if step.Push? then Accounted(s') == Accounted(s) + multiset{|trace|}
            else if step.Pop? then
              Accounted(s') == Accounted(s) ||
              exists t: nat :: PushedAt(trace, t, false) && Accounted(s') == Accounted(s) - multiset{t}
            else Accounted(s') == Accounted(s)
  {
    hide Sound, Moments, AckedMoments;
    if step.Push? {
      PushAccounts(trace, s, step);
    } else if step.Pop? {
      PopAccounts(trace, s, step);
    } else {
      OtherChanges(s, step);
    }
  }

  lemma StepConserves(trace: seq<Step>, s: State, step: Step)
    requires Sound(trace, s) && Conserved(trace, s) && Enabled(s, step)
    ensures Conserved(trace + [step], Apply(s, step))
  {
    hide Accounted, Sound, Apply;
    StepAccounts(trace, s, step);
  }

  lemma {:induction false} TraceConserves(trace: seq<Step>)
    requires Legal(trace)
    ensures Conserved(trace, After(trace))
  {
    if trace != [] {
      hide Conserved, Sound;
      var before, step := trace[..|trace| - 1], trace[|trace| - 1];
      TraceConserves(before);
      TraceIsSound(before);
      assert trace == before + [step];
      StepConserves(before, After(before), step);
    } else {
      NothingToAccount();
    }
  }

  lemma NothingToAccount()
    ensures Conserved([], INIT)
  {
    assert Accounted(INIT) == multiset{};
  }

  lemma {:induction false} MomentIsNotBuffered(es: seq<Entry>, t: nat)
    requires forall k :: 0 <= k < |es| ==> es[k].pushed != t
    ensures Moments(es)[t] == 0
  {
    if es != [] {
      MomentIsNotBuffered(es[..|es| - 1], t);
    }
  }

  /* A waiting sender is never acknowledged twice, and is acknowledged by the time two rounds have completed
     since its push. */
  lemma WaitersAreAckedOnce(trace: seq<Step>, t: nat)
    requires Legal(trace) && PushedAt(trace, t, true)
    ensures AckedMoments(After(trace).acks)[t] <= 1
    ensures RoundsIn(trace) >= RoundsIn(trace[..t]) + 2 ==> AckedMoments(After(trace).acks)[t] == 1
  {
    hide Moments, AckedMoments;
    var s := After(trace);
    TraceConserves(trace);
    if RoundsIn(trace) >= RoundsIn(trace[..t]) + 2 {
      forall b, k | 0 <= b < 2 && 0 <= k < |Buffer(s, b)| ensures Buffer(s, b)[k].pushed != t {
        DrainedWithinTwoRounds(trace, b, k);
      }
      MomentIsNotBuffered(Buffer(s, 0), t);
      MomentIsNotBuffered(Buffer(s, 1), t);
    }
  }

  /******* A request made while the thread sleeps *******/

  /* What was pushed in this round into the buffer it drains is gone when the round ends. */
  lemma DrainedInItsRound(trace: seq<Step>, b: nat, k: nat)
    requires Legal(trace) && b < 2 && k < |Buffer(After(trace), b)|
    ensures var e := Buffer(After(trace), b)[k]; b == e.round % 2 ==> e.round == RoundsIn(trace)
  {
    hide Timely, RoundsIn, EntriesRecorded, SyncCovers, SyncRecorded, AcksInOrder, WritesRecorded, Legal, After;
    TraceIsSound(trace);
    assert Timely(Buffer(After(trace), b)[k], b, After(trace).rounds);
    if b == Buffer(After(trace), b)[k].round % 2 {
      EitherRoundHasItsBuffer(Buffer(After(trace), b)[k], b, After(trace).rounds);
    }
  }

  lemma EitherRoundHasItsBuffer(e: Entry, b: nat, rounds: nat)
    requires Timely(e, b, rounds) && b == e.round % 2
    ensures e.round == rounds
  {
  }

  /* The entry stays in the buffer it was pushed into. */
  ghost predicate KnowsBuffer(s: State, t: nat, b: nat) {
    forall c, k :: c in {0, 1} && 0 <= k < |Buffer(s, c)| && Buffer(s, c)[k].pushed == t ==> c == b
  }

  lemma StepKnowsBuffer(trace: seq<Step>, s: State, step: Step, t: nat, b: nat)
    requires Sound(trace, s) && Enabled(s, step) && t < |trace| && KnowsBuffer(s, t, b)
    ensures KnowsBuffer(Apply(s, step), t, b)
  {
    hide EntriesTimely, EntriesRecorded, SyncCovers, SyncRecorded, AcksInOrder, RoundsIn, WritesRecorded, Stored,
      Synced;
    var s' := Apply(s, step);
    forall c, k | c in {0, 1} && 0 <= k < |Buffer(s', c)| && Buffer(s', c)[k].pushed == t ensures c == b {
      if k < |Buffer(s, c)| {
        assert Buffer(s', c)[k] == Buffer(s, c)[k];
      }
    }
  }

  /* The step before the push read the index, and the thread was idle. */
  predicate AskedIdle(trace: seq<Step>, t: nat)
    requires Legal(trace)
  {
    && 0 < t < |trace| && trace[t].Push? && trace[t - 1] == ReadIndex(trace[t].producer)
    && Legal(trace[..t]) && After(trace[..t]).pc.Idle?
  }

  lemma AskedIdlePushes(trace: seq<Step>, t: nat)
    requires Legal(trace) && AskedIdle(trace, t)
    ensures Legal(trace[..t + 1]) && RoundsIn(trace[..t]) == After(trace[..t]).rounds
    ensures KnowsBuffer(After(trace[..t + 1]), t, RoundsIn(trace[..t]) % 2)
  {
    PrefixIsLegal(trace, t + 1);
    PrefixIsLegal(trace, t - 1);
    var before := trace[..t];
    assert trace[..t + 1][..t] == before && before[..t - 1] == trace[..t - 1];
    TraceIsSound(before);
    var s := After(before);
    assert s.producers[trace[t].producer].index == s.current;
    hide After, Legal;
    PushGoesToIndex(before, s, trace[t]);
  }

  /* A push with the current index while the thread is idle goes to the buffer that the round will drain. */
  lemma PushGoesToIndex(trace: seq<Step>, s: State, step: Step)
    requires Sound(trace, s) && Enabled(s, step) && step.Push? && s.pc.Idle?
    requires s.producers[step.producer].index == s.current
    ensures KnowsBuffer(Apply(s, step), |trace|, s.rounds % 2)
  {
    var s' := Apply(s, step);
    forall c, k | c in {0, 1} && 0 <= k < |Buffer(s', c)| && Buffer(s', c)[k].pushed == |trace| ensures c == s.current {
      if k < |Buffer(s, c)| {
        PushedBefore(trace, s, c, k);
      }
    }
  }

  lemma {:induction false} PrefixIsLegal(trace: seq<Step>, n: nat)
    requires Legal(trace) && n <= |trace|
    ensures Legal(trace[..n])
    decreases |trace|
  {
    if n == |trace| {
      assert trace[..n] == trace;
    } else {
      PrefixIsLegal(trace[..|trace| - 1], n);
      assert trace[..|trace| - 1][..n] == trace[..n];
    }
  }

  lemma {:induction false} BufferIsKnown(trace: seq<Step>, t: nat)
    requires Legal(trace) && AskedIdle(trace, t)
    ensures KnowsBuffer(After(trace), t, RoundsIn(trace[..t]) % 2)
    decreases |trace|
  {
    hide KnowsBuffer, RoundsIn, Sound, Enabled, Apply;
    if t + 1 == |trace| {
      AskedIdlePushes(trace, t);
      assert trace[..t + 1] == trace;
    } else {
      var before, step := trace[..|trace| - 1], trace[|trace| - 1];
      assert before[..t] == trace[..t];
      BufferIsKnown(before, t);
      TraceIsSound(before);
      StepKnowsBuffer(before, After(before), step, t, RoundsIn(trace[..t]) % 2);
    }
  }

  /* A sender that asks while the thread sleeps is served by the round that comes next. */
  lemma AskedIdleIsServedNext(trace: seq<Step>, t: nat)
    requires Legal(trace) && AskedIdle(trace, t) && trace[t].subscribe
    requires RoundsIn(trace) > RoundsIn(trace[..t])
    ensures AckedMoments(After(trace).acks)[t] == 1
  {
    hide Moments, AckedMoments;
    var s := After(trace);
    TraceConserves(trace);
    TraceIsSound(trace);
    BufferIsKnown(trace, t);
    assert PushedAt(trace, t, true);
    forall b, k | b in {0, 1} && 0 <= k < |Buffer(s, b)| ensures Buffer(s, b)[k].pushed != t {
      if Buffer(s, b)[k].pushed == t {
        assert Recorded(trace, Buffer(s, b)[k]);
        DrainedInItsRound(trace, b, k);
      }
    }
    MomentIsNotBuffered(Buffer(s, 0), t);
    MomentIsNotBuffered(Buffer(s, 1), t);
  }

  /******* In which order a round acknowledges *******/

  ghost predicate PushesAscend(es: seq<Entry>) {
    forall i, j :: 0 <= i < j < |es| ==> es[i].pushed < es[j].pushed
  }

  ghost predicate BuffersAscend(s: State) {
    PushesAscend(Buffer(s, 0)) && PushesAscend(Buffer(s, 1))
  }

  /* Within a round the latest push is acknowledged first. */
  ghost predicate AcksNewestFirst(acks: seq<Ack>, clock: nat) {
    && (forall i :: 0 <= i < |acks| ==> acks[i].began < clock)
    && (forall i, j :: 0 <= i < j < |acks| && acks[i].began == acks[j].began ==> acks[j].pushed < acks[i].pushed)
  }

  ghost predicate EarlierRounds(acks: seq<Ack>, pc: Pc, clock: nat) {
    && (pc.Syncing? ==> pc.began < clock && forall i :: 0 <= i < |acks| ==> acks[i].began < pc.began)
    && (pc.Draining? ==> pc.began < clock && forall i :: 0 <= i < |acks| ==> acks[i].began <= pc.began)
  }

  /* What is left of a buffer being drained came before everything its round has acknowledged. */
  ghost predicate LeftIsOlder(es: seq<Entry>, acks: seq<Ack>, began: nat) {
    forall i, k :: 0 <= i < |acks| && acks[i].began == began && 0 <= k < |es| ==> es[k].pushed < acks[i].pushed
  }

  ghost predicate NewestFirst(s: State) {
    && BuffersAscend(s) && AcksNewestFirst(s.acks, s.clock) && EarlierRounds(s.acks, s.pc, s.clock)
    && (s.pc.Draining? ==> LeftIsOlder(Buffer(s, s.pc.index), s.acks, s.pc.began))
  }

  lemma AppendAscends(es: seq<Entry>, e: Entry)
    requires PushesAscend(es) && forall k :: 0 <= k < |es| ==> es[k].pushed < e.pushed
    ensures PushesAscend(es + [e])
  {
  }

  lemma PrefixAscends(es: seq<Entry>)
    requires PushesAscend(es) && es != []
    ensures PushesAscend(es[..|es| - 1])
  {
  }

  lemma AcksLater(acks: seq<Ack>, pc: Pc, clock: nat)
    requires AcksNewestFirst(acks, clock) && EarlierRounds(acks, pc, clock)
    ensures AcksNewestFirst(acks, clock + 1) && EarlierRounds(acks, pc, clock + 1)
  {
  }

  /* One more acknowledgement of the round, for the latest push that is left. */
  lemma AckAppended(es: seq<Entry>, acks: seq<Ack>, pc: Pc, clock: nat, a: Ack)
    requires AcksNewestFirst(acks, clock) && EarlierRounds(acks, pc, clock) && pc.Draining? && a.began == pc.began
    requires es != [] && PushesAscend(es) && LeftIsOlder(es, acks, pc.began) && a.pushed == es[|es| - 1].pushed
    ensures AcksNewestFirst(acks + [a], clock + 1) && EarlierRounds(acks + [a], pc, clock + 1)
    ensures LeftIsOlder(es[..|es| - 1], acks + [a], pc.began)
  {
  }

  lemma LessIsLeft(es: seq<Entry>, acks: seq<Ack>, began: nat)
    requires es != [] && LeftIsOlder(es, acks, began)
    ensures LeftIsOlder(es[..|es| - 1], acks, began)
  {
  }

  /* What a push changes. */
  lemma PushChanges(s: State, step: Step)
    requires Alternates(s) && Enabled(s, step) && step.Push?
    ensures var s', Asking(written, index) := Apply(s, step), s.producers[step.producer];
            && s'.acks == s.acks && s'.pc == s.pc && s'.clock == s.clock + 1 && index < 2
            && (s.pc.Draining? ==> s.pc.index != index)
            && Buffer(s', index) == Buffer(s, index) + [Entry(written, s.clock, s.rounds, step.subscribe)]
            && Buffer(s', 1 - index) == Buffer(s, 1 - index)
  {
  }

  /* The order, taken apart and put together for a buffer and the other one. */
  lemma OrderInParts(s: State, index: nat)
    requires index < 2
    ensures NewestFirst(s) <==>
            && PushesAscend(Buffer(s, index)) && PushesAscend(Buffer(s, 1 - index))
            && AcksNewestFirst(s.acks, s.clock) && EarlierRounds(s.acks, s.pc, s.clock)
            && (s.pc.Draining? ==> LeftIsOlder(Buffer(s, s.pc.index), s.acks, s.pc.began))
  {
    hide Buffer, PushesAscend, AcksNewestFirst, EarlierRounds, LeftIsOlder;
  }

  lemma SoundAlternates(trace: seq<Step>, s: State)
    requires Sound(trace, s)
    ensures Alternates(s) && (!s.pc.Idle? ==> s.pc.index < 2)
  {
    hide EntriesTimely, EntriesRecorded, SyncCovers, SyncRecorded, AcksInOrder, RoundsIn, WritesRecorded;
  }

  lemma PushKeepsOrder(trace: seq<Step>, s: State, step: Step)
    requires Sound(trace, s) && NewestFirst(s) && Enabled(s, step) && step.Push?
    ensures NewestFirst(Apply(s, step))
  {
    hide Sound, Apply, Buffer, PushesAscend, LeftIsOlder, AcksNewestFirst, EarlierRounds, NewestFirst, Alternates;
    SoundAlternates(trace, s);
    PushChanges(s, step);
    var Asking(written, index) := s.producers[step.producer];
    forall k | 0 <= k < |Buffer(s, index)| ensures Buffer(s, index)[k].pushed < s.clock {
      PushedBefore(trace, s, index, k);
    }
    OrderInParts(s, index);
    AppendAscends(Buffer(s, index), Entry(written, s.clock, s.rounds, step.subscribe));
    AcksLater(s.acks, s.pc, s.clock);
    OrderInParts(Apply(s, step), index);
  }

  /* What popping changes. */
  lemma PopChanges(s: State, step: Step)
    requires Alternates(s) && Enabled(s, step) && step.Pop?
    ensures var s', index, entries := Apply(s, step), s.pc.index, Buffer(s, s.pc.index);
            var popped := entries[|entries| - 1];
            && s'.pc == s.pc && s'.clock == s.clock + 1 && index < 2
            && Buffer(s', index) == entries[..|entries| - 1] && Buffer(s', 1 - index) == Buffer(s, 1 - index)
            && s'.acks == s.acks + if popped.subscribed
                                   then [Ack(popped.written, popped.pushed, s.pc.began, s.pc.ended, s.clock)] else []
  {
  }

  lemma PopKeepsOrder(trace: seq<Step>, s: State, step: Step)
    requires Sound(trace, s) && NewestFirst(s) && Enabled(s, step) && step.Pop?
    ensures NewestFirst(Apply(s, step))
  {
    hide Sound, Apply, Buffer, PushesAscend, LeftIsOlder, AcksNewestFirst, EarlierRounds, NewestFirst, Alternates;
    SoundAlternates(trace, s);
    PopChanges(s, step);
    var index, entries := s.pc.index, Buffer(s, s.pc.index);
    var popped := entries[|entries| - 1];
    OrderInParts(s, index);
    PrefixAscends(entries);
    if popped.subscribed {
      AckAppended(entries, s.acks, s.pc, s.clock,
                  Ack(popped.written, popped.pushed, s.pc.began, s.pc.ended, s.clock));
    } else {
      AcksLater(s.acks, s.pc, s.clock);
      LessIsLeft(entries, s.acks, s.pc.began);
      assert s.acks + [] == s.acks;
    }
    OrderInParts(Apply(s, step), index);
  }

  /* The other steps leave the buffers and the acknowledgements alone. A sync begins after every earlier one. */
  lemma OtherChanges(s: State, step: Step)
    requires Enabled(s, step) && !step.Push? && !step.Pop?
    ensures var s' := Apply(s, step);
            && s'.buffers == s.buffers && s'.acks == s.acks && s'.clock == s.clock + 1
            && (s'.pc.Syncing? ==> s'.pc == s.pc || s'.pc.began == s.clock)
            && (s'.pc.Draining? ==> s'.pc == s.pc || (s.pc.Syncing? && s'.pc.began == s.pc.began))
  {
    hide Stored, Synced;
  }

  lemma RoundsStayEarlier(acks: seq<Ack>, pc: Pc, pc': Pc, clock: nat)
    requires AcksNewestFirst(acks, clock) && EarlierRounds(acks, pc, clock)
    requires pc'.Syncing? ==> pc' == pc || pc'.began == clock
    requires pc'.Draining? ==> pc' == pc || (pc.Syncing? && pc'.began == pc.began)
    ensures AcksNewestFirst(acks, clock + 1) && EarlierRounds(acks, pc', clock + 1)
  {
  }

  lemma NothingAckedYet(es: seq<Entry>, acks: seq<Ack>, pc: Pc, clock: nat)
    requires EarlierRounds(acks, pc, clock) && pc.Syncing?
    ensures LeftIsOlder(es, acks, pc.began)
  {
  }

  lemma OtherKeepsOrder(s: State, step: Step)
    requires NewestFirst(s) && Enabled(s, step) && !step.Push? && !step.Pop?
    ensures NewestFirst(Apply(s, step))
  {
    OtherChanges(s, step);
    hide Apply, Enabled, PushesAscend, LeftIsOlder, AcksNewestFirst, EarlierRounds;
    var s' := Apply(s, step);
    RoundsStayEarlier(s.acks, s.pc, s'.pc, s.clock);
    if s.pc.Syncing? && s'.pc.Draining? {
      NothingAckedYet(Buffer(s', s'.pc.index), s.acks, s.pc, s.clock);
    }
  }

  lemma StepKeepsOrder(trace: seq<Step>, s: State, step: Step)
    requires Sound(trace, s) && NewestFirst(s) && Enabled(s, step)
    ensures NewestFirst(Apply(s, step))
  {
    hide Sound, NewestFirst, Apply, Enabled;
    if step.Push? {
      PushKeepsOrder(trace, s, step);
    } else if step.Pop? {
      PopKeepsOrder(trace, s, step);
    } else {
      OtherKeepsOrder(s, step);
    }
  }

  lemma {:induction false} TraceKeepsOrder(trace: seq<Step>)
    requires Legal(trace)
    ensures NewestFirst(After(trace))
  {
    if trace != [] {
      hide NewestFirst, Sound;
      var before, step := trace[..|trace| - 1], trace[|trace| - 1];
      TraceKeepsOrder(before);
      TraceIsSound(before);
      StepKeepsOrder(before, After(before), step);
    }
  }

  /* The senders served by one sync are acknowledged latest push first. */
  lemma RoundAcksNewestFirst(trace: seq<Step>, i: nat, j: nat)
    requires Legal(trace) && i < j < |After(trace).acks| && After(trace).acks[i].began == After(trace).acks[j].began
    ensures After(trace).acks[j].pushed < After(trace).acks[i].pushed
  {
    TraceKeepsOrder(trace);
  }
}
