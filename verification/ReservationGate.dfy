/**
 The gate between schema and write transactions (database/database.rs: `reserve_write_transaction`,
 `reserve_schema_transaction`, `release_*_transaction`, `fulfill_reservation_requests`): a first-in,
 first-out readers-writer gate whose waiters may time out.
 */
module ReservationGate {

  datatype Kind = Writing | Schema

  datatype Request = Request(kind: Kind, id: nat)

  /* The guarded triple: the schema flag, the number of running write transactions and the queue. */
  datatype Gate = Gate(schema: bool, writes: nat, queue: seq<Request>)

  /* Whether a request is granted on the spot. */
  predicate Admits(g: Gate, kind: Kind) {
    !g.schema && g.queue == [] && (kind == Schema ==> g.writes == 0)
  }

  function Reserved(g: Gate, r: Request): Gate {
    if !Admits(g, r.kind) then g.(queue := g.queue + [r])
    else if r.kind == Schema then g.(schema := true)
    else g.(writes := g.writes + 1)
  }

  datatype Outcome = Outcome(gate: Gate, notified: seq<Request>)

  /* Offering the reservation to the waiting requests in turn. Offers to expired requests fail. */
  function Fulfilled(g: Gate, expired: set<nat>): (o: Outcome)
    ensures |o.gate.queue| <= |g.queue|
    decreases |g.queue|
  {
    if g.queue == [] then Outcome(g, [])
    else
      var front, rest := g.queue[0], g.queue[1..];
      if front.kind == Schema && g.writes > 0 then Outcome(g, [])
      else if front.id in expired then Fulfilled(g.(queue := rest), expired)
      else if front.kind == Schema then Outcome(Gate(true, g.writes, rest), [front])
      else
        var o := Fulfilled(Gate(g.schema, g.writes + 1, rest), expired);
        Outcome(o.gate, [front] + o.notified)
  }

  function Released(g: Gate, kind: Kind, expired: set<nat>): Outcome
    requires kind == Writing ==> g.writes > 0
  {
    match kind
    case Schema => Fulfilled(g.(schema := false), expired)
    case Writing =>
      var g' := g.(writes := g.writes - 1);
      if g'.writes == 0 then Fulfilled(g', expired) else Outcome(g', [])
  }

  class Reservations {
    var hasSchemaTransaction: bool
    var runningWriteTransactions: nat
    var notifyQueue: seq<Request>

    ghost function State(): Gate
      reads this
    {
      Gate(hasSchemaTransaction, runningWriteTransactions, notifyQueue)
    }

    constructor ()
      ensures State() == Gate(false, 0, [])
    {
      hasSchemaTransaction, runningWriteTransactions, notifyQueue := false, 0, [];
    }

    method ReserveWriteTransaction(id: nat) returns (granted: bool)
      modifies this
      ensures granted <==> !old(hasSchemaTransaction) && old(notifyQueue) == []
      ensures hasSchemaTransaction == old(hasSchemaTransaction)
      ensures runningWriteTransactions == old(runningWriteTransactions) + if granted then 1 else 0
      ensures notifyQueue == old(notifyQueue) + if granted then [] else [Request(Writing, id)]
      ensures granted == Admits(old(State()), Writing)
      ensures State() == Reserved(old(State()), Request(Writing, id))
    {
      if hasSchemaTransaction || notifyQueue != [] {
        notifyQueue := notifyQueue + [Request(Writing, id)];
        granted := false;
      } else {
        runningWriteTransactions := runningWriteTransactions + 1;
        granted := true;
      }
    }

    method ReserveSchemaTransaction(id: nat) returns (granted: bool)
      modifies this
      ensures granted <==>
              !old(hasSchemaTransaction) && old(runningWriteTransactions) == 0 && old(notifyQueue) == []
      ensures hasSchemaTransaction == (granted || old(hasSchemaTransaction))
      ensures runningWriteTransactions == old(runningWriteTransactions)
      ensures notifyQueue == old(notifyQueue) + if granted then [] else [Request(Schema, id)]
      ensures granted == Admits(old(State()), Schema)
      ensures State() == Reserved(old(State()), Request(Schema, id))
    {
      if hasSchemaTransaction || runningWriteTransactions > 0 || notifyQueue != [] {
        notifyQueue := notifyQueue + [Request(Schema, id)];
        granted := false;
      } else {
        hasSchemaTransaction := true;
        granted := true;
      }
    }

    method ReleaseWriteTransaction(expired: set<nat>) returns (notified: seq<Request>)
      requires runningWriteTransactions > 0
      modifies this
      ensures old(runningWriteTransactions) > 1 ==>
                && hasSchemaTransaction == old(hasSchemaTransaction) && notifyQueue == old(notifyQueue)
                && runningWriteTransactions == old(runningWriteTransactions) - 1 && notified == []
      ensures old(runningWriteTransactions) == 1 ==>
                Outcome(State(), notified) == Fulfilled(Gate(old(hasSchemaTransaction), 0, old(notifyQueue)), expired)
      ensures Outcome(State(), notified) == Released(old(State()), Writing, expired)
    {
      notified := [];
      runningWriteTransactions := runningWriteTransactions - 1;
      if runningWriteTransactions == 0 {
        notified := FulfillReservationRequests(expired);
      }
    }

    method ReleaseSchemaTransaction(expired: set<nat>) returns (notified: seq<Request>)
      modifies this
      ensures Outcome(State(), notified) ==
                Fulfilled(Gate(false, old(runningWriteTransactions), old(notifyQueue)), expired)
      ensures Outcome(State(), notified) == Released(old(State()), Schema, expired)
    {
      hasSchemaTransaction := false;
      notified := FulfillReservationRequests(expired);
    }

    method FulfillReservationRequests(expired: set<nat>) returns (notified: seq<Request>)
      modifies this
      ensures Outcome(State(), notified) == Fulfilled(old(State()), expired)
    {
      notified := [];
      while true
        invariant Fulfilled(old(State()), expired) ==
                  var o := Fulfilled(State(), expired); Outcome(o.gate, notified + o.notified)
        decreases |notifyQueue|
      {
        if notifyQueue == [] {
          break;
        }
        var next := notifyQueue[0];
        if next.kind == Schema {
          if runningWriteTransactions > 0 {
            break;
          }
          notifyQueue := notifyQueue[1..];
          if next.id !in expired {
            hasSchemaTransaction := true;
            notified := notified + [next];
            return;
          }
        } else {
          notifyQueue := notifyQueue[1..];
          if next.id !in expired {
            runningWriteTransactions := runningWriteTransactions + 1;
            ghost var o := Fulfilled(State(), expired);
            assert notified + ([next] + o.notified) == (notified + [next]) + o.notified;
            notified := notified + [next];
          }
        }
      }
      assert notified + [] == notified;
    }
  }

  /******* All runs *******/

  /* The gate, who holds reservations, which requests have expired, and in which order requests were granted.
     Requests are numbered in the order in which they arrive. */
  datatype World = World(
    gate: Gate,
    arrived: nat,
    expired: set<nat>,
    writers: set<nat>,
    schemas: set<nat>,
    granted: seq<nat>)

  datatype Step = Reserve(kind: Kind) | Expire(id: nat) | Release(id: nat)

  const INIT: World := World(Gate(false, 0, []), 0, {}, {}, {}, [])

  /* A request that has arrived, was not granted and did not give up. */
  predicate Waiting(w: World, id: nat) {
    id < w.arrived && id !in w.granted && id !in w.expired
  }

  predicate Enabled(w: World, step: Step) {
    match step
    case Reserve(_) => true
    case Expire(id) => Waiting(w, id)
    case Release(id) => id in w.writers + w.schemas
  }

  function Grant(w: World, r: Request): World {
    if r.kind == Schema then w.(schemas := w.schemas + {r.id}, granted := w.granted + [r.id])
    else w.(writers := w.writers + {r.id}, granted := w.granted + [r.id])
  }

  function GrantAll(w: World, rs: seq<Request>): World
    decreases |rs|
  {
    if rs == [] then w else GrantAll(Grant(w, rs[0]), rs[1..])
  }

  ghost predicate Next(w: World, step: Step, w': World) {
    && Enabled(w, step)
    && match step
       case Reserve(kind) =>
         var r := Request(kind, w.arrived);
         var arrived := w.(arrived := w.arrived + 1, gate := Reserved(w.gate, r));
         w' == if Admits(w.gate, kind) then Grant(arrived, r) else arrived
       case Expire(id) => w' == w.(expired := w.expired + {id})
       case Release(id) =>
         var kind := if id in w.writers then Writing else Schema;
         && (kind == Writing ==> w.gate.writes > 0)
         && var o := Released(w.gate, kind, w.expired);
            w' == GrantAll(w.(gate := o.gate, writers := w.writers - {id}, schemas := w.schemas - {id}), o.notified)
  }

  ghost predicate CanBecome(w: World, w': World) {
    exists step :: Next(w, step, w')
  }

  ghost predicate NextAt(run: seq<World>, k: nat) {
    k + 1 < |run| && CanBecome(run[k], run[k + 1])
  }

  ghost predicate Execution(run: seq<World>) {
    run != [] && run[0] == INIT && forall k: nat :: k < |run| - 1 ==> NextAt(run, k)
  }

  /******* Invariants *******/

  /* The flag and the counter are exactly the reservations held. */
  predicate Exact(w: World) {
    && |w.writers| == w.gate.writes
    && |w.schemas| == (if w.gate.schema then 1 else 0)
    && (w.gate.schema ==> w.gate.writes == 0)
  }

  ghost predicate Sorted(ids: seq<nat>) {
    forall i, j :: 0 <= i < j < |ids| ==> ids[i] < ids[j]
  }

  ghost predicate QueueSorted(queue: seq<Request>) {
    forall i, j :: 0 <= i < j < |queue| ==> queue[i].id < queue[j].id
  }

  /* Grants go in order of arrival; whoever still waits in the queue came after everyone granted. */
  ghost predicate InOrder(w: World) {
    && Sorted(w.granted) && QueueSorted(w.gate.queue)
    && (forall i, j :: 0 <= i < |w.granted| && 0 <= j < |w.gate.queue| ==> w.granted[i] < w.gate.queue[j].id)
    && (forall i :: 0 <= i < |w.granted| ==> w.granted[i] < w.arrived)
    && (forall j :: 0 <= j < |w.gate.queue| ==> w.gate.queue[j].id < w.arrived)
    && (forall id :: id in w.writers + w.schemas ==> id in w.granted)
    && (forall id :: id in w.expired ==> id !in w.granted && id < w.arrived)
  }

  ghost predicate Queued(queue: seq<Request>, id: nat) {
    exists j :: 0 <= j < |queue| && queue[j].id == id
  }

  /* Nobody who waits is forgotten. */
  ghost predicate WaitersQueued(w: World) {
    forall id: nat :: Waiting(w, id) ==> Queued(w.gate.queue, id)
  }

  ghost predicate Inv(w: World) {
    && Exact(w) && InOrder(w) && WaitersQueued(w)
    && (w.gate.queue != [] ==> w.gate.schema || w.gate.writes > 0)
  }

  /******* Fulfilling *******/

  /* Taking the first request off the queue, granted or not. */
  function Popped(w: World): World
    requires w.gate.queue != []
  {
    w.(gate := w.gate.(queue := w.gate.queue[1..]))
  }

  ghost predicate Offering(w: World) {
    Exact(w) && InOrder(w) && WaitersQueued(w) && !w.gate.schema
  }

  lemma PopKeepsOrder(w: World)
    requires InOrder(w) && w.gate.queue != []
    ensures InOrder(Popped(w))
  {
  }

  lemma PopExpired(w: World)
    requires Offering(w) && w.gate.queue != [] && w.gate.queue[0].id in w.expired
    ensures Offering(Popped(w))
  {
    PopKeepsOrder(w);
    var w' := Popped(w);
    forall id: nat | Waiting(w', id) ensures Queued(w'.gate.queue, id) {
      assert Waiting(w, id);
      var j :| 0 <= j < |w.gate.queue| && w.gate.queue[j].id == id;
      assert w'.gate.queue[j - 1].id == id;
    }
  }

  /* Granting the front request of the queue. */
  function GrantedFront(w: World): World
    requires w.gate.queue != []
  {
    var front := w.gate.queue[0];
    var popped := Popped(w);
    Grant(if front.kind == Schema then popped.(gate := popped.gate.(schema := true))
          else popped.(gate := popped.gate.(writes := popped.gate.writes + 1)), front)
  }

  lemma GrantKeepsExact(w: World)
    requires Offering(w) && w.gate.queue != []
    requires w.gate.queue[0].kind == Schema ==> w.gate.writes == 0
    ensures Exact(GrantedFront(w))
  {
    var front := w.gate.queue[0];
    assert front.id !in w.granted;
    assert front.id !in w.writers + w.schemas;
  }

  lemma GrantKeepsOrder(w: World)
    requires Offering(w) && w.gate.queue != [] && w.gate.queue[0].id !in w.expired
    ensures InOrder(GrantedFront(w))
  {
    hide Exact, WaitersQueued;
    var w', front := GrantedFront(w), w.gate.queue[0];
    assert w'.granted == w.granted + [front.id];
    forall i, j | 0 <= i < |w'.granted| && 0 <= j < |w'.gate.queue| ensures w'.granted[i] < w'.gate.queue[j].id {
      assert w'.gate.queue[j] == w.gate.queue[j + 1];
    }
  }

  lemma GrantKeepsQueued(w: World)
    requires Offering(w) && w.gate.queue != []
    ensures WaitersQueued(GrantedFront(w))
  {
    var w', front := GrantedFront(w), w.gate.queue[0];
    forall id: nat | Waiting(w', id) ensures Queued(w'.gate.queue, id) {
      assert Waiting(w, id) by {
        assert forall x :: x in w.granted ==> x in w'.granted;
      }
      assert id != front.id by {
        assert w'.granted[|w.granted|] == front.id;
      }
      var j :| 0 <= j < |w.gate.queue| && w.gate.queue[j].id == id;
      assert w'.gate.queue[j - 1].id == id;
    }
  }

  /* The whole loop, seen from the world: the notified requests are granted in turn. */
  lemma {:induction false} FulfillingKeepsInv(w: World)
    requires Offering(w)
    ensures var o := Fulfilled(w.gate, w.expired); Inv(GrantAll(w.(gate := o.gate), o.notified))
    decreases |w.gate.queue|
  {
    hide Exact, InOrder, WaitersQueued;
    if w.gate.queue == [] {
      assert w.(gate := w.gate) == w;
    } else {
      var front, rest := w.gate.queue[0], w.gate.queue[1..];
      if front.kind == Schema && w.gate.writes > 0 {
        assert w.(gate := w.gate) == w;
      } else if front.id in w.expired {
        PopExpired(w);
        FulfillingKeepsInv(Popped(w));
      } else {
        GrantKeepsExact(w);
        GrantKeepsOrder(w);
        GrantKeepsQueued(w);
        var w' := GrantedFront(w);
        if front.kind == Schema {
          assert [front][1..] == [];
          assert GrantAll(w.(gate := w'.gate), [front]) == GrantAll(w', []) == w';
        } else {
          FulfillingKeepsInv(w');
          var o := Fulfilled(w'.gate, w.expired);
          assert ([front] + o.notified)[1..] == o.notified;
          assert GrantAll(w.(gate := o.gate), [front] + o.notified) == GrantAll(w'.(gate := o.gate), o.notified);
        }
      }
    }
  }

  /******* Every step keeps the invariant *******/

  lemma AdmitKeepsExact(w: World, kind: Kind, w': World)
    requires Inv(w) && Next(w, Reserve(kind), w') && Admits(w.gate, kind)
    ensures Exact(w') && w'.gate.queue == []
  {
    hide Sorted, QueueSorted, WaitersQueued;
    assert w.arrived !in w.granted;
    assert w.arrived !in w.writers + w.schemas;
  }

  lemma AdmitKeepsOrder(w: World, kind: Kind, w': World)
    requires Inv(w) && Next(w, Reserve(kind), w') && Admits(w.gate, kind)
    ensures InOrder(w')
  {
    hide Exact, WaitersQueued;
    assert w'.granted == w.granted + [w.arrived];
  }

  lemma EnqueueKeepsOrder(w: World, kind: Kind, w': World)
    requires Inv(w) && Next(w, Reserve(kind), w') && !Admits(w.gate, kind)
    ensures Exact(w') && InOrder(w')
  {
    assert w'.gate.queue == w.gate.queue + [Request(kind, w.arrived)];
  }

  lemma AdmitLeavesNoWaiter(w: World, kind: Kind, w': World, id: nat)
    requires Inv(w) && Next(w, Reserve(kind), w') && Admits(w.gate, kind)
    ensures !Waiting(w', id)
  {
    assert w'.granted == w.granted + [w.arrived];
    assert w'.granted[|w.granted|] == w.arrived;
    assert Waiting(w, id) ==> Queued(w.gate.queue, id);
    assert Waiting(w', id) && id != w.arrived ==> Waiting(w, id);
  }

  lemma ReserveKeepsInv(w: World, kind: Kind, w': World)
    requires Inv(w) && Next(w, Reserve(kind), w')
    ensures Inv(w')
  {
    if Admits(w.gate, kind) {
      AdmitKeepsExact(w, kind, w');
      AdmitKeepsOrder(w, kind, w');
      forall id: nat ensures !Waiting(w', id) {
        AdmitLeavesNoWaiter(w, kind, w', id);
      }
    } else {
      EnqueueKeepsOrder(w, kind, w');
      hide Sorted, QueueSorted, Exact;
      forall id: nat | Waiting(w', id) ensures Queued(w'.gate.queue, id) {
        if id == w.arrived {
          assert w'.gate.queue[|w.gate.queue|].id == id;
        } else {
          assert Waiting(w, id);
          var j :| 0 <= j < |w.gate.queue| && w.gate.queue[j].id == id;
          assert w'.gate.queue[j].id == id;
        }
      }
    }
  }

  lemma ReleaseKeepsInv(w: World, id: nat, w': World)
    requires Inv(w) && Next(w, Release(id), w')
    ensures Inv(w')
  {
    var kind := if id in w.writers then Writing else Schema;
    var free := w.(writers := w.writers - {id}, schemas := w.schemas - {id});
    hide Sorted, QueueSorted;
    AtMostOneKind(w, id);
    var gate := if kind == Writing then w.gate.(writes := w.gate.writes - 1) else w.gate.(schema := false);
    var before := free.(gate := gate);
    assert Offering(before) by {
      forall i: nat | Waiting(before, i) ensures Queued(before.gate.queue, i) {
        assert Waiting(w, i);
      }
    }
    if kind == Writing && gate.writes > 0 {
      assert w' == before;
    } else {
      FulfillingKeepsInv(before);
      var o := Fulfilled(gate, w.expired);
      assert w' == GrantAll(before.(gate := o.gate), o.notified);
    }
  }

  /* Nobody holds both kinds of reservation. */
  lemma AtMostOneKind(w: World, id: nat)
    requires Exact(w) && id in w.writers + w.schemas
    ensures id in w.writers ==>
            id !in w.schemas && w.gate.writes > 0 && !w.gate.schema && |w.writers - {id}| == w.gate.writes - 1
    ensures id !in w.writers ==> w.gate.schema && |w.schemas - {id}| == 0
    ensures id !in w.writers ==> w.writers - {id} == w.writers
    ensures id in w.writers ==> w.schemas - {id} == w.schemas
  {
    if id in w.writers {
      assert |w.writers - {id}| == |w.writers| - 1;
      assert w.schemas == {};
    } else {
      assert |w.schemas - {id}| == |w.schemas| - 1;
    }
  }

  lemma StepKeepsInv(w: World, step: Step, w': World)
    requires Inv(w) && Next(w, step, w')
    ensures Inv(w')
  {
    match step
    case Reserve(kind) => ReserveKeepsInv(w, kind, w');
    case Release(id) => ReleaseKeepsInv(w, id, w');
    case Expire(id) =>
      forall i: nat | Waiting(w', i) ensures Queued(w'.gate.queue, i) {
        assert Waiting(w, i);
      }
  }

  lemma {:induction false} ReachableHasInv(run: seq<World>, k: nat)
    requires Execution(run) && k < |run|
    ensures Inv(run[k])
  {
    assert Inv(INIT);
    hide Next, Inv;
    if k > 0 {
      ReachableHasInv(run, k - 1);
      assert NextAt(run, k - 1);
      var step :| Next(run[k - 1], step, run[k]);
      StepKeepsInv(run[k - 1], step, run[k]);
    }
  }

  /******* Theorems *******/

  /* In every run the flag and the counter equal the reservations held, and a schema reservation never
     coexists with any other reservation. */
  lemma ReservationsAreExclusive(run: seq<World>, k: nat)
    requires Execution(run) && k < |run|
    ensures var w := run[k];
            && (w.gate.schema <==> w.schemas != {}) && w.gate.writes == |w.writers|
            && (w.schemas != {} ==> |w.schemas| == 1 && w.writers == {})
  {
    ReachableHasInv(run, k);
  }

  /* Releasing a held reservation is always possible: the counter never underflows. */
  lemma ReleaseNeverUnderflows(run: seq<World>, k: nat, id: nat)
    requires Execution(run) && k < |run| && id in run[k].writers + run[k].schemas
    ensures id in run[k].writers ==> run[k].gate.writes > 0
    ensures id !in run[k].writers ==> run[k].gate.schema
    ensures exists w' :: Next(run[k], Release(id), w')
  {
    ReachableHasInv(run, k);
    var w := run[k];
    AtMostOneKind(w, id);
    var kind := if id in w.writers then Writing else Schema;
    var o := Released(w.gate, kind, w.expired);
    var w' := GrantAll(w.(gate := o.gate, writers := w.writers - {id}, schemas := w.schemas - {id}), o.notified);
    assert Next(w, Release(id), w');
  }

  /* Whoever waits is in the queue, and while the queue is not empty some reservation is held, so a release
     is still to come that serves it. */
  lemma NoWaiterIsStranded(run: seq<World>, k: nat, id: nat)
    requires Execution(run) && k < |run|
    ensures Waiting(run[k], id) ==> Queued(run[k].gate.queue, id)
    ensures run[k].gate.queue != [] ==> run[k].writers + run[k].schemas != {}
  {
    ReachableHasInv(run, k);
  }

  /* Grants follow the order of arrival, and nobody is granted ahead of an earlier request that still waits. */
  lemma NobodyOvertakes(run: seq<World>, k: nat, i: nat, earlier: nat)
    requires Execution(run) && k < |run| && i < |run[k].granted| && earlier < run[k].granted[i]
    ensures Sorted(run[k].granted)
    ensures earlier in run[k].granted || earlier in run[k].expired
  {
    ReachableHasInv(run, k);
    if Waiting(run[k], earlier) {
      WaiterCameLater(run[k], i, earlier);
    }
  }

  lemma WaiterCameLater(w: World, i: nat, id: nat)
    requires Inv(w) && i < |w.granted| && Waiting(w, id)
    ensures w.granted[i] < id
  {
    var j :| 0 <= j < |w.gate.queue| && w.gate.queue[j].id == id;
    assert w.granted[i] < w.gate.queue[j].id;
  }

  /* A release that leaves nothing held grants the first request that still waits, whatever expired ones
     are in front of it. */
  lemma {:induction false} FirstLiveRequestIsServed(g: Gate, expired: set<nat>, j: nat)
    requires !g.schema && g.writes == 0 && j < |g.queue| && g.queue[j].id !in expired
    requires forall i :: 0 <= i < j ==> g.queue[i].id in expired
    ensures Fulfilled(g, expired).notified != [] && Fulfilled(g, expired).notified[0] == g.queue[j]
    decreases j
  {
    if j > 0 {
      FirstLiveRequestIsServed(g.(queue := g.queue[1..]), expired, j - 1);
    }
  }

  function Live(queue: seq<Request>, expired: set<nat>): seq<Request> {
    if queue == [] then [] else (if queue[0].id in expired then [] else [queue[0]]) + Live(queue[1..], expired)
  }

  lemma LiveWithFront(queue: seq<Request>, taken: nat, expired: set<nat>)
    requires 0 < taken <= |queue|
    ensures Live(queue[..taken], expired) ==
            (if queue[0].id in expired then [] else [queue[0]]) + Live(queue[1..][..taken - 1], expired)
  {
    assert queue[..taken][1..] == queue[1..][..taken - 1];
  }

  /* One offer of the round. */
  lemma FulfilledByCases(g: Gate, expired: set<nat>)
    requires g.queue != []
    ensures var o, front, rest := Fulfilled(g, expired), g.queue[0], g.queue[1..];
            if front.kind == Schema && g.writes > 0 then o == Outcome(g, [])
            else if front.id in expired then o == Fulfilled(g.(queue := rest), expired)
            else if front.kind == Schema then o == Outcome(Gate(true, g.writes, rest), [front])
            else
              var later := Fulfilled(Gate(g.schema, g.writes + 1, rest), expired);
              o == Outcome(later.gate, [front] + later.notified)
  {
  }

  lemma NothingToOffer(g: Gate, expired: set<nat>)
    requires g.queue == []
    ensures Fulfilled(g, expired) == Outcome(g, [])
  {
  }

  /* A round of offers takes a prefix off the queue and grants exactly its live requests, in order. */
  lemma {:induction false} FulfilServesAPrefix(g: Gate, expired: set<nat>)
    ensures var o := Fulfilled(g, expired);
            var taken := |g.queue| - |o.gate.queue|;
            o.gate.queue == g.queue[taken..] && o.notified == Live(g.queue[..taken], expired)
    decreases |g.queue|
  {
    hide Live, Fulfilled;
    NothingLive(expired);
    assert g.queue[..0] == [];
    if g.queue == [] {
      NothingToOffer(g, expired);
    } else {
      FulfilledByCases(g, expired);
      var front, rest := g.queue[0], g.queue[1..];
      var o := Fulfilled(g, expired);
      var taken := |g.queue| - |o.gate.queue|;
      if !(front.kind == Schema && g.writes > 0) {
        if front.id in expired {
          FulfilServesAPrefix(g.(queue := rest), expired);
        } else if front.kind == Schema {
          assert rest[..0] == [];
        } else {
          FulfilServesAPrefix(Gate(g.schema, g.writes + 1, rest), expired);
        }
        LiveWithFront(g.queue, taken, expired);
        assert g.queue[taken..] == rest[taken - 1..];
      }
    }
  }

  lemma NothingLive(expired: set<nat>)
    ensures Live([], expired) == []
  {
  }

  /* What it grants is all writes or a single schema request, and it stops only when it must. */
  lemma {:induction false} FulfilGrantsCompatibly(g: Gate, expired: set<nat>)
    requires !g.schema
    ensures var o := Fulfilled(g, expired);
            && (o.gate.schema ==>
                  g.writes == 0 && o.gate.writes == 0 && |o.notified| == 1 && o.notified[0].kind == Schema)
            && (!o.gate.schema ==> o.gate.writes == g.writes + |o.notified|)
            && (!o.gate.schema ==> forall i :: 0 <= i < |o.notified| ==> o.notified[i].kind == Writing)
            && (o.gate.queue == [] || o.gate.schema || (o.gate.queue[0].kind == Schema && o.gate.writes > 0))
    decreases |g.queue|
  {
    if g.queue != [] {
      var front, rest := g.queue[0], g.queue[1..];
      if front.id in expired && !(front.kind == Schema && g.writes > 0) {
        FulfilGrantsCompatibly(g.(queue := rest), expired);
      } else if front.kind == Writing {
        FulfilGrantsCompatibly(Gate(g.schema, g.writes + 1, rest), expired);
      }
    }
  }

  /* How far it goes: a schema request is taken only when no write is running and none was granted before it,
     whether or not it has expired; a granted schema request is the last one taken; and otherwise the round goes on
     to the end of the queue or to a schema request that has to wait. */
  lemma {:induction false} FulfilTakesWhatItCan(g: Gate, expired: set<nat>)
    requires !g.schema
    ensures var o := Fulfilled(g, expired);
            var taken := |g.queue| - |o.gate.queue|;
            && (forall i :: 0 <= i < taken && g.queue[i].kind == Schema ==>
                  g.writes == 0 && Live(g.queue[..i], expired) == [])
            && (o.gate.schema ==>
                  taken > 0 && g.queue[taken - 1].kind == Schema && g.queue[taken - 1].id !in expired)
            && (!o.gate.schema ==> taken == |g.queue| || (g.queue[taken].kind == Schema && o.gate.writes > 0))
    decreases |g.queue|
  {
    hide Live, Fulfilled;
    if g.queue == [] {
      NothingToOffer(g, expired);
    } else {
      FulfilledByCases(g, expired);
      var front, rest := g.queue[0], g.queue[1..];
      var o := Fulfilled(g, expired);
      var taken := |g.queue| - |o.gate.queue|;
      assert g.queue[..0] == [];
      NothingLive(expired);
      if !(front.kind == Schema && g.writes > 0) {
        if front.id in expired {
          FulfilTakesWhatItCan(g.(queue := rest), expired);
        } else if front.kind == Writing {
          FulfilTakesWhatItCan(Gate(g.schema, g.writes + 1, rest), expired);
        }
        forall i | 0 < i < taken && g.queue[i].kind == Schema
          ensures g.writes == 0 && Live(g.queue[..i], expired) == []
        {
          assert rest[i - 1] == g.queue[i];
          LiveWithFront(g.queue, i, expired);
        }
      }
    }
  }

  /******* Writers do not wait for each other *******/

  /* By a step other than asking for a schema transaction. */
  ghost predicate CanBecomeByWriters(w: World, w': World) {
    exists step :: Next(w, step, w') && step != Reserve(Schema)
  }

  ghost predicate WriterNextAt(run: seq<World>, k: nat) {
    k + 1 < |run| && CanBecomeByWriters(run[k], run[k + 1])
  }

  ghost predicate WritesOnly(run: seq<World>) {
    run != [] && run[0] == INIT && forall k: nat :: k < |run| - 1 ==> WriterNextAt(run, k)
  }

  lemma WriteIsGrantedAtOnce(w: World, w': World)
    requires Next(w, Reserve(Writing), w') && !w.gate.schema && w.gate.queue == []
    ensures w'.gate == Gate(false, w.gate.writes + 1, [])
    ensures w'.granted == w.granted + [w.arrived] && w.arrived in w'.writers
  {
  }

  lemma GrantedDoNotWait(w: World, id: nat)
    requires |w.granted| == w.arrived && forall i :: 0 <= i < w.arrived ==> w.granted[i] == i
    ensures !Waiting(w, id)
  {
    if id < w.arrived {
      assert w.granted[id] == id;
    }
  }

  /* Without schema requests every write request is granted on arrival: nobody ever waits, and the requests
     granted are all that arrived. */
  lemma {:induction false} WritersNeverWait(run: seq<World>, k: nat)
    requires WritesOnly(run) && k < |run|
    ensures !run[k].gate.schema && run[k].gate.queue == [] && run[k].schemas == {}
    ensures |run[k].granted| == run[k].arrived
    ensures forall i :: 0 <= i < run[k].arrived ==> run[k].granted[i] == i
  {
    if k > 0 {
      WritersNeverWait(run, k - 1);
      var w, w' := run[k - 1], run[k];
      assert WriterNextAt(run, k - 1);
      var step :| Next(w, step, w') && step != Reserve(Schema);
      if step.Reserve? {
        WriteIsGrantedAtOnce(w, w');
      } else if step.Release? {
        assert GrantAll(w'.(gate := w'.gate), []) == w';
      } else {
        GrantedDoNotWait(w, step.id);
      }
    }
  }

  /* Any number of writers can be held at the same time. */
  lemma {:induction false} ManyWritersTogether(n: nat) returns (run: seq<World>)
    ensures Execution(run) && WritesOnly(run)
    ensures var w := run[|run| - 1];
            w.gate == Gate(false, n, []) && w.arrived == n && forall id: nat :: id in w.writers <==> id < n
  {
    if n == 0 {
      run := [INIT];
    } else {
      run := ManyWritersTogether(n - 1);
      var w := run[|run| - 1];
      var r := Request(Writing, w.arrived);
      var w' := Grant(w.(arrived := w.arrived + 1, gate := Reserved(w.gate, r)), r);
      assert Next(w, Reserve(Writing), w');
      run := Extended(run, w', Reserve(Writing));
    }
  }

  lemma Extended(run: seq<World>, w': World, step: Step) returns (longer: seq<World>)
    requires Execution(run) && WritesOnly(run) && step != Reserve(Schema) && Next(run[|run| - 1], step, w')
    ensures Execution(longer) && WritesOnly(longer) && longer[|longer| - 1] == w'
  {
    hide Next;
    longer := run + [w'];
    assert CanBecome(run[|run| - 1], w') && CanBecomeByWriters(run[|run| - 1], w');
    forall k: nat | k < |longer| - 1 ensures NextAt(longer, k) && WriterNextAt(longer, k) {
      if k < |run| - 1 {
        assert NextAt(run, k) && WriterNextAt(run, k);
        assert longer[k] == run[k] && longer[k + 1] == run[k + 1];
      }
    }
  }
}
