/**
 The stratification check of function definitions (function/function_manager.rs: `validate_no_cycles`,
 `validate_no_cycles_impl`): a depth-first search that counts the negations and aggregations on its path.
 */
module Stratification {
  import opened FunctionCalls

  type Functions = map<nat, Function>

  /* Every called function exists. */
  ghost predicate Closed(fs: Functions) {
    forall f, g :: f in fs && Calls(fs, f, g) ==> g in fs
  }

  /******* Calls, and which of them must not be on a cycle *******/

  predicate Calls(fs: Functions, f: nat, g: nat) {
    f in fs && (g in Negated(fs[f]) || g in Unnegated(fs[f]))
  }

  function Lift(f: Function): nat {
    if Aggregates(f) then 1 else 0
  }

  /* A call by which the stratum changes from s to t. */
  predicate CallsAt(fs: Functions, f: nat, s: nat, g: nat, t: nat) {
    && f in fs
    && ((g in Negated(fs[f]) && t == s + 1) || (g in Unnegated(fs[f]) && t == s + Lift(fs[f])))
  }

  /* A negated call, or any call of a function that aggregates or returns a single answer. */
  predicate Raises(fs: Functions, f: nat, g: nat) {
    f in fs && (g in Negated(fs[f]) || (g in Unnegated(fs[f]) && Aggregates(fs[f])))
  }

  predicate CallsPlainly(fs: Functions, f: nat, g: nat) {
    f in fs && g in Unnegated(fs[f]) && !Aggregates(fs[f])
  }

  function After(i: nat, n: nat): nat
    requires i < n
  {
    if i + 1 < n then i + 1 else 0
  }

  ghost predicate Cycle(fs: Functions, ids: seq<nat>) {
    ids != [] && forall i: nat :: i < |ids| ==> Calls(fs, ids[i], ids[After(i, |ids|)])
  }

  ghost predicate RaisingCycle(fs: Functions, ids: seq<nat>) {
    Cycle(fs, ids) && exists i: nat :: i < |ids| && Raises(fs, ids[i], ids[After(i, |ids|)])
  }

  ghost predicate PlainCycle(fs: Functions, ids: seq<nat>) {
    ids != [] && forall i: nat :: i < |ids| ==> CallsPlainly(fs, ids[i], ids[After(i, |ids|)])
  }

  /* The textbook notion: strata that never go up along calls and go down along raising calls. */
  ghost predicate StratifiedBy(fs: Functions, strata: map<nat, nat>) {
    && (forall f :: f in fs ==> f in strata)
    && (forall f, g :: Calls(fs, f, g) ==> Falls(strata, f, g, false))
    && (forall f, g :: Raises(fs, f, g) ==> Falls(strata, f, g, true))
  }

  predicate Falls(strata: map<nat, nat>, f: nat, g: nat, strictly: bool) {
    f in strata && g in strata && if strictly then strata[g] < strata[f] else strata[g] <= strata[f]
  }

  /******* The search *******/

  /* A function on the current path and its stratum; its depth is its position on the path. */
  datatype Frame = Frame(id: nat, stratum: nat)

  /* The functions completed, in the order of completion, or the offending path. */
  datatype Outcome = Accepted(complete: seq<nat>) | Rejected(cycle: seq<nat>)

  function Ids(path: seq<Frame>): (ids: seq<nat>)
    ensures |ids| == |path| && forall i :: 0 <= i < |path| ==> ids[i] == path[i].id
  {
    seq(|path|, i requires 0 <= i < |path| => path[i].id)
  }

  function IdSet(path: seq<Frame>): set<nat> {
    set i | 0 <= i < |path| :: path[i].id
  }

  /* Where a function is on the path, or the path's length. */
  function Position(path: seq<Frame>, id: nat): (i: nat)
    ensures i <= |path|
    ensures i < |path| ==> path[i].id == id
    ensures forall k :: 0 <= k < i ==> path[k].id != id
  {
    if path == [] then 0
    else if path[0].id == id then 0
    else 1 + Position(path[1..], id)
  }

  function Unvisited(fs: Functions, path: seq<Frame>): set<nat> {
    fs.Keys - IdSet(path)
  }

  lemma IdSetOfAppend(path: seq<Frame>, frame: Frame)
    ensures IdSet(path + [frame]) == IdSet(path) + {frame.id}
  {
    var path' := path + [frame];
    assert path'[|path|] == frame;
    forall x | x in IdSet(path) ensures x in IdSet(path') {
      var i :| 0 <= i < |path| && path[i].id == x;
      assert path'[i].id == x;
    }
  }

  lemma VisitingShrinks(fs: Functions, path: seq<Frame>, frame: Frame)
    requires frame.id in fs && Position(path, frame.id) == |path|
    ensures |Unvisited(fs, path + [frame])| < |Unvisited(fs, path)|
  {
    IdSetOfAppend(path, frame);
    NotOnPath(path, frame.id);
    hide IdSet, Position;
    assert frame.id in Unvisited(fs, path);
    assert Unvisited(fs, path + [frame]) == Unvisited(fs, path) - {frame.id};
  }

  lemma NotOnPath(path: seq<Frame>, id: nat)
    requires Position(path, id) == |path|
    ensures id !in IdSet(path)
  {
  }

  /* Visiting one function. (An unknown one is passed over here; where calls are closed there is none.) */
  function Visit(fs: Functions, path: seq<Frame>, complete: seq<nat>, id: nat, stratum: nat): Outcome
    decreases |Unvisited(fs, path)|, 1
  {
    if id in complete || id !in fs then Accepted(complete)
    else
      var i := Position(path, id);
      if i < |path| then
        if path[i].stratum < stratum then Rejected(Ids(path[i..])) else Accepted(complete)
      else
        VisitingShrinks(fs, path, Frame(id, stratum));
        var path' := path + [Frame(id, stratum)];
        var o := VisitAll(fs, path', complete, Negated(fs[id]), stratum + 1);
        if o.Rejected? then o
        else
          var p := VisitAll(fs, path', o.complete, Unnegated(fs[id]), stratum + Lift(fs[id]));
          if p.Rejected? then p else Accepted(p.complete + [id])
  }

  function VisitAll(fs: Functions, path: seq<Frame>, complete: seq<nat>, ids: seq<nat>, stratum: nat): Outcome
    decreases |Unvisited(fs, path)|, 2, |ids|
  {
    if ids == [] then Accepted(complete)
    else
      var o := Visit(fs, path, complete, ids[0], stratum);
      if o.Rejected? then o else VisitAll(fs, path, o.complete, ids[1..], stratum)
  }

  /* The whole check, for some order of the functions. */
  function Validate(fs: Functions, order: seq<nat>): Outcome {
    VisitAll(fs, [], [], order, 0)
  }

  ghost predicate Enumerates(order: seq<nat>, fs: Functions) {
    forall f :: f in order <==> f in fs
  }

  predicate NoneTwice(order: seq<nat>) {
    forall i, j :: 0 <= i < j < |order| ==> order[i] != order[j]
  }

  /* An order in which a map can yield its keys. */
  ghost predicate KeyOrder(order: seq<nat>, fs: Functions) {
    Enumerates(order, fs) && NoneTwice(order)
  }

  /******* A rejection names a raising cycle *******/

  /* Consecutive functions of the path call each other and the strata count the raising calls. */
  ghost predicate CallPath(fs: Functions, path: seq<Frame>) {
    forall i: nat :: i < |path| - 1 ==> CallsAt(fs, path[i].id, path[i].stratum, path[i + 1].id, path[i + 1].stratum)
  }

  /* The next function to visit is called by the last one on the path. */
  ghost predicate Arrives(fs: Functions, path: seq<Frame>, id: nat, stratum: nat) {
    path != [] ==> CallsAt(fs, path[|path| - 1].id, path[|path| - 1].stratum, id, stratum)
  }

  lemma ExtendedPath(fs: Functions, path: seq<Frame>, id: nat, stratum: nat)
    requires CallPath(fs, path) && Arrives(fs, path, id, stratum)
    ensures CallPath(fs, path + [Frame(id, stratum)])
  {
  }

  predicate RaisesAt(fs: Functions, path: seq<Frame>, j: nat) {
    j + 1 < |path| && Raises(fs, path[j].id, path[j + 1].id)
  }

  /* If the stratum has grown between two points of the path, some call between them raises it. */
  lemma {:induction false} GrowthNeedsRaise(fs: Functions, path: seq<Frame>, i: nat, k: nat)
    requires CallPath(fs, path) && i <= k < |path| && path[i].stratum < path[k].stratum
    ensures exists j: nat :: i <= j < k && RaisesAt(fs, path, j)
    decreases k
  {
    assert CallsAt(fs, path[k - 1].id, path[k - 1].stratum, path[k].id, path[k].stratum);
    if !RaisesAt(fs, path, k - 1) {
      GrowthNeedsRaise(fs, path, i, k - 1);
    }
  }

  lemma PathClosesToCycle(fs: Functions, path: seq<Frame>, i: nat, id: nat, stratum: nat)
    requires CallPath(fs, path) && Arrives(fs, path, id, stratum) && i < |path| && path[i].id == id
    ensures Cycle(fs, Ids(path[i..]))
  {
    hide Negated, Unnegated, Lift;
    var ids, n := Ids(path[i..]), |path| - i;
    forall k: nat | k < n ensures Calls(fs, ids[k], ids[After(k, n)]) {
      if k + 1 < n {
        assert CallsAt(fs, path[i + k].id, path[i + k].stratum, path[i + k + 1].id, path[i + k + 1].stratum);
      }
    }
  }

  /* The call out of frame j of a path that comes back to frame i, as a call on the cycle. */
  lemma CallOnCycle(path: seq<Frame>, i: nat, id: nat, stratum: nat, j: nat)
    requires i <= j < |path| && path[i].id == id
    ensures var closed, ids := path + [Frame(id, stratum)], Ids(path[i..]);
            ids[j - i] == closed[j].id && ids[After(j - i, |ids|)] == closed[j + 1].id
  {
    assert path[i..][j - i] == path[j];
    if j + 1 < |path| {
      assert path[i..][j + 1 - i] == path[j + 1];
    }
  }

  lemma ClosingTheCycle(fs: Functions, path: seq<Frame>, i: nat, id: nat, stratum: nat)
    requires CallPath(fs, path) && Arrives(fs, path, id, stratum) && i < |path| && path[i].id == id
    requires path[i].stratum < stratum
    ensures RaisingCycle(fs, Ids(path[i..]))
  {
    PathClosesToCycle(fs, path, i, id, stratum);
    ExtendedPath(fs, path, id, stratum);
    hide Raises, CallsAt, CallPath, Cycle, Ids, After, Arrives;
    var closed, ids := path + [Frame(id, stratum)], Ids(path[i..]);
    GrowthNeedsRaise(fs, closed, i, |path|);
    var j: nat :| i <= j < |path| && RaisesAt(fs, closed, j);
    CallOnCycle(path, i, id, stratum, j);
    assert Raises(fs, ids[j - i], ids[After(j - i, |ids|)]);
  }

  lemma {:induction false} RejectionIsRaisingCycle(fs: Functions, path: seq<Frame>, complete: seq<nat>, id: nat,
                                                   stratum: nat)
    requires CallPath(fs, path) && Arrives(fs, path, id, stratum)
    ensures var o := Visit(fs, path, complete, id, stratum); o.Rejected? ==> RaisingCycle(fs, o.cycle)
    decreases |Unvisited(fs, path)|, 1
  {
    hide RaisingCycle, CallPath;
    if id !in complete && id in fs {
      var i := Position(path, id);
      if i < |path| {
        if path[i].stratum < stratum {
          ClosingTheCycle(fs, path, i, id, stratum);
        }
      } else {
        VisitingShrinks(fs, path, Frame(id, stratum));
        var path' := path + [Frame(id, stratum)];
        ExtendedPath(fs, path, id, stratum);
        RejectionAmongCalls(fs, path', complete, Negated(fs[id]), stratum + 1);
        var o := VisitAll(fs, path', complete, Negated(fs[id]), stratum + 1);
        if o.Accepted? {
          RejectionAmongCalls(fs, path', o.complete, Unnegated(fs[id]), stratum + Lift(fs[id]));
        }
      }
    }
  }

  lemma {:induction false} RejectionAmongCalls(fs: Functions, path: seq<Frame>, complete: seq<nat>, ids: seq<nat>,
                                               stratum: nat)
    requires CallPath(fs, path) && forall g :: g in ids ==> Arrives(fs, path, g, stratum)
    ensures var o := VisitAll(fs, path, complete, ids, stratum); o.Rejected? ==> RaisingCycle(fs, o.cycle)
    decreases |Unvisited(fs, path)|, 2, |ids|
  {
    hide RaisingCycle, CallPath;
    if ids != [] {
      assert ids[0] in ids;
      RejectionIsRaisingCycle(fs, path, complete, ids[0], stratum);
      var o := Visit(fs, path, complete, ids[0], stratum);
      if o.Accepted? {
        RejectionAmongCalls(fs, path, o.complete, ids[1..], stratum);
      }
    }
  }

  /* Whatever the order of the functions: the names reported are a real cycle of calls, one of which is
     negated or made by an aggregating or single-answer function. */
  lemma RejectedIsRealCycle(fs: Functions, order: seq<nat>)
    ensures var o := Validate(fs, order); o.Rejected? ==> RaisingCycle(fs, o.cycle)
  {
    RejectionAmongCalls(fs, [], [], order, 0);
  }

  /******* Stratified functions are accepted *******/

  lemma {:induction false} StrataFallAlong(fs: Functions, strata: map<nat, nat>, ids: seq<nat>, k: nat)
    requires StratifiedBy(fs, strata) && Cycle(fs, ids) && k < |ids|
    ensures ids[0] in strata && ids[k] in strata && strata[ids[k]] <= strata[ids[0]]
    decreases k
  {
    assert Calls(fs, ids[0], ids[After(0, |ids|)]);
    if k > 0 {
      StrataFallAlong(fs, strata, ids, k - 1);
      assert Calls(fs, ids[k - 1], ids[After(k - 1, |ids|)]);
    }
  }

  lemma {:induction false} StrataFallTo(fs: Functions, strata: map<nat, nat>, ids: seq<nat>, k: nat)
    requires StratifiedBy(fs, strata) && Cycle(fs, ids) && k < |ids|
    ensures ids[0] in strata && ids[k] in strata && strata[ids[0]] <= strata[ids[k]]
    decreases |ids| - k
  {
    assert Calls(fs, ids[k], ids[After(k, |ids|)]);
    if k + 1 < |ids| {
      StrataFallTo(fs, strata, ids, k + 1);
    }
  }

  lemma StratifiedHasNoRaisingCycle(fs: Functions, strata: map<nat, nat>, ids: seq<nat>)
    requires StratifiedBy(fs, strata)
    ensures !RaisingCycle(fs, ids)
  {
    if RaisingCycle(fs, ids) {
      var i: nat :| i < |ids| && Raises(fs, ids[i], ids[After(i, |ids|)]);
      StrataFallAlong(fs, strata, ids, i);
      StrataFallTo(fs, strata, ids, After(i, |ids|));
    }
  }

  lemma StratifiedIsAccepted(fs: Functions, strata: map<nat, nat>, order: seq<nat>)
    requires StratifiedBy(fs, strata)
    ensures Validate(fs, order).Accepted?
  {
    RejectedIsRealCycle(fs, order);
    if Validate(fs, order).Rejected? {
      StratifiedHasNoRaisingCycle(fs, strata, Validate(fs, order).cycle);
    }
  }

  /******* On success every function is complete *******/

  lemma {:induction false} VisitCompletes(fs: Functions, path: seq<Frame>, complete: seq<nat>, id: nat, stratum: nat)
    ensures var o := Visit(fs, path, complete, id, stratum);
            o.Accepted? ==>
              && complete <= o.complete
              && (id in fs ==> id in o.complete || Position(path, id) < |path|)
              && (forall f :: f in o.complete ==> f in complete || f in fs)
    decreases |Unvisited(fs, path)|, 1
  {
    if id !in complete && id in fs && Position(path, id) == |path| {
      VisitingShrinks(fs, path, Frame(id, stratum));
      var path' := path + [Frame(id, stratum)];
      var o := VisitAll(fs, path', complete, Negated(fs[id]), stratum + 1);
      CallsComplete(fs, path', complete, Negated(fs[id]), stratum + 1);
      if o.Accepted? {
        CallsComplete(fs, path', o.complete, Unnegated(fs[id]), stratum + Lift(fs[id]));
      }
    }
  }

  lemma {:induction false} CallsComplete(fs: Functions, path: seq<Frame>, complete: seq<nat>, ids: seq<nat>,
                                         stratum: nat)
    ensures var o := VisitAll(fs, path, complete, ids, stratum);
            o.Accepted? ==>
              && complete <= o.complete
              && (forall g :: g in ids && g in fs ==> g in o.complete || Position(path, g) < |path|)
              && (forall f :: f in o.complete ==> f in complete || f in fs)
    decreases |Unvisited(fs, path)|, 2, |ids|
  {
    if ids != [] {
      VisitCompletes(fs, path, complete, ids[0], stratum);
      var o := Visit(fs, path, complete, ids[0], stratum);
      if o.Accepted? {
        CallsComplete(fs, path, o.complete, ids[1..], stratum);
      }
    }
  }

  lemma AcceptedCompletesAll(fs: Functions, order: seq<nat>)
    requires Enumerates(order, fs)
    ensures var o := Validate(fs, order); o.Accepted? ==> forall f :: f in o.complete <==> f in fs
  {
    CallsComplete(fs, [], [], order, 0);
  }

  /******* When acceptance means stratified *******/

  /* No function calls itself through plain calls alone. */
  ghost predicate NoPlainRecursion(fs: Functions) {
    forall ids :: !PlainCycle(fs, ids)
  }

  /* Whatever the completed functions call was completed before them. */
  ghost predicate Topological(fs: Functions, complete: seq<nat>) {
    forall i, g :: 0 <= i < |complete| && Calls(fs, complete[i], g) ==> g in complete[..i]
  }

  lemma {:induction false} StrataNeverFall(fs: Functions, path: seq<Frame>, i: nat, k: nat)
    requires CallPath(fs, path) && i <= k < |path|
    ensures path[i].stratum <= path[k].stratum
    decreases k
  {
    if i < k {
      StrataNeverFall(fs, path, i, k - 1);
      assert CallsAt(fs, path[k - 1].id, path[k - 1].stratum, path[k].id, path[k].stratum);
    }
  }

  /* Coming back to a function at its own stratum means plain recursion. */
  lemma ComingBackIsPlain(fs: Functions, path: seq<Frame>, i: nat, id: nat, stratum: nat)
    requires CallPath(fs, path) && Arrives(fs, path, id, stratum) && i < |path| && path[i].id == id
    requires path[i].stratum >= stratum
    ensures PlainCycle(fs, Ids(path[i..]))
  {
    var closed, ids, n := path + [Frame(id, stratum)], Ids(path[i..]), |path| - i;
    ExtendedPath(fs, path, id, stratum);
    forall k: nat | k < n ensures CallsPlainly(fs, ids[k], ids[After(k, n)]) {
      StrataNeverFall(fs, closed, i, i + k);
      StrataNeverFall(fs, closed, i + k, i + k + 1);
      StrataNeverFall(fs, closed, i + k + 1, |path|);
      assert CallsAt(fs, closed[i + k].id, closed[i + k].stratum, closed[i + k + 1].id, closed[i + k + 1].stratum);
    }
  }

  lemma {:induction false} VisitIsTopological(fs: Functions, path: seq<Frame>, complete: seq<nat>, id: nat,
                                              stratum: nat)
    requires Closed(fs) && NoPlainRecursion(fs) && CallPath(fs, path) && Arrives(fs, path, id, stratum)
    requires Topological(fs, complete) && id in fs
    ensures var o := Visit(fs, path, complete, id, stratum);
            o.Accepted? ==> Topological(fs, o.complete) && id in o.complete && complete <= o.complete
    decreases |Unvisited(fs, path)|, 1
  {
    hide NoPlainRecursion, CallPath, Topological, Negated, Unnegated, Lift, VisitAll, Closed;
    if id !in complete {
      var i := Position(path, id);
      if i < |path| {
        if path[i].stratum >= stratum {
          ComingBackIsPlain(fs, path, i, id, stratum);
          PlainCycleIsPlainRecursion(fs, Ids(path[i..]));
        }
      } else {
        VisitingShrinks(fs, path, Frame(id, stratum));
        hide Unvisited, Position;
        var path' := path + [Frame(id, stratum)];
        ExtendedPath(fs, path, id, stratum);
        CallsArrive(fs, path', id, stratum);
        var o := VisitAll(fs, path', complete, Negated(fs[id]), stratum + 1);
        CallsAreTopological(fs, path', complete, Negated(fs[id]), stratum + 1);
        if o.Accepted? {
          var p := VisitAll(fs, path', o.complete, Unnegated(fs[id]), stratum + Lift(fs[id]));
          CallsAreTopological(fs, path', o.complete, Unnegated(fs[id]), stratum + Lift(fs[id]));
          if p.Accepted? {
            CompletionIsTopological(fs, p.complete, id);
          }
        }
      }
    }
  }

  /* What the last function on the path calls can be visited next. */
  lemma CallsArrive(fs: Functions, path: seq<Frame>, id: nat, stratum: nat)
    requires Closed(fs) && id in fs && path != [] && path[|path| - 1] == Frame(id, stratum)
    ensures forall g :: g in Negated(fs[id]) ==> Arrives(fs, path, g, stratum + 1) && g in fs
    ensures forall g :: g in Unnegated(fs[id]) ==> Arrives(fs, path, g, stratum + Lift(fs[id])) && g in fs
  {
    hide Negated, Unnegated;
    forall g | g in Negated(fs[id]) || g in Unnegated(fs[id]) ensures g in fs {
      assert Calls(fs, id, g);
    }
  }

  lemma PlainCycleIsPlainRecursion(fs: Functions, ids: seq<nat>)
    requires PlainCycle(fs, ids)
    ensures !NoPlainRecursion(fs)
  {
  }

  lemma CompletionIsTopological(fs: Functions, complete: seq<nat>, id: nat)
    requires Topological(fs, complete) && forall g :: Calls(fs, id, g) ==> g in complete
    ensures Topological(fs, complete + [id])
  {
    var complete' := complete + [id];
    forall i, g | 0 <= i < |complete'| && Calls(fs, complete'[i], g) ensures g in complete'[..i] {
      if i < |complete| {
        assert complete'[..i] == complete[..i];
      } else {
        assert complete'[..i] == complete;
      }
    }
  }

  lemma {:induction false} CallsAreTopological(fs: Functions, path: seq<Frame>, complete: seq<nat>, ids: seq<nat>,
                                               stratum: nat)
    requires Closed(fs) && NoPlainRecursion(fs) && CallPath(fs, path) && Topological(fs, complete)
    requires forall g :: g in ids ==> Arrives(fs, path, g, stratum) && g in fs
    ensures var o := VisitAll(fs, path, complete, ids, stratum);
            o.Accepted? ==>
              && Topological(fs, o.complete) && complete <= o.complete
              && forall g :: g in ids ==> g in o.complete
    decreases |Unvisited(fs, path)|, 2, |ids|
  {
    hide NoPlainRecursion, CallPath, Closed, Topological;
    if ids != [] {
      assert ids[0] in ids;
      VisitIsTopological(fs, path, complete, ids[0], stratum);
      var o := Visit(fs, path, complete, ids[0], stratum);
      if o.Accepted? {
        CallsAreTopological(fs, path, o.complete, ids[1..], stratum);
      }
    }
  }

  /* The position of a function's completion serves as its stratum. */
  function CompletionStrata(complete: seq<nat>): map<nat, nat> {
    map f | f in complete :: First(complete, f)
  }

  function First(complete: seq<nat>, f: nat): (i: nat)
    requires f in complete
    ensures i < |complete| && complete[i] == f && f !in complete[..i]
  {
    if complete[0] == f then 0
    else
      var i := First(complete[1..], f) + 1;
      assert complete[..i] == [complete[0]] + complete[1..][..i - 1];
      i
  }

  lemma {:induction false} FirstOfEarlier(complete: seq<nat>, i: nat, g: nat)
    requires i <= |complete| && g in complete[..i]
    ensures First(complete, g) < i
  {
    if complete[0] != g {
      assert complete[..i] == [complete[0]] + complete[1..][..i - 1];
      FirstOfEarlier(complete[1..], i - 1, g);
    }
  }

  lemma TopologicalIsStratified(fs: Functions, complete: seq<nat>)
    requires Topological(fs, complete) && forall f :: f in fs ==> f in complete
    ensures StratifiedBy(fs, CompletionStrata(complete))
  {
    hide Negated, Unnegated, Aggregates;
    var strata := CompletionStrata(complete);
    forall f, g | Calls(fs, f, g) ensures Falls(strata, f, g, true) && Falls(strata, f, g, false) {
      var i := First(complete, f);
      assert complete[i] == f;
      assert g in complete[..i];
      FirstOfEarlier(complete, i, g);
    }
    forall f, g | Raises(fs, f, g) ensures Falls(strata, f, g, true) {
      assert Calls(fs, f, g);
    }
  }

  /* Without plain recursion the check is exact: whatever the order, it accepts if and only if the functions
     can be stratified. */
  lemma ExactWithoutPlainRecursion(fs: Functions, order: seq<nat>)
    requires Closed(fs) && Enumerates(order, fs) && NoPlainRecursion(fs)
    ensures Validate(fs, order).Accepted? <==> exists strata :: StratifiedBy(fs, strata)
  {
    hide NoPlainRecursion, Closed, StratifiedBy, Topological;
    assert Topological(fs, []) by {
      NothingIsTopological(fs);
    }
    CallsAreTopological(fs, [], [], order, 0);
    AcceptedCompletesAll(fs, order);
    var o := Validate(fs, order);
    if o.Accepted? {
      TopologicalIsStratified(fs, o.complete);
      assert StratifiedBy(fs, CompletionStrata(o.complete));
    } else {
      forall strata ensures !StratifiedBy(fs, strata) {
        if StratifiedBy(fs, strata) {
          StratifiedIsAccepted(fs, strata, order);
        }
      }
    }
  }

  lemma NothingIsTopological(fs: Functions)
    ensures Topological(fs, [])
  {
  }

  /******* An unstratified program that is accepted *******/

  const CALLER: Function := Function("a", [Match(Conjunction([1, 2], []))], Stream)
  const BACK: Function := Function("b", [Match(Conjunction([0], []))], Stream)
  const NEGATOR: Function := Function("c", [Match(Conjunction([], [Negation(Conjunction([1], []))]))], Stream)
  const EXAMPLE: Functions := map[0 := CALLER, 1 := BACK, 2 := NEGATOR]

  lemma CallsOfPlain(ids: seq<nat>, name: string)
    ensures var f := Function(name, [Match(Conjunction(ids, []))], Stream);
            Unnegated(f) == ids && Negated(f) == [] && !Aggregates(f)
  {
    var c := Conjunction(ids, []);
    assert [Match(c)][..0] == [];
    assert CallsOf(c, false) == Signed(ids, false);
    assert CallsOfStages([Match(c)]) == Signed(ids, false);
    WithSignOfSigned(ids, false, false);
    WithSignOfSigned(ids, false, true);
  }

  lemma CallsOfNegator()
    ensures Unnegated(NEGATOR) == [] && Negated(NEGATOR) == [1] && !Aggregates(NEGATOR)
  {
    var inner := Conjunction([1], []);
    var c := Conjunction([], [Negation(inner)]);
    assert CallsOf(inner, true) == Signed([1], true);
    assert CallsOfFirst(c, 1, false) == CallsOfFirst(c, 0, false) + CallsOf(inner, true);
    assert CallsOf(c, false) == Signed([1], true);
    assert [Match(c)][..0] == [];
    assert CallsOfStages([Match(c)]) == Signed([1], true);
    WithSignOfSigned([1], true, false);
    WithSignOfSigned([1], true, true);
  }

  lemma ExampleCalls()
    ensures Unnegated(EXAMPLE[0]) == [1, 2] && Negated(EXAMPLE[0]) == [] && Lift(EXAMPLE[0]) == 0
    ensures Unnegated(EXAMPLE[1]) == [0] && Negated(EXAMPLE[1]) == [] && Lift(EXAMPLE[1]) == 0
    ensures Unnegated(EXAMPLE[2]) == [] && Negated(EXAMPLE[2]) == [1] && Lift(EXAMPLE[2]) == 0
  {
    CallsOfPlain([1, 2], "a");
    CallsOfPlain([0], "b");
    CallsOfNegator();
  }

  lemma VisitEach(fs: Functions, path: seq<Frame>, complete: seq<nat>, ids: seq<nat>, stratum: nat)
    requires ids != []
    ensures var o := Visit(fs, path, complete, ids[0], stratum);
            VisitAll(fs, path, complete, ids, stratum) ==
              if o.Rejected? then o else VisitAll(fs, path, o.complete, ids[1..], stratum)
  {
  }

  lemma VisitBack()
    ensures Visit(EXAMPLE, [Frame(0, 0)], [], 1, 0) == Accepted([1])
  {
    hide Negated, Unnegated, Lift;
    ExampleCalls();
    var path := [Frame(0, 0)];
    var path' := path + [Frame(1, 0)];
    assert Position(path, 1) == 1 && Position(path', 0) == 0;
    VisitEach(EXAMPLE, path', [], [0], 0);
    assert [0][1..] == [];
    assert VisitAll(EXAMPLE, path', [], [0], 0) == Accepted([]);
  }

  lemma VisitNegator()
    ensures Visit(EXAMPLE, [Frame(0, 0)], [1], 2, 0) == Accepted([1, 2])
  {
    hide Negated, Unnegated, Lift;
    ExampleCalls();
    var path := [Frame(0, 0)];
    var path' := path + [Frame(2, 0)];
    assert Position(path, 2) == 1;
    VisitEach(EXAMPLE, path', [1], [1], 1);
    assert [1][1..] == [];
    assert VisitAll(EXAMPLE, path', [1], [1], 1) == Accepted([1]);
  }

  lemma VisitCaller()
    ensures Visit(EXAMPLE, [], [], 0, 0) == Accepted([1, 2, 0])
  {
    hide Negated, Unnegated, Lift;
    ExampleCalls();
    VisitBack();
    VisitNegator();
    var path := [] + [Frame(0, 0)];
    assert path == [Frame(0, 0)];
    VisitEach(EXAMPLE, path, [], [1, 2], 0);
    VisitEach(EXAMPLE, path, [1], [2], 0);
    assert [1, 2][1..] == [2] && [2][1..] == [];
    assert VisitAll(EXAMPLE, path, [], [1, 2], 0) == Accepted([1, 2]);
  }

  /* a calls b and c, b calls a, c negates b. Searched from a, b is complete before c is visited, so the cycle
     through the negation goes unnoticed. */
  lemma UnstratifiedMayBeAccepted()
    ensures RaisingCycle(EXAMPLE, [0, 2, 1])
    ensures KeyOrder([0, 1, 2], EXAMPLE)
    ensures Validate(EXAMPLE, [0, 1, 2]) == Accepted([1, 2, 0])
  {
    hide Negated, Unnegated, Lift;
    ExampleCalls();
    VisitCaller();
    var ids := [0, 2, 1];
    assert Calls(EXAMPLE, 0, 2) && Calls(EXAMPLE, 2, 1) && Calls(EXAMPLE, 1, 0);
    assert Raises(EXAMPLE, ids[1], ids[After(1, 3)]);
    VisitEach(EXAMPLE, [], [], [0, 1, 2], 0);
    VisitEach(EXAMPLE, [], [1, 2, 0], [1, 2], 0);
    VisitEach(EXAMPLE, [], [1, 2, 0], [2], 0);
    assert [0, 1, 2][1..] == [1, 2] && [1, 2][1..] == [2] && [2][1..] == [];
  }
}
