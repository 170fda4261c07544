/**
 What the stratification check decides (function/function_manager.rs, `validate_no_cycles`). Which functions
 it visits first is up to the hash map, and acceptance may depend on it; taken over all orders, it accepts
 exactly the programs that can be stratified.
 */
module StratificationExact {
  import opened FunctionCalls
  import opened Stratification

  /******* Strata exist exactly when no cycle raises *******/

  predicate CallsFrom(fs: Functions, p: seq<nat>, i: nat) {
    i + 1 < |p| && Calls(fs, p[i], p[i + 1])
  }

  predicate RaisesFrom(fs: Functions, p: seq<nat>, i: nat) {
    i + 1 < |p| && Raises(fs, p[i], p[i + 1])
  }

  /* A chain of calls, at least one of them raising. */
  ghost predicate RaisingChain(fs: Functions, p: seq<nat>, f: nat, g: nat) {
    && |p| >= 2 && p[0] == f && p[|p| - 1] == g
    && (forall i: nat :: i < |p| - 1 ==> CallsFrom(fs, p, i))
    && (exists i: nat :: i < |p| - 1 && RaisesFrom(fs, p, i))
  }

  ghost predicate RaisesTo(fs: Functions, f: nat, g: nat) {
    exists p :: RaisingChain(fs, p, f, g)
  }

  lemma RaisingCallReaches(fs: Functions, f: nat, g: nat)
    requires Raises(fs, f, g)
    ensures RaisesTo(fs, f, g)
  {
    var p := [f, g];
    assert CallsFrom(fs, p, 0) && RaisesFrom(fs, p, 0);
    assert RaisingChain(fs, p, f, g);
  }

  lemma CallerReachesMore(fs: Functions, f: nat, g: nat, h: nat)
    requires Calls(fs, f, g) && RaisesTo(fs, g, h)
    ensures RaisesTo(fs, f, h)
  {
    hide Calls, Raises;
    var p :| RaisingChain(fs, p, g, h);
    var q := [f] + p;
    var k: nat :| k < |p| - 1 && RaisesFrom(fs, p, k);
    assert RaisesFrom(fs, q, k + 1);
    forall i: nat | i < |q| - 1 ensures CallsFrom(fs, q, i) {
      assert i > 0 ==> CallsFrom(fs, p, i - 1);
    }
    assert RaisingChain(fs, q, f, h);
  }

  lemma ChainToItselfIsCycle(fs: Functions, f: nat) returns (ids: seq<nat>)
    requires RaisesTo(fs, f, f)
    ensures RaisingCycle(fs, ids)
  {
    hide Calls, Raises;
    var p :| RaisingChain(fs, p, f, f);
    ids := p[..|p| - 1];
    var n := |ids|;
    forall i: nat | i < n ensures Calls(fs, ids[i], ids[After(i, n)]) {
      assert CallsFrom(fs, p, i);
    }
    var k: nat :| k < |p| - 1 && RaisesFrom(fs, p, k);
    assert Raises(fs, ids[k], ids[After(k, n)]);
  }

  /* Everything a function reaches through a raising call. */
  ghost function Above(fs: Functions, f: nat): set<nat> {
    set g | g in fs && RaisesTo(fs, f, g)
  }

  ghost function StrataOf(fs: Functions): map<nat, nat> {
    map f | f in fs :: |Above(fs, f)|
  }

  lemma SmallerAbove(fs: Functions, f: nat, g: nat)
    requires Closed(fs) && Calls(fs, f, g)
    ensures g in fs && Above(fs, g) <= Above(fs, f) && |Above(fs, g)| <= |Above(fs, f)|
  {
    forall h | h in Above(fs, g) ensures h in Above(fs, f) {
      CallerReachesMore(fs, f, g, h);
    }
    SubsetIsSmaller(Above(fs, g), Above(fs, f));
  }

  lemma {:induction false} SubsetIsSmaller(a: set<nat>, b: set<nat>)
    requires a <= b
    ensures |a| <= |b| && (a != b ==> |a| < |b|)
  {
    if a == {} {
      assert b != {} ==> |b| > 0;
    } else {
      var x :| x in a;
      SubsetIsSmaller(a - {x}, b - {x});
      assert a != b ==> a - {x} != b - {x};
    }
  }

  lemma RaisingCallGoesDown(fs: Functions, f: nat, g: nat)
    requires Closed(fs) && Raises(fs, f, g) && (forall ids :: !RaisingCycle(fs, ids))
    ensures g in fs && |Above(fs, g)| < |Above(fs, f)|
  {
    SmallerAbove(fs, f, g);
    RaisingCallReaches(fs, f, g);
    if RaisesTo(fs, g, g) {
      var ids := ChainToItselfIsCycle(fs, g);
    }
    assert g in Above(fs, f) && g !in Above(fs, g);
    SubsetIsSmaller(Above(fs, g), Above(fs, f));
  }

  /* Functions can be stratified if and only if no cycle of calls contains a raising call. */
  lemma StrataExistIffNoRaisingCycle(fs: Functions)
    requires Closed(fs)
    ensures (exists strata :: StratifiedBy(fs, strata)) <==> (forall ids :: !RaisingCycle(fs, ids))
  {
    if strata :| StratifiedBy(fs, strata) {
      forall ids ensures !RaisingCycle(fs, ids) {
        StratifiedHasNoRaisingCycle(fs, strata, ids);
      }
    }
    if forall ids :: !RaisingCycle(fs, ids) {
      AboveStratifies(fs);
    }
  }

  lemma AboveStratifies(fs: Functions)
    requires Closed(fs) && forall ids :: !RaisingCycle(fs, ids)
    ensures StratifiedBy(fs, StrataOf(fs))
  {
    hide Above, RaisingCycle, Closed, Negated, Unnegated;
    var strata := StrataOf(fs);
    forall f, g | Calls(fs, f, g) ensures Falls(strata, f, g, false) {
      SmallerAbove(fs, f, g);
    }
    forall f, g | Raises(fs, f, g) ensures Falls(strata, f, g, true) {
      RaisingCallGoesDown(fs, f, g);
    }
  }

  /******* A raising cycle is found from the right start *******/

  /* While `root` is at the bottom of the path, nobody who completes makes a raising call to it. */
  ghost predicate NobodyRaises(fs: Functions, complete: seq<nat>, root: nat) {
    root !in complete && forall u :: u in complete ==> !Raises(fs, u, root)
  }

  ghost predicate RootedAt(path: seq<Frame>, root: nat) {
    path != [] && path[0] == Frame(root, 0)
  }

  lemma RaisingCallIsCaught(fs: Functions, path: seq<Frame>, complete: seq<nat>, root: nat, stratum: nat)
    requires RootedAt(path, root) && root in fs && root !in complete && stratum > 0
    ensures Visit(fs, path, complete, root, stratum).Rejected?
  {
    assert Position(path, root) == 0;
  }

  lemma {:induction false} CaughtAmongCalls(fs: Functions, path: seq<Frame>, complete: seq<nat>, ids: seq<nat>,
                                            root: nat, stratum: nat)
    requires RootedAt(path, root) && root in fs && NobodyRaises(fs, complete, root) && stratum > 0 && root in ids
    ensures VisitAll(fs, path, complete, ids, stratum).Rejected?
    decreases |Unvisited(fs, path)|, 2, |ids|
  {
    hide Visit, Position, Raises;
    VisitEach(fs, path, complete, ids, stratum);
    if ids[0] == root {
      RaisingCallIsCaught(fs, path, complete, root, stratum);
    } else {
      NobodyNewRaises(fs, path, complete, ids[0], root, stratum);
      var o := Visit(fs, path, complete, ids[0], stratum);
      if o.Accepted? {
        CaughtAmongCalls(fs, path, o.complete, ids[1..], root, stratum);
      }
    }
  }

  lemma OneMoreDoesNotRaise(fs: Functions, complete: seq<nat>, id: nat, root: nat)
    requires NobodyRaises(fs, complete, root) && id != root && !Raises(fs, id, root)
    ensures NobodyRaises(fs, complete + [id], root)
  {
    hide Raises;
  }

  /* A function whose calls were all accepted does not raise the root. */
  lemma {:induction false} AcceptedDoesNotRaise(fs: Functions, path: seq<Frame>, complete: seq<nat>,
                                                between: seq<nat>, id: nat, root: nat, stratum: nat)
    requires RootedAt(path, root) && root in fs && id in fs
    requires NobodyRaises(fs, complete, root) && NobodyRaises(fs, between, root)
    requires VisitAll(fs, path, complete, Negated(fs[id]), stratum + 1).Accepted?
    requires VisitAll(fs, path, between, Unnegated(fs[id]), stratum + Lift(fs[id])).Accepted?
    ensures !Raises(fs, id, root)
    decreases |Unvisited(fs, path)|, 3
  {
    hide Unvisited, VisitAll, NobodyRaises, Negated, Unnegated;
    if root in Negated(fs[id]) {
      CaughtAmongCalls(fs, path, complete, Negated(fs[id]), root, stratum + 1);
    } else if root in Unnegated(fs[id]) && Aggregates(fs[id]) {
      CaughtAmongCalls(fs, path, between, Unnegated(fs[id]), root, stratum + Lift(fs[id]));
    }
  }

  lemma {:induction false} NobodyNewRaises(fs: Functions, path: seq<Frame>, complete: seq<nat>, id: nat, root: nat,
                                           stratum: nat)
    requires RootedAt(path, root) && root in fs && NobodyRaises(fs, complete, root)
    ensures var o := Visit(fs, path, complete, id, stratum); o.Accepted? ==> NobodyRaises(fs, o.complete, root)
    decreases |Unvisited(fs, path)|, 1
  {
    if id !in complete && id in fs && Position(path, id) == |path| {
      VisitingShrinks(fs, path, Frame(id, stratum));
      var path' := path + [Frame(id, stratum)];
      assert RootedAt(path', root);
      assert id != root;
      hide Unvisited, Position, Negated, Unnegated, NobodyRaises, VisitAll;
      NobodyNewAmongCalls(fs, path', complete, Negated(fs[id]), root, stratum + 1);
      var o := VisitAll(fs, path', complete, Negated(fs[id]), stratum + 1);
      if o.Accepted? {
        NobodyNewAmongCalls(fs, path', o.complete, Unnegated(fs[id]), root, stratum + Lift(fs[id]));
        var p := VisitAll(fs, path', o.complete, Unnegated(fs[id]), stratum + Lift(fs[id]));
        if p.Accepted? {
          AcceptedDoesNotRaise(fs, path', complete, o.complete, id, root, stratum);
          OneMoreDoesNotRaise(fs, p.complete, id, root);
        }
      }
    }
  }

  lemma {:induction false} NobodyNewAmongCalls(fs: Functions, path: seq<Frame>, complete: seq<nat>, ids: seq<nat>,
                                               root: nat, stratum: nat)
    requires RootedAt(path, root) && root in fs && NobodyRaises(fs, complete, root)
    ensures var o := VisitAll(fs, path, complete, ids, stratum); o.Accepted? ==> NobodyRaises(fs, o.complete, root)
    decreases |Unvisited(fs, path)|, 2, |ids|
  {
    hide NobodyRaises, Visit, Unvisited;
    if ids != [] {
      VisitEach(fs, path, complete, ids, stratum);
      NobodyNewRaises(fs, path, complete, ids[0], root, stratum);
      var o := Visit(fs, path, complete, ids[0], stratum);
      if o.Accepted? {
        NobodyNewAmongCalls(fs, path, o.complete, ids[1..], root, stratum);
      }
    }
  }

  /* Whatever the completed functions call is complete too or still on the path. */
  ghost predicate ClosedUpTo(fs: Functions, complete: seq<nat>, path: seq<Frame>) {
    forall u, g :: u in complete && Calls(fs, u, g) && g in fs ==> g in complete || Position(path, g) < |path|
  }

  lemma {:induction false} PositionOfAppend(path: seq<Frame>, frame: Frame, g: nat)
    ensures Position(path + [frame], g) < |path| + 1 <==> Position(path, g) < |path| || g == frame.id
  {
    var path' := path + [frame];
    if path != [] && path[0].id != g {
      PositionOfAppend(path[1..], frame, g);
      assert path'[1..] == path[1..] + [frame];
    }
  }

  lemma CompletionCloses(fs: Functions, complete: seq<nat>, path: seq<Frame>, frame: Frame)
    requires ClosedUpTo(fs, complete, path + [frame])
    requires forall g :: Calls(fs, frame.id, g) && g in fs ==> g in complete || Position(path + [frame], g) < |path| + 1
    ensures ClosedUpTo(fs, complete + [frame.id], path)
  {
    hide Calls, Position;
    forall u, g | u in complete + [frame.id] && Calls(fs, u, g) && g in fs
      ensures g in complete + [frame.id] || Position(path, g) < |path|
    {
      PositionOfAppend(path, frame, g);
    }
  }

  lemma ClosedOnLongerPath(fs: Functions, complete: seq<nat>, path: seq<Frame>, frame: Frame)
    requires ClosedUpTo(fs, complete, path)
    ensures ClosedUpTo(fs, complete, path + [frame])
  {
    hide Calls, Position;
    forall u, g | u in complete && Calls(fs, u, g) && g in fs
      ensures g in complete || Position(path + [frame], g) < |path| + 1
    {
      PositionOfAppend(path, frame, g);
    }
  }

  lemma {:induction false} VisitCloses(fs: Functions, path: seq<Frame>, complete: seq<nat>, id: nat, stratum: nat)
    requires ClosedUpTo(fs, complete, path)
    ensures var o := Visit(fs, path, complete, id, stratum); o.Accepted? ==> ClosedUpTo(fs, o.complete, path)
    decreases |Unvisited(fs, path)|, 1
  {
    if id !in complete && id in fs && Position(path, id) == |path| {
      VisitingShrinks(fs, path, Frame(id, stratum));
      hide ClosedUpTo, Unvisited, Position, Negated, Unnegated;
      var path' := path + [Frame(id, stratum)];
      ClosedOnLongerPath(fs, complete, path, Frame(id, stratum));
      CallsClose(fs, path', complete, Negated(fs[id]), stratum + 1);
      CallsComplete(fs, path', complete, Negated(fs[id]), stratum + 1);
      var o := VisitAll(fs, path', complete, Negated(fs[id]), stratum + 1);
      if o.Accepted? {
        CallsClose(fs, path', o.complete, Unnegated(fs[id]), stratum + Lift(fs[id]));
        CallsComplete(fs, path', o.complete, Unnegated(fs[id]), stratum + Lift(fs[id]));
        var p := VisitAll(fs, path', o.complete, Unnegated(fs[id]), stratum + Lift(fs[id]));
        if p.Accepted? {
          CompletionCloses(fs, p.complete, path, Frame(id, stratum));
        }
      }
    }
  }

  lemma {:induction false} CallsClose(fs: Functions, path: seq<Frame>, complete: seq<nat>, ids: seq<nat>, stratum: nat)
    requires ClosedUpTo(fs, complete, path)
    ensures var o := VisitAll(fs, path, complete, ids, stratum); o.Accepted? ==> ClosedUpTo(fs, o.complete, path)
    decreases |Unvisited(fs, path)|, 2, |ids|
  {
    hide ClosedUpTo, Visit, Unvisited;
    if ids != [] {
      VisitEach(fs, path, complete, ids, stratum);
      VisitCloses(fs, path, complete, ids[0], stratum);
      var o := Visit(fs, path, complete, ids[0], stratum);
      if o.Accepted? {
        CallsClose(fs, path, o.complete, ids[1..], stratum);
      }
    }
  }

  lemma {:induction false} CompleteAhead(fs: Functions, complete: seq<nat>, ids: seq<nat>, i: nat, k: nat)
    requires Closed(fs) && Cycle(fs, ids) && ClosedUpTo(fs, complete, []) && i <= k < |ids| && ids[i] in complete
    ensures ids[k] in complete
    decreases k
  {
    if i < k {
      CompleteAhead(fs, complete, ids, i, k - 1);
      assert Calls(fs, ids[k - 1], ids[After(k - 1, |ids|)]);
    }
  }

  /* From one function of a cycle the whole cycle is complete. */
  lemma CycleIsComplete(fs: Functions, complete: seq<nat>, ids: seq<nat>, i: nat, k: nat)
    requires Closed(fs) && Cycle(fs, ids) && ClosedUpTo(fs, complete, []) && i < |ids| && k < |ids| &&
             ids[i] in complete
    ensures ids[k] in complete
  {
    var last := |ids| - 1;
    CompleteAhead(fs, complete, ids, i, last);
    assert Calls(fs, ids[last], ids[After(last, |ids|)]);
    CompleteAhead(fs, complete, ids, 0, k);
  }

  /* A search that begins with the target of a raising call on a cycle is rejected. */
  lemma RootFindsRaisingCycle(fs: Functions, ids: seq<nat>, k: nat)
    requires Closed(fs) && Cycle(fs, ids) && k < |ids| && Raises(fs, ids[k], ids[After(k, |ids|)])
    ensures Visit(fs, [], [], ids[After(k, |ids|)], 0).Rejected?
  {
    var i := After(k, |ids|);
    var root := ids[i];
    assert Calls(fs, root, ids[After(i, |ids|)]);
    assert root in fs;
    var o := Visit(fs, [], [], root, 0);
    if o.Accepted? {
      VisitCloses(fs, [], [], root, 0);
      VisitCompletes(fs, [], [], root, 0);
      RootIsNotRaised(fs, root);
      CycleIsComplete(fs, o.complete, ids, i, k);
    }
  }

  lemma RootIsNotRaised(fs: Functions, root: nat)
    requires root in fs && Visit(fs, [], [], root, 0).Accepted?
    ensures forall u :: u in Visit(fs, [], [], root, 0).complete ==> !Raises(fs, u, root)
  {
    VisitingShrinks(fs, [], Frame(root, 0));
    var path := [] + [Frame(root, 0)];
    assert path == [Frame(root, 0)];
    hide Unvisited, Position, Negated, Unnegated;
    NobodyNewAmongCalls(fs, path, [], Negated(fs[root]), root, 1);
    var o := VisitAll(fs, path, [], Negated(fs[root]), 1);
    NobodyNewAmongCalls(fs, path, o.complete, Unnegated(fs[root]), root, Lift(fs[root]));
    if root in Negated(fs[root]) {
      CaughtAmongCalls(fs, path, [], Negated(fs[root]), root, 1);
    } else if root in Unnegated(fs[root]) && Aggregates(fs[root]) {
      CaughtAmongCalls(fs, path, o.complete, Unnegated(fs[root]), root, Lift(fs[root]));
    }
  }

  /******* Over all orders the check is exact *******/

  lemma {:induction false} SomeOrder(s: set<nat>) returns (order: seq<nat>)
    ensures NoneTwice(order)
    ensures forall f :: f in order <==> f in s
  {
    order := [];
    if s != {} {
      var f :| f in s;
      order := SomeOrder(s - {f});
      order := [f] + order;
    }
  }

  /* The check accepts the functions in whatever order the map yields them if and only if they can be
     stratified. */
  lemma AcceptedInEveryOrderIffStratified(fs: Functions)
    requires Closed(fs)
    ensures (forall order :: KeyOrder(order, fs) ==> Validate(fs, order).Accepted?) <==>
            (exists strata :: StratifiedBy(fs, strata))
  {
    StrataExistIffNoRaisingCycle(fs);
    if strata :| StratifiedBy(fs, strata) {
      forall order | KeyOrder(order, fs) ensures Validate(fs, order).Accepted? {
        StratifiedIsAccepted(fs, strata, order);
      }
    } else {
      var ids :| RaisingCycle(fs, ids);
      var order := RejectingOrder(fs, ids);
      assert KeyOrder(order, fs) && !Validate(fs, order).Accepted?;
    }
  }

  /* For every raising cycle the map can yield its keys in an order in which the check rejects. */
  lemma RejectingOrder(fs: Functions, ids: seq<nat>) returns (order: seq<nat>)
    requires Closed(fs) && RaisingCycle(fs, ids)
    ensures KeyOrder(order, fs) && Validate(fs, order).Rejected?
  {
    var k: nat :| k < |ids| && Raises(fs, ids[k], ids[After(k, |ids|)]);
    RootFindsRaisingCycle(fs, ids, k);
    var root := ids[After(k, |ids|)];
    assert Calls(fs, ids[k], root);
    var rest := SomeOrder(fs.Keys - {root});
    order := [root] + rest;
    VisitEach(fs, [], [], order, 0);
  }
}
