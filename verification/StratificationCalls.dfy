/**
 The stratification check said on the text of the functions (function/function_manager.rs): which calls must not be on
 a cycle, and that recursion through such a call is always found.
 */
module StratificationCalls {
  import opened Options
  import opened FunctionCalls
  import opened CallSites
  import opened Stratification

  predicate HasAggregate(stages: seq<Stage>) {
    Sort in stages || Distinct in stages || Offset in stages || Limit in stages || Reduce in stages
  }

  /* A call that raises the stratum: one under a negation, or any call of a function that returns a single answer or
     has a stage that aggregates. */
  lemma RaisesIff(fs: Functions, f: nat, g: nat)
    ensures Raises(fs, f, g) <==>
            && f in fs
            && ((exists site :: CalledIn(fs[f].stages, site) == Some(Call(g, true)))
                || ((exists site :: CalledIn(fs[f].stages, site) == Some(Call(g, false)))
                    && (fs[f].operation != Stream || HasAggregate(fs[f].stages))))
  {
    hide CalledIn, Negated, Unnegated;
    if f in fs {
      CalledIffAtSomeSite(fs[f], g, true);
      CalledIffAtSomeSite(fs[f], g, false);
      AggregatesIff(fs[f]);
    }
  }

  lemma AggregatesIff(f: Function)
    ensures Aggregates(f) <==> f.operation != Stream || HasAggregate(f.stages)
  {
    if i :| 0 <= i < |f.stages| && IsAggregate(f.stages[i]) {
      assert f.stages[i] in f.stages;
    }
  }

  /******* A function that calls itself *******/

  ghost predicate OffPath(path: seq<Frame>, complete: seq<nat>) {
    forall i :: 0 <= i < |path| ==> path[i].id !in complete
  }

  ghost predicate SelfFree(fs: Functions, complete: seq<nat>) {
    forall u :: u in complete ==> !Raises(fs, u, u)
  }

  lemma {:induction false} VisitStaysSelfFree(fs: Functions, path: seq<Frame>, complete: seq<nat>, id: nat,
                                              stratum: nat)
    requires OffPath(path, complete) && SelfFree(fs, complete)
    ensures var o := Visit(fs, path, complete, id, stratum);
            o.Accepted? ==> OffPath(path, o.complete) && SelfFree(fs, o.complete)
    decreases |Unvisited(fs, path)|, 1
  {
    hide SelfFree, VisitAll, Negated, Unnegated, Lift, Raises;
    if id !in complete && id in fs && Position(path, id) == |path| {
      VisitingShrinks(fs, path, Frame(id, stratum));
      hide Unvisited;
      var path' := path + [Frame(id, stratum)];
      var o := VisitAll(fs, path', complete, Negated(fs[id]), stratum + 1);
      CallsStaySelfFree(fs, path', complete, Negated(fs[id]), stratum + 1);
      if o.Accepted? {
        var p := VisitAll(fs, path', o.complete, Unnegated(fs[id]), stratum + Lift(fs[id]));
        CallsStaySelfFree(fs, path', o.complete, Unnegated(fs[id]), stratum + Lift(fs[id]));
        if p.Accepted? {
          SelfCallIsCaught(fs, path', complete, o.complete, id, stratum);
          OneMoreSelfFree(fs, path', p.complete, id);
        }
      }
    }
  }

  lemma OneMoreSelfFree(fs: Functions, path: seq<Frame>, complete: seq<nat>, id: nat)
    requires path != [] && path[|path| - 1].id == id && Position(path[..|path| - 1], id) == |path| - 1
    requires OffPath(path, complete) && SelfFree(fs, complete) && !Raises(fs, id, id)
    ensures OffPath(path[..|path| - 1], complete + [id]) && SelfFree(fs, complete + [id])
  {
    hide Raises;
  }

  lemma {:induction false} CallsStaySelfFree(fs: Functions, path: seq<Frame>, complete: seq<nat>, ids: seq<nat>,
                                             stratum: nat)
    requires OffPath(path, complete) && SelfFree(fs, complete)
    ensures var o := VisitAll(fs, path, complete, ids, stratum);
            o.Accepted? ==> OffPath(path, o.complete) && SelfFree(fs, o.complete)
    decreases |Unvisited(fs, path)|, 2, |ids|
  {
    hide Visit, Unvisited, OffPath, SelfFree;
    if ids != [] {
      VisitEach(fs, path, complete, ids, stratum);
      VisitStaysSelfFree(fs, path, complete, ids[0], stratum);
      var o := Visit(fs, path, complete, ids[0], stratum);
      if o.Accepted? {
        CallsStaySelfFree(fs, path, o.complete, ids[1..], stratum);
      }
    }
  }

  /* Coming back to the last frame of the path at a higher stratum. */
  lemma {:induction false} ReturnIsCaught(fs: Functions, path: seq<Frame>, complete: seq<nat>, ids: seq<nat>, id: nat,
                                          stratum: nat)
    requires OffPath(path, complete) && SelfFree(fs, complete) && id in fs && id in ids
    requires path != [] && path[|path| - 1].id == id && path[|path| - 1].stratum < stratum
    requires Position(path, id) == |path| - 1
    ensures VisitAll(fs, path, complete, ids, stratum).Rejected?
    decreases |Unvisited(fs, path)|, 2, |ids|
  {
    hide Unvisited, SelfFree;
    VisitEach(fs, path, complete, ids, stratum);
    if ids[0] != id {
      hide Visit;
      VisitStaysSelfFree(fs, path, complete, ids[0], stratum);
      var o := Visit(fs, path, complete, ids[0], stratum);
      if o.Accepted? {
        ReturnIsCaught(fs, path, o.complete, ids[1..], id, stratum);
      }
    }
  }

  lemma {:induction false} SelfCallIsCaught(fs: Functions, path: seq<Frame>, complete: seq<nat>, between: seq<nat>,
                                            id: nat, stratum: nat)
    requires OffPath(path, complete) && SelfFree(fs, complete) && OffPath(path, between) && SelfFree(fs, between)
    requires id in fs && path != [] && path[|path| - 1] == Frame(id, stratum) && Position(path, id) == |path| - 1
    requires VisitAll(fs, path, complete, Negated(fs[id]), stratum + 1).Accepted?
    requires VisitAll(fs, path, between, Unnegated(fs[id]), stratum + Lift(fs[id])).Accepted?
    ensures !Raises(fs, id, id)
    decreases |Unvisited(fs, path)|, 3
  {
    hide Unvisited, VisitAll, OffPath, SelfFree, Negated, Unnegated;
    if id in Negated(fs[id]) {
      ReturnIsCaught(fs, path, complete, Negated(fs[id]), id, stratum + 1);
    } else if id in Unnegated(fs[id]) && Aggregates(fs[id]) {
      ReturnIsCaught(fs, path, between, Unnegated(fs[id]), id, stratum + Lift(fs[id]));
    }
  }

  /* Negated calls are followed before the others: a function whose first negated call is to itself is reported as a
     cycle of its own, whatever its other calls lead to. */
  lemma NegatedCallsComeFirst(fs: Functions, order: seq<nat>, f: nat)
    requires order != [] && order[0] == f && f in fs && Negated(fs[f]) != [] && Negated(fs[f])[0] == f
    ensures Validate(fs, order) == Rejected([f])
  {
    hide Negated, Unnegated, Lift;
    VisitingShrinks(fs, [], Frame(f, 0));
    var path := [] + [Frame(f, 0)];
    assert path == [Frame(f, 0)];
    VisitEach(fs, [], [], order, 0);
    VisitEach(fs, path, [], Negated(fs[f]), 1);
    assert Position(path, f) == 0;
    assert path[0..] == path && Ids(path) == [f];
  }

  /* A function that calls itself under a negation, or anywhere if it returns a single answer or aggregates, is
     rejected, whatever else there is and in whatever order the functions are taken. */
  lemma SelfRaisingIsAlwaysRejected(fs: Functions, order: seq<nat>, f: nat, site: Site)
    requires Enumerates(order, fs) && f in fs && CalledIn(fs[f].stages, site).Some?
    requires var call := CalledIn(fs[f].stages, site).value;
             call.callee == f && (call.negated || fs[f].operation != Stream || HasAggregate(fs[f].stages))
    ensures Validate(fs, order).Rejected?
  {
    RaisesIff(fs, f, f);
    assert CalledIn(fs[f].stages, site) == Some(Call(f, CalledIn(fs[f].stages, site).value.negated));
    CallsStaySelfFree(fs, [], [], order, 0);
    AcceptedCompletesAll(fs, order);
  }
}
