/**
 The stratification search as it runs (function/function_manager.rs): a map of active functions and a set of
 completed ones, updated in place.
 */
module StratificationSearch {
  import opened FunctionCalls
  import opened Options
  import opened Stratification

  datatype Level = Level(stratum: nat, depth: nat)

  function NamesOf(fs: Functions, ids: seq<nat>): (names: seq<string>)
    ensures |names| == |ids|
  {
    seq(|ids|, i requires 0 <= i < |ids| => if ids[i] in fs then fs[ids[i]].name else "")
  }

  function Reported(fs: Functions, o: Outcome): Option<seq<string>> {
    if o.Rejected? then Some(NamesOf(fs, o.cycle)) else None
  }

  ghost predicate Matches(active: map<nat, Level>, path: seq<Frame>) {
    && active.Keys == IdSet(path)
    && forall i :: 0 <= i < |path| ==> path[i].id in active && active[path[i].id] == Level(path[i].stratum, i)
  }

  /* Frames of different depth belong to different functions. */
  lemma NotAmongEarlier(active: map<nat, Level>, path: seq<Frame>, n: nat)
    requires Matches(active, path) && n < |path|
    ensures path[n].id !in IdSet(path[..n])
  {
    forall k | 0 <= k < n ensures path[..n][k].id != path[n].id {
      assert path[k].id in active && active[path[k].id].depth == k;
    }
  }

  lemma {:induction false} AsManyAsFrames(active: map<nat, Level>, path: seq<Frame>, n: nat)
    requires Matches(active, path) && n <= |path|
    ensures |IdSet(path[..n])| == n
  {
    if n > 0 {
      AsManyAsFrames(active, path, n - 1);
      NotAmongEarlier(active, path, n - 1);
      hide Matches, IdSet;
      assert path[..n] == path[..n - 1] + [path[n - 1]];
      IdSetOfAppend(path[..n - 1], path[n - 1]);
    } else {
      assert IdSet(path[..0]) == {};
    }
  }

  lemma PositionIsDepth(active: map<nat, Level>, path: seq<Frame>, id: nat)
    requires Matches(active, path)
    ensures id in active <==> Position(path, id) < |path|
    ensures id in active ==> active[id] == Level(path[Position(path, id)].stratum, Position(path, id))
  {
    var i := Position(path, id);
    if i == |path| {
      NotOnPath(path, id);
    } else {
      assert path[i].id == id && path[i].id in active;
    }
  }

  lemma PushMatches(active: map<nat, Level>, path: seq<Frame>, frame: Frame)
    requires Matches(active, path) && frame.id !in active
    ensures Matches(active[frame.id := Level(frame.stratum, |path|)], path + [frame])
  {
    IdSetOfAppend(path, frame);
  }

  lemma PopMatches(active: map<nat, Level>, path: seq<Frame>, frame: Frame)
    requires Matches(active, path + [frame]) && frame.id !in IdSet(path)
    ensures Matches(active - {frame.id}, path)
  {
    IdSetOfAppend(path, frame);
    forall i | 0 <= i < |path| ensures path[i].id != frame.id && active[path[i].id] == Level(path[i].stratum, i) {
      assert path[i].id in IdSet(path);
      assert (path + [frame])[i] == path[i];
    }
  }

  method HasAggregation(f: Function) returns (r: bool)
    ensures r <==> Aggregates(f)
  {
    r := !f.operation.Stream?;
    for i := 0 to |f.stages|
      invariant r <==> !f.operation.Stream? || exists k :: 0 <= k < i && IsAggregate(f.stages[k])
    {
      r := r || IsAggregate(f.stages[i]);
    }
  }

  class CycleValidator {
    const functions: Functions
    var active: map<nat, Level>
    var complete: set<nat>
    ghost var order: seq<nat>

    ghost predicate Valid(path: seq<Frame>)
      reads this
    {
      Matches(active, path) && (forall f :: f in complete <==> f in order)
    }

    constructor (functions: Functions)
      ensures this.functions == functions && Valid([]) && order == []
    {
      this.functions := functions;
      active, complete, order := map[], {}, [];
    }

    /* The active functions in order of depth. */
    method IdsByDepth(ghost path: seq<Frame>) returns (ids: seq<nat>)
      requires Valid(path)
      ensures ids == Ids(path)
    {
      AsManyAsFrames(active, path, |path|);
      assert path[..|path|] == path;
      assert |active| == |active.Keys|;
      ids := [];
      for depth := 0 to |active|
        invariant |ids| == depth && forall i :: 0 <= i < depth ==> ids[i] == path[i].id
      {
        assert path[depth].id in active && active[path[depth].id].depth == depth;
        var id :| id in active && active[id].depth == depth;
        PositionIsDepth(active, path, id);
        ids := ids + [id];
      }
    }

    /* Visits one function; reports the names on the cycle if it finds one. */
    method ValidateNoCyclesImpl(id: nat, current: Level, ghost path: seq<Frame>) returns (r: Option<seq<string>>)
      requires Closed(functions) && id in functions && Valid(path) && current.depth == |path|
      modifies this
      ensures var o := Visit(functions, path, old(order), id, current.stratum);
              r == Reported(functions, o) && (o.Accepted? ==> Valid(path) && order == o.complete)
      decreases |Unvisited(functions, path)|, 1
    {
      hide Matches, Closed, Negated, Unnegated, VisitAll, Unvisited, IdSet, Position, Aggregates;
      PositionIsDepth(active, path, id);
      if id in complete {
        return None;
      }
      if id in active {
        var Level(stratum, depth) := active[id];
        if stratum < current.stratum {
          var ids := IdsByDepth(path);
          assert ids[depth..] == Ids(path[depth..]);
          return Some(NamesOf(functions, ids[depth..]));
        }
        return None;
      }
      ghost var path', order0 := path + [Frame(id, current.stratum)], order;
      VisitingShrinks(functions, path, Frame(id, current.stratum));
      PushMatches(active, path, Frame(id, current.stratum));
      NotOnPath(path, id);
      active := active[id := current];
      var f := functions[id];
      var negated := NegatedFunctionCalls(f);
      CalleesExist(id);
      r := VisitCalls(negated, Level(current.stratum + 1, current.depth + 1), path');
      if r.Some? {
        return;
      }
      var aggregates := HasAggregation(f);
      var unnegated := UnnegatedFunctionCalls(f);
      r := VisitCalls(unnegated, Level(current.stratum + (if aggregates then 1 else 0), current.depth + 1), path');
      if r.Some? {
        return;
      }
      PopMatches(active, path, Frame(id, current.stratum));
      active := active - {id};
      complete, order := complete + {id}, order + [id];
    }

    lemma CalleesExist(id: nat)
      requires Closed(functions) && id in functions
      ensures forall g :: g in Negated(functions[id]) ==> g in functions
      ensures forall g :: g in Unnegated(functions[id]) ==> g in functions
    {
      assert forall g :: g in Negated(functions[id]) || g in Unnegated(functions[id]) ==> Calls(functions, id, g);
    }

    method VisitCalls(ids: seq<nat>, level: Level, ghost path: seq<Frame>) returns (r: Option<seq<string>>)
      requires Closed(functions) && (forall g :: g in ids ==> g in functions) && Valid(path) && level.depth == |path|
      modifies this
      ensures var o := VisitAll(functions, path, old(order), ids, level.stratum);
              r == Reported(functions, o) && (o.Accepted? ==> Valid(path) && order == o.complete)
      decreases |Unvisited(functions, path)|, 2
    {
      for i := 0 to |ids|
        invariant Valid(path)
        invariant VisitAll(functions, path, old(order), ids, level.stratum) ==
                  VisitAll(functions, path, order, ids[i..], level.stratum)
      {
        VisitEach(functions, path, order, ids[i..], level.stratum);
        assert ids[i..][1..] == ids[i + 1..];
        r := ValidateNoCyclesImpl(ids[i], level, path);
        if r.Some? {
          return;
        }
      }
      r := None;
    }

    /* The whole check; `keys` is the order in which the functions are taken. */
    method ValidateNoCycles(keys: seq<nat>) returns (r: Option<seq<string>>)
      requires Closed(functions) && Enumerates(keys, functions) && Valid([]) && order == []
      modifies this
      ensures r == Reported(functions, Validate(functions, keys))
      ensures r.None? ==> complete == functions.Keys && active == map[]
    {
      AcceptedCompletesAll(functions, keys);
      r := VisitCalls(keys, Level(0, 0), []);
    }
  }
}
