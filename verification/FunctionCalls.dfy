/**
 Which functions a function calls (function/function_manager.rs: `negated_function_calls`,
 `unnegated_function_calls`): the calls under some negation of its patterns, and the others.
 */
module FunctionCalls {

  datatype Conjunction = Conjunction(calls: seq<nat>, nested: seq<Pattern>)

  datatype Pattern =
    | Negation(conjunction: Conjunction)
    | Disjunction(branches: seq<Conjunction>)
    | Optional(conjunction: Conjunction)

  datatype Stage = Match(conjunction: Conjunction) | Sort | Distinct | Offset | Limit | Reduce | Other

  datatype Return = Stream | Single | ReduceCheck | ReduceReducer

  datatype Function = Function(name: string, stages: seq<Stage>, operation: Return)

  /* A stage that needs all its input. */
  predicate IsAggregate(stage: Stage) {
    stage.Sort? || stage.Distinct? || stage.Offset? || stage.Limit? || stage.Reduce?
  }

  /******* Every call, with its sign *******/

  datatype Call = Call(callee: nat, negated: bool)

  function Signed(ids: seq<nat>, negated: bool): seq<Call> {
    if ids == [] then [] else [Call(ids[0], negated)] + Signed(ids[1..], negated)
  }

  /* The calls of a conjunction in order; a call is negated if some negation encloses it. */
  function CallsOf(c: Conjunction, negated: bool): seq<Call>
    decreases c
  {
    Signed(c.calls, negated) + CallsOfFirst(c, |c.nested|, negated)
  }

  /* The calls of the first n nested patterns. */
  function CallsOfFirst(c: Conjunction, n: nat, negated: bool): seq<Call>
    requires n <= |c.nested|
    decreases c, n
  {
    if n == 0 then [] else CallsOfFirst(c, n - 1, negated) + CallsOfPattern(c.nested[n - 1], negated)
  }

  function CallsOfPattern(p: Pattern, negated: bool): seq<Call>
    decreases p
  {
    match p
    case Negation(inner) => CallsOf(inner, true)
    case Disjunction(branches) => CallsOfBranches(p, |branches|, negated)
    case Optional(inner) => CallsOf(inner, negated)
  }

  function CallsOfBranches(p: Pattern, n: nat, negated: bool): seq<Call>
    requires p.Disjunction? && n <= |p.branches|
    decreases p, n
  {
    if n == 0 then [] else CallsOfBranches(p, n - 1, negated) + CallsOf(p.branches[n - 1], negated)
  }

  function WithSign(calls: seq<Call>, negated: bool): seq<nat> {
    if calls == [] then []
    else (if calls[0].negated == negated then [calls[0].callee] else []) + WithSign(calls[1..], negated)
  }

  function Chosen(c: Call, negated: bool): seq<nat> {
    if c.negated == negated then [c.callee] else []
  }

  lemma WithSignOfFirst(c: Call, rest: seq<Call>, negated: bool)
    ensures WithSign([c] + rest, negated) == Chosen(c, negated) + WithSign(rest, negated)
  {
    assert ([c] + rest)[1..] == rest;
  }

  lemma {:induction false} WithSignOfConcat(a: seq<Call>, b: seq<Call>, negated: bool)
    ensures WithSign(a + b, negated) == WithSign(a, negated) + WithSign(b, negated)
  {
    hide WithSign, Chosen;
    if a == [] {
      assert a + b == b;
      WithSignOfNothing(negated);
    } else {
      var first, rest := a[0], a[1..];
      WithSignOfConcat(rest, b, negated);
      assert a == [first] + rest && a + b == [first] + (rest + b);
      WithSignOfFirst(first, rest, negated);
      WithSignOfFirst(first, rest + b, negated);
    }
  }

  lemma {:induction false} WithSignOfSigned(ids: seq<nat>, sign: bool, negated: bool)
    ensures WithSign(Signed(ids, sign), negated) == if sign == negated then ids else []
  {
    if ids != [] {
      WithSignOfSigned(ids[1..], sign, negated);
      assert Signed(ids, sign)[1..] == Signed(ids[1..], sign);
    }
  }

  /******* The collectors *******/

  method CollectNegatedFunctionCalls(c: Conjunction, isNegated: bool, calls: seq<nat>) returns (r: seq<nat>)
    ensures r == calls + WithSign(CallsOf(c, isNegated), true)
    decreases c
  {
    hide WithSign, Signed, CallsOfPattern;
    WithSignOfConcat(Signed(c.calls, isNegated), CallsOfFirst(c, |c.nested|, isNegated), true);
    WithSignOfSigned(c.calls, isNegated, true);
    r := if isNegated then calls + c.calls else calls;
    ghost var own := r;
    WithSignOfNothing(true);
    for i := 0 to |c.nested|
      invariant r == own + WithSign(CallsOfFirst(c, i, isNegated), true)
    {
      WithSignOfConcat(CallsOfFirst(c, i, isNegated), CallsOfPattern(c.nested[i], isNegated), true);
      r := CollectNegatedOfPattern(c.nested[i], isNegated, r);
    }
  }

  method CollectNegatedOfPattern(p: Pattern, isNegated: bool, calls: seq<nat>) returns (r: seq<nat>)
    ensures r == calls + WithSign(CallsOfPattern(p, isNegated), true)
    decreases p
  {
    hide WithSign, CallsOf;
    match p {
      case Negation(inner) =>
        r := CollectNegatedFunctionCalls(inner, true, calls);
      case Disjunction(branches) =>
        r := calls;
        WithSignOfNothing(true);
        for k := 0 to |branches|
          invariant r == calls + WithSign(CallsOfBranches(p, k, isNegated), true)
        {
          WithSignOfConcat(CallsOfBranches(p, k, isNegated), CallsOf(branches[k], isNegated), true);
          r := CollectNegatedFunctionCalls(branches[k], isNegated, r);
        }
      case Optional(inner) =>
        r := CollectNegatedFunctionCalls(inner, isNegated, calls);
    }
  }

  method CollectUnnegatedFunctionCalls(c: Conjunction, calls: seq<nat>) returns (r: seq<nat>)
    ensures r == calls + WithSign(CallsOf(c, false), false)
    decreases c
  {
    hide WithSign, Signed, CallsOfPattern;
    WithSignOfConcat(Signed(c.calls, false), CallsOfFirst(c, |c.nested|, false), false);
    WithSignOfSigned(c.calls, false, false);
    r := calls + c.calls;
    ghost var own := r;
    WithSignOfNothing(false);
    for i := 0 to |c.nested|
      invariant r == own + WithSign(CallsOfFirst(c, i, false), false)
    {
      WithSignOfConcat(CallsOfFirst(c, i, false), CallsOfPattern(c.nested[i], false), false);
      r := CollectUnnegatedOfPattern(c.nested[i], r);
    }
  }

  method CollectUnnegatedOfPattern(p: Pattern, calls: seq<nat>) returns (r: seq<nat>)
    ensures r == calls + WithSign(CallsOfPattern(p, false), false)
    decreases p
  {
    hide WithSign, CallsOf;
    r := calls;
    match p {
      case Negation(inner) =>
        NothingUnnegatedUnderNegation(inner);
      case Disjunction(branches) =>
        WithSignOfNothing(false);
        for k := 0 to |branches|
          invariant r == calls + WithSign(CallsOfBranches(p, k, false), false)
        {
          WithSignOfConcat(CallsOfBranches(p, k, false), CallsOf(branches[k], false), false);
          r := CollectUnnegatedFunctionCalls(branches[k], r);
        }
      case Optional(inner) =>
        r := CollectUnnegatedFunctionCalls(inner, calls);
    }
  }

  lemma WithSignOfNothing(negated: bool)
    ensures WithSign([], negated) == []
  {
  }

  /* Under a negation every call is negated. */
  lemma {:induction false} NothingUnnegatedUnderNegation(c: Conjunction)
    ensures WithSign(CallsOf(c, true), false) == []
    decreases c
  {
    WithSignOfConcat(Signed(c.calls, true), CallsOfFirst(c, |c.nested|, true), false);
    WithSignOfSigned(c.calls, true, false);
    NothingUnnegatedInFirst(c, |c.nested|);
  }

  lemma {:induction false} NothingUnnegatedInFirst(c: Conjunction, n: nat)
    requires n <= |c.nested|
    ensures WithSign(CallsOfFirst(c, n, true), false) == []
    decreases c, n
  {
    if n > 0 {
      NothingUnnegatedInFirst(c, n - 1);
      WithSignOfConcat(CallsOfFirst(c, n - 1, true), CallsOfPattern(c.nested[n - 1], true), false);
      match c.nested[n - 1]
      case Negation(inner) => NothingUnnegatedUnderNegation(inner);
      case Disjunction(branches) => NothingUnnegatedInBranches(c.nested[n - 1], |branches|);
      case Optional(inner) => NothingUnnegatedUnderNegation(inner);
    }
  }

  lemma {:induction false} NothingUnnegatedInBranches(p: Pattern, n: nat)
    requires p.Disjunction? && n <= |p.branches|
    ensures WithSign(CallsOfBranches(p, n, true), false) == []
    decreases p, n
  {
    if n > 0 {
      NothingUnnegatedInBranches(p, n - 1);
      WithSignOfConcat(CallsOfBranches(p, n - 1, true), CallsOf(p.branches[n - 1], true), false);
      NothingUnnegatedUnderNegation(p.branches[n - 1]);
    }
  }

  /******* Functions *******/

  function CallsOfStages(stages: seq<Stage>): seq<Call> {
    if stages == [] then []
    else
      CallsOfStages(stages[..|stages| - 1]) +
      (if stages[|stages| - 1].Match? then CallsOf(stages[|stages| - 1].conjunction, false) else [])
  }

  lemma CallsOfNextStage(stages: seq<Stage>, i: nat)
    requires i < |stages|
    ensures CallsOfStages(stages[..i + 1]) ==
            if stages[i].Match? then CallsOfStages(stages[..i]) + CallsOf(stages[i].conjunction, false)
            else CallsOfStages(stages[..i])
  {
    assert stages[..i + 1][..i] == stages[..i];
  }

  function Negated(f: Function): seq<nat> {
    WithSign(CallsOfStages(f.stages), true)
  }

  function Unnegated(f: Function): seq<nat> {
    WithSign(CallsOfStages(f.stages), false)
  }

  /* Whether the function's own result needs all results of what it calls. */
  predicate Aggregates(f: Function) {
    !f.operation.Stream? || exists i :: 0 <= i < |f.stages| && IsAggregate(f.stages[i])
  }

  method NegatedFunctionCalls(f: Function) returns (calls: seq<nat>)
    ensures calls == Negated(f)
  {
    hide WithSign, CallsOf;
    WithSignOfNothing(true);
    calls := [];
    for i := 0 to |f.stages|
      invariant calls == WithSign(CallsOfStages(f.stages[..i]), true)
    {
      CallsOfNextStage(f.stages, i);
      if f.stages[i].Match? {
        WithSignOfConcat(CallsOfStages(f.stages[..i]), CallsOf(f.stages[i].conjunction, false), true);
        calls := CollectNegatedFunctionCalls(f.stages[i].conjunction, false, calls);
      }
    }
    assert f.stages[..|f.stages|] == f.stages;
  }

  method UnnegatedFunctionCalls(f: Function) returns (calls: seq<nat>)
    ensures calls == Unnegated(f)
  {
    hide WithSign, CallsOf;
    WithSignOfNothing(false);
    calls := [];
    for i := 0 to |f.stages|
      invariant calls == WithSign(CallsOfStages(f.stages[..i]), false)
    {
      CallsOfNextStage(f.stages, i);
      if f.stages[i].Match? {
        WithSignOfConcat(CallsOfStages(f.stages[..i]), CallsOf(f.stages[i].conjunction, false), false);
        calls := CollectUnnegatedFunctionCalls(f.stages[i].conjunction, calls);
      }
    }
    assert f.stages[..|f.stages|] == f.stages;
  }
}
