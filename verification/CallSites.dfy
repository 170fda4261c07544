/**
 Where in a function a call stands, and that the collectors (function/function_manager.rs:
 `collect_negated_function_calls`, `collect_unnegated_function_calls`) list every call once, in the order of the text.
 */
module CallSites {
  import opened Options
  import opened FunctionCalls

  /* A place in a conjunction: one of its own calls, or a place in a conjunction nested in it. The branch counts the
     alternatives of a disjunction; negations and optionals have the one branch 0. */
  datatype Place = Own(index: nat) | Under(pattern: nat, branch: nat, rest: Place)

  /* The call at a place, and whether the way there leads through a negation. */
  function CalledAt(c: Conjunction, place: Place, negated: bool): Option<Call>
    decreases place
  {
    match place
    case Own(j) => if j < |c.calls| then Some(Call(c.calls[j], negated)) else None
    case Under(i, k, rest) =>
      if i >= |c.nested| then None
      else
        match c.nested[i]
        case Negation(inner) => if k == 0 then CalledAt(inner, rest, true) else None
        case Disjunction(branches) => if k < |branches| then CalledAt(branches[k], rest, negated) else None
        case Optional(inner) => if k == 0 then CalledAt(inner, rest, negated) else None
  }

  /* The order of the text: own calls first, then nested patterns and their branches in turn. */
  predicate Before(a: Place, b: Place)
    decreases a
  {
    match a
    case Own(j) => b.Own? ==> j < b.index
    case Under(i, k, rest) =>
      b.Under? && (i < b.pattern || (i == b.pattern && (k < b.branch || (k == b.branch && Before(rest, b.rest)))))
  }

  /******* Listing the places of a conjunction *******/

  datatype Region =
    | Everywhere
    | OwnCalls
    | Patterns(n: nat)
    | Pattern(i: nat)
    | Branches(i: nat, n: nat)
    | Branch(i: nat, k: nat)

  predicate In(region: Region, place: Place) {
    match region
    case Everywhere => true
    case OwnCalls => place.Own?
    case Patterns(n) => place.Under? && place.pattern < n
    case Pattern(i) => place.Under? && place.pattern == i
    case Branches(i, n) => place.Under? && place.pattern == i && place.branch < n
    case Branch(i, k) => place.Under? && place.pattern == i && place.branch == k
  }

  ghost predicate Ascending(places: seq<Place>) {
    forall j, k :: 0 <= j < k < |places| ==> Before(places[j], places[k])
  }

  ghost predicate AllIn(places: seq<Place>, region: Region) {
    forall k :: 0 <= k < |places| ==> In(region, places[k])
  }

  ghost predicate Found(calls: seq<Call>, places: seq<Place>, c: Conjunction, negated: bool) {
    |calls| == |places| && forall k :: 0 <= k < |places| ==> CalledAt(c, places[k], negated) == Some(calls[k])
  }

  ghost predicate Complete(places: seq<Place>, c: Conjunction, negated: bool, region: Region) {
    forall place :: In(region, place) && CalledAt(c, place, negated).Some? ==> place in places
  }

  /* These are the calls of that region, each at its place, in the order of the text and none left out. */
  ghost predicate Lists(calls: seq<Call>, places: seq<Place>, c: Conjunction, negated: bool, region: Region) {
    && Found(calls, places, c, negated) && Ascending(places)
    && AllIn(places, region) && Complete(places, c, negated, region)
  }

  predicate Precedes(first: Region, second: Region) {
    || (first.OwnCalls? && second.Patterns?)
    || (first.Patterns? && second == Pattern(first.n))
    || (first.Branches? && second == Branch(first.i, first.n))
  }

  function Joint(first: Region, second: Region): Region
    requires Precedes(first, second)
  {
    match first
    case Patterns(n) => Patterns(n + 1)
    case Branches(i, n) => Branches(i, n + 1)
    case _ => Everywhere
  }

  lemma EarlierRegion(first: Region, second: Region, a: Place, b: Place)
    requires Precedes(first, second) && In(first, a) && In(second, b)
    ensures Before(a, b)
  {
  }

  lemma ListsConcat(first: Region, second: Region, calls1: seq<Call>, calls2: seq<Call>, places1: seq<Place>,
                    places2: seq<Place>, c: Conjunction, negated: bool)
    requires Precedes(first, second)
    requires second.Patterns? ==> |c.nested| <= second.n
    requires Lists(calls1, places1, c, negated, first) && Lists(calls2, places2, c, negated, second)
    ensures Lists(calls1 + calls2, places1 + places2, c, negated, Joint(first, second))
  {
    hide Before;
    var places := places1 + places2;
    forall j, k | 0 <= j < k < |places| ensures Before(places[j], places[k]) {
      if j < |places1| <= k {
        EarlierRegion(first, second, places[j], places[k]);
      }
    }
    forall place | In(Joint(first, second), place) && CalledAt(c, place, negated).Some? ensures place in places {
      assert In(first, place) || In(second, place);
    }
  }

  function Lifted(i: nat, k: nat, places: seq<Place>): (r: seq<Place>)
    ensures |r| == |places| && forall j :: 0 <= j < |r| ==> r[j] == Under(i, k, places[j])
  {
    seq(|places|, j requires 0 <= j < |places| => Under(i, k, places[j]))
  }

  /* A listing of a nested conjunction, seen from the outside. */
  lemma ListsLifted(calls: seq<Call>, places: seq<Place>, inner: Conjunction, sign: bool, c: Conjunction, negated: bool,
                    i: nat, k: nat)
    requires Lists(calls, places, inner, sign, Everywhere)
    requires forall rest :: CalledAt(c, Under(i, k, rest), negated) == CalledAt(inner, rest, sign)
    ensures Lists(calls, Lifted(i, k, places), c, negated, Branch(i, k))
  {
    hide CalledAt;
    var lifted := Lifted(i, k, places);
    forall j, l | 0 <= j < l < |lifted| ensures Before(lifted[j], lifted[l]) {
      assert Before(places[j], places[l]);
    }
    forall place | In(Branch(i, k), place) && CalledAt(c, place, negated).Some? ensures place in lifted {
      assert place == Under(i, k, place.rest);
      assert place.rest in places;
      var j :| 0 <= j < |places| && places[j] == place.rest;
      assert lifted[j] == place;
    }
  }

  /* Nothing stands in the rest of the pattern. */
  lemma ListsPattern(calls: seq<Call>, places: seq<Place>, c: Conjunction, negated: bool, i: nat, region: Region)
    requires i < |c.nested| && Lists(calls, places, c, negated, region)
    requires region == if c.nested[i].Disjunction? then Branches(i, |c.nested[i].branches|) else Branch(i, 0)
    ensures Lists(calls, places, c, negated, Pattern(i))
  {
    hide Before;
    forall place | In(Pattern(i), place) && CalledAt(c, place, negated).Some? ensures place in places {
      assert In(region, place);
    }
  }

  lemma ListsNothing(c: Conjunction, negated: bool, region: Region)
    requires region == Patterns(0) || (region.Branches? && region.n == 0)
    ensures Lists([], [], c, negated, region)
  {
  }

  lemma SignedAt(ids: seq<nat>, negated: bool)
    ensures |Signed(ids, negated)| == |ids|
    ensures forall j :: 0 <= j < |ids| ==> Signed(ids, negated)[j] == Call(ids[j], negated)
  {
    if ids != [] {
      SignedAt(ids[1..], negated);
    }
  }

  lemma ListsOwnCalls(c: Conjunction, negated: bool)
    ensures var places := seq(|c.calls|, j requires 0 <= j < |c.calls| => Own(j));
            Lists(Signed(c.calls, negated), places, c, negated, OwnCalls)
  {
    hide Signed;
    SignedAt(c.calls, negated);
    var places := seq(|c.calls|, j requires 0 <= j < |c.calls| => Own(j));
    forall place | In(OwnCalls, place) && CalledAt(c, place, negated).Some? ensures place in places {
      assert places[place.index] == place;
    }
  }

  /* The calls of a conjunction are listed completely, in order. */
  lemma {:induction false} ListsConjunction(c: Conjunction, negated: bool) returns (places: seq<Place>)
    ensures Lists(CallsOf(c, negated), places, c, negated, Everywhere)
    decreases c
  {
    hide Lists, Signed, CallsOfFirst;
    ListsOwnCalls(c, negated);
    var own := seq(|c.calls|, j requires 0 <= j < |c.calls| => Own(j));
    var nested := ListsFirst(c, |c.nested|, negated);
    ListsConcat(OwnCalls, Patterns(|c.nested|), Signed(c.calls, negated), CallsOfFirst(c, |c.nested|, negated), own,
                nested, c, negated);
    places := own + nested;
  }

  lemma {:induction false} ListsFirst(c: Conjunction, n: nat, negated: bool) returns (places: seq<Place>)
    requires n <= |c.nested|
    ensures Lists(CallsOfFirst(c, n, negated), places, c, negated, Patterns(n))
    decreases c, n
  {
    hide Lists, CallsOfPattern;
    if n == 0 {
      ListsNothing(c, negated, Patterns(0));
      places := [];
    } else {
      var before := ListsFirst(c, n - 1, negated);
      var here := ListsNested(c, n - 1, negated);
      ListsConcat(Patterns(n - 1), Pattern(n - 1), CallsOfFirst(c, n - 1, negated),
                  CallsOfPattern(c.nested[n - 1], negated), before, here, c, negated);
      places := before + here;
    }
  }

  lemma {:induction false} ListsNested(c: Conjunction, i: nat, negated: bool) returns (places: seq<Place>)
    requires i < |c.nested|
    ensures Lists(CallsOfPattern(c.nested[i], negated), places, c, negated, Pattern(i))
    decreases c, i
  {
    hide Lists, CallsOf;
    match c.nested[i]
    case Negation(inner) =>
      var within := ListsConjunction(inner, true);
      ListsLifted(CallsOf(inner, true), within, inner, true, c, negated, i, 0);
      places := Lifted(i, 0, within);
      ListsPattern(CallsOf(inner, true), places, c, negated, i, Branch(i, 0));
    case Disjunction(branches) =>
      places := ListsBranches(c, i, |branches|, negated);
      ListsPattern(CallsOfBranches(c.nested[i], |branches|, negated), places, c, negated, i, Branches(i, |branches|));
    case Optional(inner) =>
      var within := ListsConjunction(inner, negated);
      ListsLifted(CallsOf(inner, negated), within, inner, negated, c, negated, i, 0);
      places := Lifted(i, 0, within);
      ListsPattern(CallsOf(inner, negated), places, c, negated, i, Branch(i, 0));
  }

  lemma {:induction false} ListsBranches(c: Conjunction, i: nat, n: nat, negated: bool) returns (places: seq<Place>)
    requires i < |c.nested| && c.nested[i].Disjunction? && n <= |c.nested[i].branches|
    ensures Lists(CallsOfBranches(c.nested[i], n, negated), places, c, negated, Branches(i, n))
    decreases c.nested[i], n
  {
    hide Lists, CallsOf;
    if n == 0 {
      ListsNothing(c, negated, Branches(i, 0));
      places := [];
    } else {
      var branch := c.nested[i].branches[n - 1];
      var before := ListsBranches(c, i, n - 1, negated);
      var within := ListsConjunction(branch, negated);
      var calls := CallsOf(branch, negated);
      ListsLifted(calls, within, branch, negated, c, negated, i, n - 1);
      ListsConcat(Branches(i, n - 1), Branch(i, n - 1), CallsOfBranches(c.nested[i], n - 1, negated), calls, before,
                  Lifted(i, n - 1, within), c, negated);
      places := before + Lifted(i, n - 1, within);
    }
  }

  /******* The calls of a function *******/

  datatype Site = Site(stage: nat, place: Place)

  /* The call at a site. Only match stages have calls. */
  function CalledIn(stages: seq<Stage>, site: Site): Option<Call> {
    if site.stage < |stages| && stages[site.stage].Match?
    then CalledAt(stages[site.stage].conjunction, site.place, false)
    else None
  }

  predicate SiteBefore(a: Site, b: Site) {
    a.stage < b.stage || (a.stage == b.stage && Before(a.place, b.place))
  }

  ghost predicate SitesAscend(sites: seq<Site>) {
    forall j, k :: 0 <= j < k < |sites| ==> SiteBefore(sites[j], sites[k])
  }

  ghost predicate FoundIn(calls: seq<Call>, sites: seq<Site>, stages: seq<Stage>) {
    |calls| == |sites| && forall k :: 0 <= k < |sites| ==> CalledIn(stages, sites[k]) == Some(calls[k])
  }

  ghost predicate ListsSites(calls: seq<Call>, sites: seq<Site>, stages: seq<Stage>) {
    && FoundIn(calls, sites, stages) && SitesAscend(sites)
    && (forall site :: CalledIn(stages, site).Some? ==> site in sites)
  }

  function InStage(i: nat, places: seq<Place>): (r: seq<Site>)
    ensures |r| == |places| && forall k :: 0 <= k < |r| ==> r[k] == Site(i, places[k])
  {
    seq(|places|, k requires 0 <= k < |places| => Site(i, places[k]))
  }

  lemma ListsOneMoreStage(stages: seq<Stage>, calls: seq<Call>, sites: seq<Site>, here: seq<Call>, places: seq<Place>)
    requires stages != [] && ListsSites(calls, sites, stages[..|stages| - 1])
    requires var last := stages[|stages| - 1];
             if last.Match? then Lists(here, places, last.conjunction, false, Everywhere)
             else here == [] && places == []
    ensures ListsSites(calls + here, sites + InStage(|stages| - 1, places), stages)
  {
    hide CalledAt, Before;
    var n := |stages| - 1;
    var earlier, sites', calls' := stages[..n], sites + InStage(n, places), calls + here;
    forall k | 0 <= k < |sites| ensures sites[k].stage < n && CalledIn(stages, sites[k]) == Some(calls[k]) {
      assert CalledIn(earlier, sites[k]) == Some(calls[k]);
    }
    forall site | CalledIn(stages, site).Some? ensures site in sites' {
      if site.stage < n {
        assert CalledIn(earlier, site).Some?;
      } else {
        assert site.place in places;
        var k :| 0 <= k < |places| && places[k] == site.place;
        assert sites'[|sites| + k] == site;
      }
    }
    assert forall k :: 0 <= k < |places| ==> CalledIn(stages, InStage(n, places)[k]) == Some(here[k]);
  }

  lemma {:induction false} ListsStages(stages: seq<Stage>) returns (sites: seq<Site>)
    ensures ListsSites(CallsOfStages(stages), sites, stages)
  {
    sites := [];
    if stages != [] {
      hide ListsSites, CallsOf, Lists;
      var earlier, last := stages[..|stages| - 1], stages[|stages| - 1];
      sites := ListsStages(earlier);
      var places: seq<Place> := [];
      if last.Match? {
        places := ListsConjunction(last.conjunction, false);
      }
      ListsOneMoreStage(stages, CallsOfStages(earlier), sites,
                        if last.Match? then CallsOf(last.conjunction, false) else [], places);
      sites := sites + InStage(|stages| - 1, places);
    }
  }

  /* These are the callees of all calls of the given sign, each once, in the order of the text. */
  ghost predicate Collects(ids: seq<nat>, sites: seq<Site>, stages: seq<Stage>, negated: bool) {
    && |ids| == |sites| && SitesAscend(sites)
    && (forall k :: 0 <= k < |sites| ==> CalledIn(stages, sites[k]) == Some(Call(ids[k], negated)))
    && (forall site :: CalledIn(stages, site).Some? && CalledIn(stages, site).value.negated == negated ==>
          site in sites)
  }

  /* Choosing the sites of one sign out of any listing. */
  lemma {:induction false} ChosenSites(calls: seq<Call>, sites: seq<Site>, stages: seq<Stage>, negated: bool)
    returns (chosen: seq<Site>)
    requires FoundIn(calls, sites, stages) && SitesAscend(sites)
    ensures |chosen| == |WithSign(calls, negated)| && SitesAscend(chosen)
    ensures forall k :: 0 <= k < |chosen| ==>
              chosen[k] in sites && CalledIn(stages, chosen[k]) == Some(Call(WithSign(calls, negated)[k], negated))
    ensures forall k :: 0 <= k < |sites| && calls[k].negated == negated ==> sites[k] in chosen
    decreases |calls|
  {
    hide CalledIn, SiteBefore;
    chosen := [];
    if calls != [] {
      var rest := ChosenSites(calls[1..], sites[1..], stages, negated);
      chosen := if calls[0].negated == negated then [sites[0]] + rest else rest;
      forall k | 0 <= k < |sites| && calls[k].negated == negated ensures sites[k] in chosen {
        if k > 0 {
          assert sites[1..][k - 1] == sites[k] && calls[1..][k - 1] == calls[k];
          assert sites[k] in rest;
        }
      }
      forall j, k | 0 <= j < k < |chosen| ensures SiteBefore(chosen[j], chosen[k]) {
        if calls[0].negated == negated && j == 0 {
          assert chosen[k] == rest[k - 1];
        }
      }
    }
  }

  /* The calls collected for a function are exactly those of its match stages of that sign: each call once however
     often its callee is called, in the order of the text. */
  lemma CollectedExactly(f: Function, negated: bool) returns (sites: seq<Site>)
    ensures Collects(if negated then Negated(f) else Unnegated(f), sites, f.stages, negated)
  {
    hide CalledIn, SiteBefore, CallsOfStages, WithSign;
    var all := ListsStages(f.stages);
    var calls := CallsOfStages(f.stages);
    sites := ChosenSites(calls, all, f.stages, negated);
    forall site | CalledIn(f.stages, site).Some? && CalledIn(f.stages, site).value.negated == negated
      ensures site in sites
    {
      var k :| 0 <= k < |all| && all[k] == site;
      assert CalledIn(f.stages, all[k]) == Some(calls[k]);
    }
  }

  /* In particular: a function is called under a negation, or under none, exactly if some site says so. */
  lemma CalledIffAtSomeSite(f: Function, id: nat, negated: bool)
    ensures id in (if negated then Negated(f) else Unnegated(f)) <==>
            exists site :: CalledIn(f.stages, site) == Some(Call(id, negated))
  {
    hide CalledIn, Negated, Unnegated;
    var sites := CollectedExactly(f, negated);
    var ids := if negated then Negated(f) else Unnegated(f);
    if id in ids {
      var k :| 0 <= k < |ids| && ids[k] == id;
      assert CalledIn(f.stages, sites[k]) == Some(Call(id, negated));
    }
    if site :| CalledIn(f.stages, site) == Some(Call(id, negated)) {
      var k :| 0 <= k < |sites| && sites[k] == site;
      assert ids[k] == id;
    }
  }
}
