/**
 Flattening the pattern trees of a query into one arena of conjunctions (compiler/query_structure.rs,
 `ParametrisedQueryStructureBuilder`), and reading the trees back from it.
 */
module QueryStructure {
  import opened Options

  const U16_VALUES: nat := 0x1_0000

  /******* Pattern trees *******/

  /* Constraints are opaque here. Branches of disjunctions and optional patterns come with a branch id. */
  datatype Conjunction<T> = Conjunction(constraints: T, nested: Patterns<T>)

  datatype Patterns<T> =
    | Done
    | Or(branches: Branches<T>, rest: Patterns<T>)
    | Not(inner: Conjunction<T>, rest: Patterns<T>)
    | Try(id: nat, inner: Conjunction<T>, rest: Patterns<T>)

  datatype Branches<T> = NoBranch | Branch(id: nat, inner: Conjunction<T>, rest: Branches<T>)

  /******* The arena *******/

  datatype Reference = OrRef(branches: seq<nat>) | NotRef(id: nat) | TryRef(id: nat)

  datatype Entry<T> = Entry(constraints: T, nested: seq<Reference>)

  type Arena<T> = seq<Entry<T>>

  datatype Added<T, +R> = Added(arena: Arena<T>, result: R)

  /* The length of the arena as a u16, less one, in wrapping arithmetic. */
  function LastId(len: nat): nat {
    (len % U16_VALUES + U16_VALUES - 1) % U16_VALUES
  }

  /* The last index and the id given to it agree if and only if the arena's indices fit a u16. */
  lemma LastIdIsIndex(len: nat)
    requires len > 0
    ensures LastId(len) == len - 1 <==> len <= 65536
  {
  }

  /* A conjunction with a branch id goes to its reserved place, any other is appended. */
  function Place<T>(arena: Arena<T>, own: Option<nat>, entry: Entry<T>): Added<T, nat> {
    match own
    case Some(id) => Added(if id < |arena| then arena[id := entry] else arena, id)
    case None => Added(arena + [entry], LastId(|arena| + 1))
  }

  function Add<T>(arena: Arena<T>, own: Option<nat>, c: Conjunction<T>): (r: Added<T, nat>)
    ensures |arena| <= |r.arena|
    decreases c
  {
    var nested := AddPatterns(arena, c.nested);
    Place(nested.arena, own, Entry(c.constraints, nested.result))
  }

  /* The nested patterns come first: a conjunction without a branch id is the last entry added. */
  lemma RootComesLast<T>(arena: Arena<T>, c: Conjunction<T>)
    requires |Add(arena, None, c).arena| <= 65536
    ensures var r := Add(arena, None, c);
            r.result + 1 == |r.arena| > |arena| && r.arena[r.result].constraints == c.constraints
  {
    LastIdIsIndex(|Add(arena, None, c).arena|);
  }

  function AddPatterns<T>(arena: Arena<T>, ps: Patterns<T>): (r: Added<T, seq<Reference>>)
    ensures |arena| <= |r.arena|
    decreases ps
  {
    match ps
    case Done => Added(arena, [])
    case Or(branches, rest) =>
      var here := AddBranches(arena, branches);
      var later := AddPatterns(here.arena, rest);
      Added(later.arena, [OrRef(here.result)] + later.result)
    case Not(inner, rest) =>
      var here := Add(arena, None, inner);
      var later := AddPatterns(here.arena, rest);
      Added(later.arena, [NotRef(here.result)] + later.result)
    case Try(id, inner, rest) =>
      var here := Add(arena, Some(id), inner);
      var later := AddPatterns(here.arena, rest);
      Added(later.arena, [TryRef(here.result)] + later.result)
  }

  function AddBranches<T>(arena: Arena<T>, bs: Branches<T>): (r: Added<T, seq<nat>>)
    ensures |arena| <= |r.arena|
    decreases bs
  {
    match bs
    case NoBranch => Added(arena, [])
    case Branch(id, inner, rest) =>
      var here := Add(arena, Some(id), inner);
      var later := AddBranches(here.arena, rest);
      Added(later.arena, [here.result] + later.result)
  }

  /******* Reading back *******/

  /* Following the ids from `id` on, the arena spells out exactly the tree c, branch ids included. */
  predicate Spells<T(==)>(arena: Arena<T>, id: nat, c: Conjunction<T>)
    decreases c
  {
    && id < |arena| && arena[id].constraints == c.constraints
    && SpellsPatterns(arena, arena[id].nested, c.nested)
  }

  predicate SpellsPatterns<T(==)>(arena: Arena<T>, refs: seq<Reference>, ps: Patterns<T>)
    decreases ps
  {
    match ps
    case Done => refs == []
    case Or(branches, rest) =>
      && refs != [] && refs[0].OrRef? && SpellsBranches(arena, refs[0].branches, branches)
      && SpellsPatterns(arena, refs[1..], rest)
    case Not(inner, rest) =>
      refs != [] && refs[0].NotRef? && Spells(arena, refs[0].id, inner) && SpellsPatterns(arena, refs[1..], rest)
    case Try(id, inner, rest) =>
      refs != [] && refs[0] == TryRef(id) && Spells(arena, id, inner) && SpellsPatterns(arena, refs[1..], rest)
  }

  predicate SpellsBranches<T(==)>(arena: Arena<T>, ids: seq<nat>, bs: Branches<T>)
    decreases bs
  {
    match bs
    case NoBranch => ids == []
    case Branch(id, inner, rest) =>
      ids != [] && ids[0] == id && Spells(arena, id, inner) && SpellsBranches(arena, ids[1..], rest)
  }

  /* Reading back has one answer. */
  lemma {:induction false} SpellingIsUnique<T>(arena: Arena<T>, id: nat, c: Conjunction<T>, d: Conjunction<T>)
    requires Spells(arena, id, c) && Spells(arena, id, d)
    ensures c == d
    decreases c
  {
    PatternsAreUnique(arena, arena[id].nested, c.nested, d.nested);
  }

  lemma {:induction false} PatternsAreUnique<T>(arena: Arena<T>, refs: seq<Reference>, ps: Patterns<T>, qs: Patterns<T>)
    requires SpellsPatterns(arena, refs, ps) && SpellsPatterns(arena, refs, qs)
    ensures ps == qs
    decreases ps
  {
    match ps
    case Done =>
    case Or(branches, rest) =>
      BranchesAreUnique(arena, refs[0].branches, branches, qs.branches);
      PatternsAreUnique(arena, refs[1..], rest, qs.rest);
    case Not(inner, rest) =>
      SpellingIsUnique(arena, refs[0].id, inner, qs.inner);
      PatternsAreUnique(arena, refs[1..], rest, qs.rest);
    case Try(id, inner, rest) =>
      SpellingIsUnique(arena, id, inner, qs.inner);
      PatternsAreUnique(arena, refs[1..], rest, qs.rest);
  }

  lemma {:induction false} BranchesAreUnique<T>(arena: Arena<T>, ids: seq<nat>, bs: Branches<T>, cs: Branches<T>)
    requires SpellsBranches(arena, ids, bs) && SpellsBranches(arena, ids, cs)
    ensures bs == cs
    decreases bs
  {
    match bs
    case NoBranch =>
    case Branch(id, inner, rest) =>
      SpellingIsUnique(arena, id, inner, cs.inner);
      BranchesAreUnique(arena, ids[1..], rest, cs.rest);
  }

  /******* Which ids a tree occupies *******/

  /* The ids met when reading the tree, each as often as it is met. */
  function Met<T(==)>(arena: Arena<T>, id: nat, c: Conjunction<T>): multiset<nat>
    requires Spells(arena, id, c)
    decreases c
  {
    MetInPatterns(arena, arena[id].nested, c.nested) + multiset{id}
  }

  function MetInPatterns<T(==)>(arena: Arena<T>, refs: seq<Reference>, ps: Patterns<T>): multiset<nat>
    requires SpellsPatterns(arena, refs, ps)
    decreases ps
  {
    match ps
    case Done => multiset{}
    case Or(branches, rest) => MetInBranches(arena, refs[0].branches, branches) + MetInPatterns(arena, refs[1..], rest)
    case Not(inner, rest) => Met(arena, refs[0].id, inner) + MetInPatterns(arena, refs[1..], rest)
    case Try(id, inner, rest) => Met(arena, id, inner) + MetInPatterns(arena, refs[1..], rest)
  }

  function MetInBranches<T(==)>(arena: Arena<T>, ids: seq<nat>, bs: Branches<T>): multiset<nat>
    requires SpellsBranches(arena, ids, bs)
    decreases bs
  {
    match bs
    case NoBranch => multiset{}
    case Branch(id, inner, rest) => Met(arena, id, inner) + MetInBranches(arena, ids[1..], rest)
  }

  /* The branch ids in a tree, each as often as it occurs. */
  function BranchIds<T>(c: Conjunction<T>): multiset<nat>
    decreases c
  {
    BranchIdsOfPatterns(c.nested)
  }

  function BranchIdsOfPatterns<T>(ps: Patterns<T>): multiset<nat>
    decreases ps
  {
    match ps
    case Done => multiset{}
    case Or(branches, rest) => BranchIdsOfBranches(branches) + BranchIdsOfPatterns(rest)
    case Not(inner, rest) => BranchIds(inner) + BranchIdsOfPatterns(rest)
    case Try(id, inner, rest) => BranchIds(inner) + multiset{id} + BranchIdsOfPatterns(rest)
  }

  function BranchIdsOfBranches<T>(bs: Branches<T>): multiset<nat>
    decreases bs
  {
    match bs
    case NoBranch => multiset{}
    case Branch(id, inner, rest) => BranchIds(inner) + multiset{id} + BranchIdsOfBranches(rest)
  }

  /* The ids n, n + 1, ... below m. */
  function Range(n: nat, m: nat): (ids: multiset<nat>)
    ensures forall id :: ids[id] == if n <= id < m then 1 else 0
  {
    if m <= n then multiset{} else Range(n, m - 1) + multiset{m - 1}
  }

  function OwnId(own: Option<nat>): multiset<nat> {
    if own.Some? then multiset{own.value} else multiset{}
  }

  /* Nothing but the listed ids, all within the reserved part, and newly appended ids has changed. */
  ghost predicate Kept<T(!new)>(before: Arena<T>, after: Arena<T>, ids: multiset<nat>) {
    && |before| <= |after|
    && forall j :: 0 <= j < |before| && j !in ids ==> after[j] == before[j]
  }

  ghost predicate Once(ids: multiset<nat>) {
    forall id :: ids[id] <= 1
  }

  ghost predicate Below(ids: multiset<nat>, n: nat) {
    forall id :: id in ids ==> id < n
  }

  /******* The arena spells the tree that was added *******/

  ghost predicate Agree<T(!new)>(a: Arena<T>, a': Arena<T>, ids: multiset<nat>) {
    |a| <= |a'| && forall j :: j in ids ==> j < |a| && a'[j] == a[j]
  }

  /* A tree is still spelled when the ids met in it are untouched. */
  lemma {:induction false} SpellingStays<T(!new)>(a: Arena<T>, a': Arena<T>, id: nat, c: Conjunction<T>)
    requires Spells(a, id, c) && Agree(a, a', Met(a, id, c))
    ensures Spells(a', id, c) && Met(a', id, c) == Met(a, id, c)
    decreases c
  {
    PatternsStay(a, a', a[id].nested, c.nested);
  }

  lemma AgreeInParts<T(!new)>(a: Arena<T>, a': Arena<T>, m: multiset<nat>, n: multiset<nat>)
    requires Agree(a, a', m + n)
    ensures Agree(a, a', m) && Agree(a, a', n)
  {
    forall j | j in m || j in n ensures j < |a| && a'[j] == a[j] {
      assert j in m + n;
    }
  }

  lemma {:induction false} PatternsStay<T(!new)>(a: Arena<T>, a': Arena<T>, refs: seq<Reference>, ps: Patterns<T>)
    requires SpellsPatterns(a, refs, ps) && Agree(a, a', MetInPatterns(a, refs, ps))
    ensures SpellsPatterns(a', refs, ps) && MetInPatterns(a', refs, ps) == MetInPatterns(a, refs, ps)
    decreases ps
  {
    hide Agree, Spells, Met, SpellsBranches, MetInBranches;
    match ps
    case Done =>
    case Or(branches, rest) =>
      AgreeInParts(a, a', MetInBranches(a, refs[0].branches, branches), MetInPatterns(a, refs[1..], rest));
      BranchesStay(a, a', refs[0].branches, branches);
      PatternsStay(a, a', refs[1..], rest);
    case Not(inner, rest) =>
      AgreeInParts(a, a', Met(a, refs[0].id, inner), MetInPatterns(a, refs[1..], rest));
      SpellingStays(a, a', refs[0].id, inner);
      PatternsStay(a, a', refs[1..], rest);
    case Try(id, inner, rest) =>
      AgreeInParts(a, a', Met(a, id, inner), MetInPatterns(a, refs[1..], rest));
      SpellingStays(a, a', id, inner);
      PatternsStay(a, a', refs[1..], rest);
  }

  lemma {:induction false} BranchesStay<T(!new)>(a: Arena<T>, a': Arena<T>, ids: seq<nat>, bs: Branches<T>)
    requires SpellsBranches(a, ids, bs) && Agree(a, a', MetInBranches(a, ids, bs))
    ensures SpellsBranches(a', ids, bs) && MetInBranches(a', ids, bs) == MetInBranches(a, ids, bs)
    decreases bs
  {
    hide Agree, Spells, Met;
    match bs
    case NoBranch =>
    case Branch(id, inner, rest) =>
      AgreeInParts(a, a', Met(a, id, inner), MetInBranches(a, ids[1..], rest));
      SpellingStays(a, a', id, inner);
      BranchesStay(a, a', ids[1..], rest);
  }

  /* The ids may be reserved for what is added: all different, and within the arena. */
  ghost predicate Reserved<T>(arena: Arena<T>, ids: multiset<nat>) {
    Once(ids) && Below(ids, |arena|)
  }

  /* What adding something with the given branch ids leads to. */
  ghost predicate AddsOnly<T(!new)>(before: Arena<T>, after: Arena<T>, ids: multiset<nat>, met: multiset<nat>) {
    Kept(before, after, ids) && met == ids + Range(|before|, |after|)
  }

  lemma ReservedPart<T>(arena: Arena<T>, arena': Arena<T>, a: multiset<nat>, b: multiset<nat>)
    requires Reserved(arena, a + b) && |arena| <= |arena'|
    ensures Reserved(arena, a) && Reserved(arena', b)
  {
    forall id ensures a[id] <= 1 && b[id] <= 1 {
      assert (a + b)[id] == a[id] + b[id];
    }
    forall id | id in a || id in b ensures id < |arena| {
      assert id in a + b;
    }
  }

  /* Two additions one after the other: the first is not disturbed, and together they add what each adds. */
  lemma AddedInTurn<T(!new)>(a0: Arena<T>, a1: Arena<T>, a2: Arena<T>,
                             ids1: multiset<nat>, met1: multiset<nat>, ids2: multiset<nat>, met2: multiset<nat>)
    requires Reserved(a0, ids1 + ids2) && AddsOnly(a0, a1, ids1, met1) && AddsOnly(a1, a2, ids2, met2)
    ensures Agree(a1, a2, met1) && AddsOnly(a0, a2, ids1 + ids2, met1 + met2)
  {
    FirstIsUndisturbed(a0, a1, a2, ids1, ids2);
    KeptInTurn(a0, a1, a2, ids1, ids2);
    hide Kept, Agree, Reserved;
    assert Range(|a0|, |a2|) == Range(|a0|, |a1|) + Range(|a1|, |a2|);
  }

  lemma FirstIsUndisturbed<T(!new)>(a0: Arena<T>, a1: Arena<T>, a2: Arena<T>, ids1: multiset<nat>, ids2: multiset<nat>)
    requires Reserved(a0, ids1 + ids2) && |a0| <= |a1| && Kept(a1, a2, ids2)
    ensures Agree(a1, a2, ids1 + Range(|a0|, |a1|))
  {
    forall j | j in ids1 + Range(|a0|, |a1|) ensures j < |a1| && a2[j] == a1[j] {
      assert (ids1 + ids2)[j] == ids1[j] + ids2[j];
      assert j in ids1 || j in ids2 ==> j in ids1 + ids2;
    }
  }

  lemma KeptInTurn<T(!new)>(a0: Arena<T>, a1: Arena<T>, a2: Arena<T>, ids1: multiset<nat>, ids2: multiset<nat>)
    requires Kept(a0, a1, ids1) && Kept(a1, a2, ids2)
    ensures Kept(a0, a2, ids1 + ids2)
  {
    forall j | 0 <= j < |a0| && j !in ids1 + ids2 ensures a2[j] == a0[j] {
      assert j !in ids1 && j !in ids2;
    }
  }

  ghost predicate AddedWell<T(!new)>(arena: Arena<T>, own: Option<nat>, c: Conjunction<T>) {
    var r := Add(arena, own, c);
    Spells(r.arena, r.result, c) && AddsOnly(arena, r.arena, BranchIds(c) + OwnId(own), Met(r.arena, r.result, c))
  }

  ghost predicate PatternsAddedWell<T(!new)>(arena: Arena<T>, ps: Patterns<T>) {
    var r := AddPatterns(arena, ps);
    && SpellsPatterns(r.arena, r.result, ps)
    && AddsOnly(arena, r.arena, BranchIdsOfPatterns(ps), MetInPatterns(r.arena, r.result, ps))
  }

  ghost predicate BranchesAddedWell<T(!new)>(arena: Arena<T>, bs: Branches<T>) {
    var r := AddBranches(arena, bs);
    && SpellsBranches(r.arena, r.result, bs)
    && AddsOnly(arena, r.arena, BranchIdsOfBranches(bs), MetInBranches(r.arena, r.result, bs))
  }

  lemma {:induction false} AddSpellsTree<T(!new)>(arena: Arena<T>, own: Option<nat>, c: Conjunction<T>)
    requires Reserved(arena, BranchIds(c) + OwnId(own)) && |Add(arena, own, c).arena| <= U16_VALUES
    ensures AddedWell(arena, own, c)
    decreases c
  {
    hide Spells, SpellsPatterns, AddPatterns, BranchIdsOfPatterns, MetInPatterns, AddsOnly, Reserved, Range;
    var nested := AddPatterns(arena, c.nested);
    ReservedPart(arena, arena, BranchIds(c), OwnId(own));
    AddSpellsPatterns(arena, c.nested);
    var r := Add(arena, own, c);
    PlacedWell(arena, nested.arena, own, c, nested.result);
  }

  lemma PlacedWell<T(!new)>(arena: Arena<T>, built: Arena<T>, own: Option<nat>, c: Conjunction<T>, refs: seq<Reference>)
    requires SpellsPatterns(built, refs, c.nested) && Reserved(arena, BranchIds(c) + OwnId(own))
    requires AddsOnly(arena, built, BranchIds(c), MetInPatterns(built, refs, c.nested))
    requires var r := Place(built, own, Entry(c.constraints, refs)); |r.arena| <= U16_VALUES
    ensures var r := Place(built, own, Entry(c.constraints, refs));
            && Spells(r.arena, r.result, c)
            && AddsOnly(arena, r.arena, BranchIds(c) + OwnId(own), Met(r.arena, r.result, c))
  {
    hide SpellsPatterns, MetInPatterns, BranchIds, AddsOnly, Reserved, Agree, Place;
    var entry := Entry(c.constraints, refs);
    var r := Place(built, own, entry);
    var met := MetInPatterns(built, refs, c.nested);
    PlacingAdds(arena, built, own, entry, BranchIds(c), met);
    AddedInTurn(arena, built, r.arena, BranchIds(c), met, OwnId(own), multiset{r.result});
    PatternsStay(built, r.arena, refs, c.nested);
  }

  lemma PlacingAdds<T(!new)>(arena: Arena<T>, built: Arena<T>, own: Option<nat>, entry: Entry<T>, ids: multiset<nat>,
                             met: multiset<nat>)
    requires Reserved(arena, ids + OwnId(own)) && AddsOnly(arena, built, ids, met)
    requires |Place(built, own, entry).arena| <= U16_VALUES
    ensures var r := Place(built, own, entry);
            && r.result < |r.arena| && r.arena[r.result] == entry
            && AddsOnly(built, r.arena, OwnId(own), multiset{r.result})
  {
    match own
    case Some(id) =>
      assert id in ids + OwnId(own);
      assert Range(|built|, |built|) == multiset{};
    case None =>
      LastIdIsIndex(|built| + 1);
      assert Range(|built|, |built| + 1) == multiset{|built|};
  }

  lemma {:induction false} AddSpellsPatterns<T(!new)>(arena: Arena<T>, ps: Patterns<T>)
    requires Reserved(arena, BranchIdsOfPatterns(ps)) && |AddPatterns(arena, ps).arena| <= U16_VALUES
    ensures PatternsAddedWell(arena, ps)
    decreases ps
  {
    match ps
    case Done => NothingAdded(arena);
    case Or(_, _) => AddSpellsOr(arena, ps);
    case Not(_, _) => AddSpellsNot(arena, ps);
    case Try(_, _, _) => AddSpellsTry(arena, ps);
  }

  lemma {:induction false} AddSpellsOr<T(!new)>(arena: Arena<T>, ps: Patterns<T>)
    requires Reserved(arena, BranchIdsOfPatterns(ps)) && |AddPatterns(arena, ps).arena| <= U16_VALUES && ps.Or?
    ensures PatternsAddedWell(arena, ps)
    decreases ps, 0
  {
    hide Reserved, AddsOnly, Agree, AddBranches, BranchIdsOfBranches, MetInBranches, SpellsBranches;
    var branches, rest := ps.branches, ps.rest;
    var here := AddBranches(arena, branches);
    var later := AddPatterns(here.arena, rest);
    ReservedPart(arena, here.arena, BranchIdsOfBranches(branches), BranchIdsOfPatterns(rest));
    AddSpellsBranches(arena, branches);
    AddSpellsPatterns(here.arena, rest);
    AddedInTurn(arena, here.arena, later.arena,
                BranchIdsOfBranches(branches), MetInBranches(here.arena, here.result, branches),
                BranchIdsOfPatterns(rest), MetInPatterns(later.arena, later.result, rest));
    BranchesStay(here.arena, later.arena, here.result, branches);
    assert ([OrRef(here.result)] + later.result)[1..] == later.result;
  }

  lemma {:induction false} AddSpellsNot<T(!new)>(arena: Arena<T>, ps: Patterns<T>)
    requires Reserved(arena, BranchIdsOfPatterns(ps)) && |AddPatterns(arena, ps).arena| <= U16_VALUES && ps.Not?
    ensures PatternsAddedWell(arena, ps)
    decreases ps, 0
  {
    hide Reserved, AddsOnly, Agree, Spells, Add, BranchIds, Met;
    var inner, rest := ps.inner, ps.rest;
    var here := Add(arena, None, inner);
    var later := AddPatterns(here.arena, rest);
    assert BranchIds(inner) + OwnId(None) == BranchIds(inner);
    ReservedPart(arena, here.arena, BranchIds(inner), BranchIdsOfPatterns(rest));
    AddSpellsTree(arena, None, inner);
    AddSpellsPatterns(here.arena, rest);
    AddedInTurn(arena, here.arena, later.arena, BranchIds(inner), Met(here.arena, here.result, inner),
                BranchIdsOfPatterns(rest), MetInPatterns(later.arena, later.result, rest));
    SpellingStays(here.arena, later.arena, here.result, inner);
    assert ([NotRef(here.result)] + later.result)[1..] == later.result;
  }

  lemma {:induction false} AddSpellsTry<T(!new)>(arena: Arena<T>, ps: Patterns<T>)
    requires Reserved(arena, BranchIdsOfPatterns(ps)) && |AddPatterns(arena, ps).arena| <= U16_VALUES && ps.Try?
    ensures PatternsAddedWell(arena, ps)
    decreases ps, 0
  {
    hide Reserved, AddsOnly, Agree, Spells, Add, BranchIds, Met;
    var id, inner, rest := ps.id, ps.inner, ps.rest;
    var here := Add(arena, Some(id), inner);
    var later := AddPatterns(here.arena, rest);
    var ids := BranchIds(inner) + OwnId(Some(id));
    assert ids == BranchIds(inner) + multiset{id};
    ReservedPart(arena, here.arena, ids, BranchIdsOfPatterns(rest));
    AddSpellsTree(arena, Some(id), inner);
    AddSpellsPatterns(here.arena, rest);
    AddedInTurn(arena, here.arena, later.arena, ids, Met(here.arena, here.result, inner),
                BranchIdsOfPatterns(rest), MetInPatterns(later.arena, later.result, rest));
    SpellingStays(here.arena, later.arena, here.result, inner);
    BranchIdIsResult(arena, id, inner);
    assert ([TryRef(here.result)] + later.result)[1..] == later.result;
  }

  lemma NothingAdded<T(!new)>(arena: Arena<T>)
    ensures AddsOnly(arena, arena, multiset{}, multiset{})
  {
  }

  lemma BranchIdIsResult<T>(arena: Arena<T>, id: nat, c: Conjunction<T>)
    ensures Add(arena, Some(id), c).result == id
  {
  }

  lemma {:induction false} AddSpellsBranches<T(!new)>(arena: Arena<T>, bs: Branches<T>)
    requires Reserved(arena, BranchIdsOfBranches(bs)) && |AddBranches(arena, bs).arena| <= U16_VALUES
    ensures BranchesAddedWell(arena, bs)
    decreases bs
  {
    hide Reserved, AddsOnly, Agree, Spells, Add, BranchIds, Met;
    match bs
    case NoBranch =>
      assert AddsOnly(arena, arena, multiset{}, multiset{}) by {
        NothingAdded(arena);
      }
    case Branch(id, inner, rest) =>
      var here := Add(arena, Some(id), inner);
      var later := AddBranches(here.arena, rest);
      var ids := BranchIds(inner) + OwnId(Some(id));
      assert ids == BranchIds(inner) + multiset{id};
      ReservedPart(arena, here.arena, ids, BranchIdsOfBranches(rest));
      AddSpellsTree(arena, Some(id), inner);
      AddSpellsBranches(here.arena, rest);
      AddedInTurn(arena, here.arena, later.arena, ids, Met(here.arena, here.result, inner),
                  BranchIdsOfBranches(rest), MetInBranches(later.arena, later.result, rest));
      SpellingStays(here.arena, later.arena, here.result, inner);
      BranchIdIsResult(arena, id, inner);
      assert ([here.result] + later.result)[1..] == later.result;
  }

  /******* Whole pipelines *******/

  /* Stages that carry a pattern are match, insert, put, update and delete. */
  datatype Stage<T> = Block(kind: string, block: Conjunction<T>) | Plain(text: string)

  datatype StageRef = BlockRef(kind: string, id: nat) | PlainRef(text: string)

  function Build<T>(arena: Arena<T>, stages: seq<Stage<T>>): (r: Added<T, seq<StageRef>>)
    ensures |arena| <= |r.arena|
  {
    if stages == [] then Added(arena, [])
    else
      var before := Build(arena, stages[..|stages| - 1]);
      match stages[|stages| - 1]
      case Plain(text) => Added(before.arena, before.result + [PlainRef(text)])
      case Block(kind, block) =>
        var here := Add(before.arena, None, block);
        Added(here.arena, before.result + [BlockRef(kind, here.result)])
  }

  function AllBranchIds<T>(stages: seq<Stage<T>>): multiset<nat> {
    if stages == [] then multiset{}
    else
      var last := stages[|stages| - 1];
      AllBranchIds(stages[..|stages| - 1]) + (if last.Block? then BranchIds(last.block) else multiset{})
  }

  /* Every stage is there in order, and from each root the arena spells the stage's tree. */
  ghost predicate SpellsStages<T(!new)>(arena: Arena<T>, refs: seq<StageRef>, stages: seq<Stage<T>>) {
    if stages == [] then refs == []
    else
      && refs != [] && SpellsStages(arena, refs[..|refs| - 1], stages[..|stages| - 1])
      && SpellsStage(arena, refs[|refs| - 1], stages[|stages| - 1])
  }

  ghost predicate SpellsStage<T(!new)>(arena: Arena<T>, ref: StageRef, stage: Stage<T>) {
    match stage
    case Plain(text) => ref == PlainRef(text)
    case Block(kind, block) => ref.BlockRef? && ref.kind == kind && Spells(arena, ref.id, block)
  }

  ghost function MetInStages<T(!new)>(arena: Arena<T>, refs: seq<StageRef>, stages: seq<Stage<T>>): multiset<nat>
    requires SpellsStages(arena, refs, stages)
    decreases |stages|
  {
    if stages == [] then multiset{}
    else
      var ref, stage := refs[|refs| - 1], stages[|stages| - 1];
      MetInStages(arena, refs[..|refs| - 1], stages[..|stages| - 1]) +
      (if stage.Block? then Met(arena, ref.id, stage.block) else multiset{})
  }

  lemma {:induction false} StagesStay<T(!new)>(a: Arena<T>, a': Arena<T>, refs: seq<StageRef>, stages: seq<Stage<T>>)
    requires SpellsStages(a, refs, stages) && Agree(a, a', MetInStages(a, refs, stages))
    ensures SpellsStages(a', refs, stages) && MetInStages(a', refs, stages) == MetInStages(a, refs, stages)
    decreases |stages|
  {
    hide Agree, Spells, Met;
    if stages != [] {
      var ref, stage := refs[|refs| - 1], stages[|stages| - 1];
      var here := if stage.Block? then Met(a, ref.id, stage.block) else multiset{};
      AgreeInParts(a, a', MetInStages(a, refs[..|refs| - 1], stages[..|stages| - 1]), here);
      StagesStay(a, a', refs[..|refs| - 1], stages[..|stages| - 1]);
      if stage.Block? {
        SpellingStays(a, a', ref.id, stage.block);
      }
    }
  }

  /* A block added after stages that are spelled out. */
  lemma BlockSpells<T(!new)>(arena: Arena<T>, before: Added<T, seq<StageRef>>, earlier: seq<Stage<T>>, kind: string,
                             block: Conjunction<T>)
    requires Reserved(arena, AllBranchIds(earlier) + BranchIds(block)) && Reserved(before.arena, BranchIds(block))
    requires SpellsStages(before.arena, before.result, earlier)
    requires AddsOnly(arena, before.arena, AllBranchIds(earlier), MetInStages(before.arena, before.result, earlier))
    requires |Add(before.arena, None, block).arena| <= U16_VALUES
    ensures var here := Add(before.arena, None, block);
            var refs, stages := before.result + [BlockRef(kind, here.result)], earlier + [Block(kind, block)];
            && SpellsStages(here.arena, refs, stages)
            && AddsOnly(arena, here.arena, AllBranchIds(earlier) + BranchIds(block),
                        MetInStages(here.arena, refs, stages))
  {
    hide Reserved, AddsOnly, Agree, Spells, Met, Add, BranchIds, AllBranchIds;
    var here, ids := Add(before.arena, None, block), BranchIds(block);
    var refs, stages := before.result + [BlockRef(kind, here.result)], earlier + [Block(kind, block)];
    assert refs[..|before.result|] == before.result && stages[..|earlier|] == earlier;
    assert ids + OwnId(None) == ids;
    AddSpellsTree(before.arena, None, block);
    AddedInTurn(arena, before.arena, here.arena, AllBranchIds(earlier),
                MetInStages(before.arena, before.result, earlier), ids, Met(here.arena, here.result, block));
    StagesStay(before.arena, here.arena, before.result, earlier);
  }

  /* A stage without a block changes nothing but the list. */
  lemma PlainSpells<T(!new)>(arena: Arena<T>, refs: seq<StageRef>, earlier: seq<Stage<T>>, text: string)
    requires SpellsStages(arena, refs, earlier)
    ensures var refs', stages := refs + [PlainRef(text)], earlier + [Plain(text)];
            SpellsStages(arena, refs', stages) &&
            MetInStages(arena, refs', stages) == MetInStages(arena, refs, earlier)
  {
    hide Spells, Met;
    var refs', stages: seq<Stage<T>> := refs + [PlainRef(text)], earlier + [Plain(text)];
    assert refs'[..|refs|] == refs && stages[..|earlier|] == earlier;
  }

  lemma BuildOfAppend<T>(arena: Arena<T>, earlier: seq<Stage<T>>, last: Stage<T>)
    ensures var before, r := Build(arena, earlier), Build(arena, earlier + [last]);
            match last
            case Plain(text) => r == Added(before.arena, before.result + [PlainRef(text)])
            case Block(kind, block) =>
              var here := Add(before.arena, None, block);
              r == Added(here.arena, before.result + [BlockRef(kind, here.result)])
    ensures AllBranchIds(earlier + [last]) ==
            AllBranchIds(earlier) + if last.Block? then BranchIds(last.block) else multiset{}
  {
    hide Add, BranchIds;
    assert (earlier + [last])[..|earlier|] == earlier;
  }

  lemma {:induction false} BuildSpellsStages<T(!new)>(arena: Arena<T>, stages: seq<Stage<T>>)
    requires Reserved(arena, AllBranchIds(stages)) && |Build(arena, stages).arena| <= U16_VALUES
    ensures var r := Build(arena, stages);
            && SpellsStages(r.arena, r.result, stages)
            && AddsOnly(arena, r.arena, AllBranchIds(stages), MetInStages(r.arena, r.result, stages))
    decreases |stages|
  {
    if stages == [] {
      hide AddsOnly;
      NothingAdded(arena);
    } else {
      hide Reserved, AddsOnly, Add, BranchIds, Build, AllBranchIds, SpellsStages, MetInStages;
      var earlier, last := stages[..|stages| - 1], stages[|stages| - 1];
      assert stages == earlier + [last];
      BuildOfAppend(arena, earlier, last);
      var before := Build(arena, earlier);
      var ids := if last.Block? then BranchIds(last.block) else multiset{};
      ReservedPart(arena, before.arena, AllBranchIds(earlier), ids);
      BuildSpellsStages(arena, earlier);
      if last.Block? {
        BlockSpells(arena, before, earlier, last.kind, last.block);
      } else {
        PlainSpells(before.arena, before.result, earlier, last.text);
        assert AllBranchIds(earlier) + ids == AllBranchIds(earlier);
      }
    }
  }

  function NewArena<T>(branchCount: nat, nothing: T): Arena<T> {
    seq(branchCount, i => Entry(nothing, []))
  }

  /* How many conjunctions without a branch id a tree contains below its root: one for each negation. */
  function Negations<T>(c: Conjunction<T>): nat
    decreases c
  {
    NegationsInPatterns(c.nested)
  }

  function NegationsInPatterns<T>(ps: Patterns<T>): nat
    decreases ps
  {
    match ps
    case Done => 0
    case Or(branches, rest) => NegationsInBranches(branches) + NegationsInPatterns(rest)
    case Not(inner, rest) => Negations(inner) + 1 + NegationsInPatterns(rest)
    case Try(_, inner, rest) => Negations(inner) + NegationsInPatterns(rest)
  }

  function NegationsInBranches<T>(bs: Branches<T>): nat
    decreases bs
  {
    match bs
    case NoBranch => 0
    case Branch(_, inner, rest) => Negations(inner) + NegationsInBranches(rest)
  }

  /* The conjunctions without a branch id in a pipeline: the roots and the negations. */
  function Unbranched<T>(stages: seq<Stage<T>>): nat {
    if stages == [] then 0
    else
      var last := stages[|stages| - 1];
      Unbranched(stages[..|stages| - 1]) + (if last.Block? then Negations(last.block) + 1 else 0)
  }

  lemma {:induction false} SizeAfterTree<T>(arena: Arena<T>, own: Option<nat>, c: Conjunction<T>)
    ensures |Add(arena, own, c).arena| == |arena| + Negations(c) + (if own.None? then 1 else 0)
    decreases c
  {
    SizeAfterPatterns(arena, c.nested);
  }

  lemma {:induction false} SizeAfterPatterns<T>(arena: Arena<T>, ps: Patterns<T>)
    ensures |AddPatterns(arena, ps).arena| == |arena| + NegationsInPatterns(ps)
    decreases ps
  {
    match ps
    case Done =>
    case Or(branches, rest) =>
      SizeAfterBranches(arena, branches);
      SizeAfterPatterns(AddBranches(arena, branches).arena, rest);
    case Not(inner, rest) =>
      SizeAfterTree(arena, None, inner);
      SizeAfterPatterns(Add(arena, None, inner).arena, rest);
    case Try(id, inner, rest) =>
      SizeAfterTree(arena, Some(id), inner);
      SizeAfterPatterns(Add(arena, Some(id), inner).arena, rest);
  }

  lemma {:induction false} SizeAfterBranches<T>(arena: Arena<T>, bs: Branches<T>)
    ensures |AddBranches(arena, bs).arena| == |arena| + NegationsInBranches(bs)
    decreases bs
  {
    match bs
    case NoBranch =>
    case Branch(id, inner, rest) =>
      SizeAfterTree(arena, Some(id), inner);
      SizeAfterBranches(Add(arena, Some(id), inner).arena, rest);
  }

  lemma {:induction false} SizeAfterStages<T>(arena: Arena<T>, stages: seq<Stage<T>>)
    ensures |Build(arena, stages).arena| == |arena| + Unbranched(stages)
  {
    if stages != [] {
      var earlier, last := stages[..|stages| - 1], stages[|stages| - 1];
      SizeAfterStages(arena, earlier);
      if last.Block? {
        SizeAfterTree(Build(arena, earlier).arena, None, last.block);
      }
    }
  }

  /* Given distinct branch ids below the number allocated, and no more conjunctions than there are u16 ids,
     every stage reads back as the tree it came from. The ids met over all stages are exactly the branch ids
     and the ids appended, no id twice. */
  lemma PipelineReadsBack<T(!new)>(branchCount: nat, nothing: T, stages: seq<Stage<T>>)
    requires Once(AllBranchIds(stages)) && Below(AllBranchIds(stages), branchCount)
    requires branchCount + Unbranched(stages) <= 65536
    ensures var r := Build(NewArena(branchCount, nothing), stages);
            && |r.arena| == branchCount + Unbranched(stages)
            && SpellsStages(r.arena, r.result, stages)
            && MetInStages(r.arena, r.result, stages) == AllBranchIds(stages) + Range(branchCount, |r.arena|)
            && Once(MetInStages(r.arena, r.result, stages))
  {
    hide SpellsStages, Spells, Build, Unbranched;
    var arena := NewArena(branchCount, nothing);
    SizeAfterStages(arena, stages);
    BuildSpellsStages(arena, stages);
    var r := Build(arena, stages);
    var ids, appended := AllBranchIds(stages), Range(branchCount, |r.arena|);
    forall id ensures (ids + appended)[id] <= 1 {
      assert (ids + appended)[id] == ids[id] + appended[id];
      assert ids[id] > 0 ==> id in ids;
    }
  }

  lemma {:induction false} BranchIdsOfFirst<T>(stages: seq<Stage<T>>, k: nat)
    requires k <= |stages|
    ensures AllBranchIds(stages[..k]) <= AllBranchIds(stages)
    decreases |stages| - k
  {
    if k == |stages| {
      assert stages[..k] == stages;
    } else {
      BranchIdsOfFirst(stages, k + 1);
      assert stages[..k + 1][..k] == stages[..k];
    }
  }

  /* Later stages leave everything that earlier stages put into the arena as it was. */
  lemma {:induction false} LaterStagesKeepEarlier<T(!new)>(arena: Arena<T>, stages: seq<Stage<T>>, k: nat)
    requires k <= |stages| && Reserved(arena, AllBranchIds(stages)) && |Build(arena, stages).arena| <= U16_VALUES
    ensures var first := Build(arena, stages[..k]);
            && SpellsStages(first.arena, first.result, stages[..k])
            && Agree(first.arena, Build(arena, stages).arena, MetInStages(first.arena, first.result, stages[..k]))
            && SpellsStages(Build(arena, stages).arena, first.result, stages[..k])
    decreases |stages|
  {
    hide Spells, Met, Add, BranchIds;
    if k == |stages| {
      assert stages[..k] == stages;
      BuildSpellsStages(arena, stages);
    } else {
      var earlier, last := stages[..|stages| - 1], stages[|stages| - 1];
      assert earlier[..k] == stages[..k];
      var before, r := Build(arena, earlier), Build(arena, stages);
      var ids := if last.Block? then BranchIds(last.block) else multiset{};
      ReservedPart(arena, before.arena, AllBranchIds(earlier), ids);
      LaterStagesKeepEarlier(arena, earlier, k);
      LastStageKeepsEarlier(arena, stages, k);
    }
    var first := Build(arena, stages[..k]);
    StagesStay(first.arena, Build(arena, stages).arena, first.result, stages[..k]);
  }

  lemma LastStageKeepsEarlier<T(!new)>(arena: Arena<T>, stages: seq<Stage<T>>, k: nat)
    requires k < |stages| && Reserved(arena, AllBranchIds(stages)) && |Build(arena, stages).arena| <= U16_VALUES
    requires var first, before := Build(arena, stages[..k]), Build(arena, stages[..|stages| - 1]);
             && SpellsStages(first.arena, first.result, stages[..k])
             && Agree(first.arena, before.arena, MetInStages(first.arena, first.result, stages[..k]))
    ensures var first := Build(arena, stages[..k]);
            Agree(first.arena, Build(arena, stages).arena, MetInStages(first.arena, first.result, stages[..k]))
  {
    hide Spells, Met, Add, BranchIds, SpellsStages, MetInStages;
    var earlier, last := stages[..|stages| - 1], stages[|stages| - 1];
    var first, before, r := Build(arena, stages[..k]), Build(arena, earlier), Build(arena, stages);
    if last.Block? {
      var ids := BranchIds(last.block);
      ReservedPart(arena, before.arena, AllBranchIds(earlier), ids);
      assert ids + OwnId(None) == ids;
      AddSpellsTree(before.arena, None, last.block);
      MetInFirst(arena, stages, k);
      var met := MetInStages(first.arena, first.result, stages[..k]);
      forall j | j in met ensures j !in ids {
        assert (AllBranchIds(earlier) + ids)[j] == AllBranchIds(earlier)[j] + ids[j];
        assert j in ids ==> j in AllBranchIds(stages);
      }
    }
  }

  /* The ids met in the first stages are their branch ids and ids appended so far. */
  lemma MetInFirst<T(!new)>(arena: Arena<T>, stages: seq<Stage<T>>, k: nat)
    requires k < |stages| && Reserved(arena, AllBranchIds(stages)) && |Build(arena, stages[..k]).arena| <= U16_VALUES
    ensures var first := Build(arena, stages[..k]);
            && SpellsStages(first.arena, first.result, stages[..k])
            && forall j :: j in MetInStages(first.arena, first.result, stages[..k]) ==>
                 j in AllBranchIds(stages[..|stages| - 1]) || |arena| <= j
  {
    hide SpellsStages, Build;
    var earlier := stages[..|stages| - 1];
    assert earlier[..k] == stages[..k];
    BranchIdsOfFirst(earlier, k);
    BranchIdsOfFirst(stages, |stages| - 1);
    var ids := AllBranchIds(stages[..k]);
    assert Reserved(arena, ids) by {
      forall id ensures ids[id] <= 1 && (id in ids ==> id < |arena|) {
        assert ids[id] <= AllBranchIds(stages)[id];
      }
    }
    BuildSpellsStages(arena, stages[..k]);
  }
}
