/**
 Grouped reduction (executor/reduce_executor.rs, `GroupedReducer`): one set of accumulators per group of
 rows, and one output row per group.
 */
module GroupedReduce {
  import opened Reduce

  type Group = seq<Cell>

  function GroupOf(row: Row, positions: seq<nat>): (g: Group)
    ensures |g| == |positions|
  {
    seq(|positions|, i requires 0 <= i < |positions| => Get(row.cells, positions[i]))
  }

  function FreshAll(instructions: seq<Instruction>): (rs: seq<Reducer>)
    ensures |rs| == |instructions| && forall i :: 0 <= i < |rs| ==> rs[i] == Fresh(instructions[i])
  {
    seq(|instructions|, i requires 0 <= i < |instructions| => Fresh(instructions[i]))
  }

  function AcceptedAll(reducers: seq<Reducer>, row: Row): (rs: seq<Reducer>)
    ensures |rs| == |reducers| && forall i :: 0 <= i < |rs| ==> rs[i] == Accepted(reducers[i], row)
  {
    seq(|reducers|, i requires 0 <= i < |reducers| => Accepted(reducers[i], row))
  }

  type Groups = map<Group, seq<Reducer>>

  /* Without grouping columns there is one group from the start, so that no rows still give one answer. */
  function NoRows(positions: seq<nat>, initial: seq<Reducer>): Groups {
    if positions == [] then map[[] := initial] else map[]
  }

  function OneRow(groups: Groups, positions: seq<nat>, initial: seq<Reducer>, row: Row): Groups {
    var g := GroupOf(row, positions);
    groups[g := AcceptedAll(if g in groups then groups[g] else initial, row)]
  }

  function Grouped(positions: seq<nat>, initial: seq<Reducer>, rows: seq<Row>): Groups {
    if rows == [] then NoRows(positions, initial)
    else OneRow(Grouped(positions, initial, rows[..|rows| - 1]), positions, initial, rows[|rows| - 1])
  }

  /* The rows of one group, in order. */
  function RowsOf(rows: seq<Row>, positions: seq<nat>, g: Group): seq<Row> {
    if rows == [] then []
    else
      var before, row := RowsOf(rows[..|rows| - 1], positions, g), rows[|rows| - 1];
      if GroupOf(row, positions) == g then before + [row] else before
  }

  /* There is a group exactly for each combination that occurs in some row (and the empty one when there are
     no grouping columns), and its accumulators have accepted exactly the rows of the group. */
  lemma {:induction false} GroupsByRows(positions: seq<nat>, initial: seq<Reducer>, rows: seq<Row>, g: Group)
    ensures var groups, own := Grouped(positions, initial, rows), RowsOf(rows, positions, g);
            && (g in groups <==> own != [] || (positions == [] && g == []))
            && (g in groups ==>
                  && |groups[g]| == |initial|
                  && forall k :: 0 <= k < |initial| ==> groups[g][k] == Folded(initial[k], own))
  {
    if rows != [] {
      var before, row := rows[..|rows| - 1], rows[|rows| - 1];
      GroupsByRows(positions, initial, before, g);
      if GroupOf(row, positions) == g {
        var own := RowsOf(before, positions, g);
        assert (own + [row])[..|own|] == own;
      }
    }
  }

  /******* Groups by the cells of the rows *******/

  /* The row has the group's cells at the grouping positions; what lies outside the row is missing. */
  predicate CellsAre(row: Row, positions: seq<nat>, g: Group) {
    && |g| == |positions|
    && forall i :: 0 <= i < |g| ==> g[i] == if positions[i] < |row.cells| then row.cells[positions[i]] else Missing
  }

  lemma GroupHasTheCells(row: Row, positions: seq<nat>, g: Group)
    ensures GroupOf(row, positions) == g <==> CellsAre(row, positions, g)
  {
    var own := GroupOf(row, positions);
    if CellsAre(row, positions, g) {
      assert forall i :: 0 <= i < |g| ==> own[i] == g[i];
    }
  }

  /* Which rows a group consists of: their indices, in order. */
  ghost predicate Selects(at: seq<nat>, rows: seq<Row>, positions: seq<nat>, g: Group) {
    && (forall k :: 0 <= k < |at| ==> at[k] < |rows|)
    && (forall j, k :: 0 <= j < k < |at| ==> at[j] < at[k])
    && (forall i: nat :: i < |rows| ==> (i in at <==> CellsAre(rows[i], positions, g)))
  }

  function Picked(rows: seq<Row>, at: seq<nat>): (r: seq<Row>)
    requires forall k :: 0 <= k < |at| ==> at[k] < |rows|
    ensures |r| == |at| && forall k :: 0 <= k < |at| ==> r[k] == rows[at[k]]
  {
    seq(|at|, k requires 0 <= k < |at| => rows[at[k]])
  }

  lemma SelectsOneMore(at: seq<nat>, rows: seq<Row>, positions: seq<nat>, g: Group)
    requires rows != [] && Selects(at, rows[..|rows| - 1], positions, g)
    ensures var last := |rows| - 1;
            Selects(if CellsAre(rows[last], positions, g) then at + [last] else at, rows, positions, g)
  {
    hide CellsAre;
    var last := |rows| - 1;
    var at' := if CellsAre(rows[last], positions, g) then at + [last] else at;
    forall i: nat | i < |rows| ensures i in at' <==> CellsAre(rows[i], positions, g) {
      if i < last {
        assert rows[..last][i] == rows[i];
      }
    }
  }

  lemma {:induction false} RowsOfGroup(rows: seq<Row>, positions: seq<nat>, g: Group) returns (at: seq<nat>)
    ensures Selects(at, rows, positions, g) && RowsOf(rows, positions, g) == Picked(rows, at)
  {
    at := [];
    if rows != [] {
      var last := |rows| - 1;
      var before := rows[..last];
      at := RowsOfGroup(before, positions, g);
      SelectedAreRows(at, before, positions, g);
      PickedFromMore(before, rows, at);
      GroupHasTheCells(rows[last], positions, g);
      SelectsOneMore(at, rows, positions, g);
      hide GroupOf, CellsAre, Selects, Picked;
      if CellsAre(rows[last], positions, g) {
        PickedOneMore(rows, at, last);
        at := at + [last];
      }
    }
  }

  lemma SelectedAreRows(at: seq<nat>, rows: seq<Row>, positions: seq<nat>, g: Group)
    requires Selects(at, rows, positions, g)
    ensures forall k :: 0 <= k < |at| ==> at[k] < |rows|
  {
  }

  lemma PickedFromMore(before: seq<Row>, rows: seq<Row>, at: seq<nat>)
    requires before <= rows && forall k :: 0 <= k < |at| ==> at[k] < |before|
    ensures forall k :: 0 <= k < |at| ==> at[k] < |rows|
    ensures Picked(rows, at) == Picked(before, at)
  {
  }

  lemma PickedOneMore(rows: seq<Row>, at: seq<nat>, last: nat)
    requires last < |rows| && forall k :: 0 <= k < |at| ==> at[k] < |rows|
    ensures forall k :: 0 <= k < |at + [last]| ==> (at + [last])[k] < |rows|
    ensures Picked(rows, at + [last]) == Picked(rows, at) + [rows[last]]
  {
  }

  /* Two rows fall into one group exactly if they agree at every grouping position. */
  lemma SameGroupIffAgree(a: Row, b: Row, positions: seq<nat>, g: Group)
    requires CellsAre(a, positions, g)
    ensures CellsAre(b, positions, g) <==>
            forall i :: 0 <= i < |positions| ==> (
              var p := positions[i];
              (if p < |a.cells| then a.cells[p] else Missing) == if p < |b.cells| then b.cells[p] else Missing)
  {
    if CellsAre(b, positions, g) {
      forall i | 0 <= i < |positions|
        ensures var p := positions[i];
                (if p < |a.cells| then a.cells[p] else Missing) == if p < |b.cells| then b.cells[p] else Missing
      {
        assert g[i] == g[i];
      }
    }
  }

  /* There is a group for exactly the combinations of cells that some row has at the grouping positions (and the
     empty one when there are no grouping positions), and its accumulators have folded exactly the rows that have
     them, in order. */
  lemma GroupsByCells(positions: seq<nat>, initial: seq<Reducer>, rows: seq<Row>, g: Group) returns (at: seq<nat>)
    ensures Selects(at, rows, positions, g)
    ensures var groups := Grouped(positions, initial, rows);
            && (g in groups <==>
                  (exists i: nat :: i < |rows| && CellsAre(rows[i], positions, g)) || (positions == [] && g == []))
            && (g in groups ==>
                  && |groups[g]| == |initial|
                  && forall k :: 0 <= k < |initial| ==> groups[g][k] == Folded(initial[k], Picked(rows, at)))
  {
    hide GroupOf, CellsAre, Grouped, RowsOf, Folded;
    at := RowsOfGroup(rows, positions, g);
    GroupsByRows(positions, initial, rows, g);
    if at != [] {
      assert at[0] in at && CellsAre(rows[at[0]], positions, g);
    }
  }

  /* Every result of every group is the statistic of the group's rows, written out one by one; a minimum or
     maximum if and only if every number of the group is matched by one that counts. */
  lemma GroupedIsStatistic(positions: seq<nat>, instructions: seq<Instruction>, rows: seq<Row>, g: Group, k: nat)
    requires k < |instructions|
    ensures var groups, own := Grouped(positions, FreshAll(instructions), rows), RowsOf(rows, positions, g);
            g in groups ==>
              && |groups[g]| == |instructions|
              && (Correct(instructions[k], Finalised(groups[g][k]), Expanded(own)) <==> Covered(instructions[k], own))
              && (!IsExtreme(instructions[k]) ==> Covered(instructions[k], own))
  {
    hide Correct, Finalised, Folded, Grouped, Covered;
    GroupsByRows(positions, FreshAll(instructions), rows, g);
    ReductionIsStatistic(instructions[k], RowsOf(rows, positions, g));
  }

  /******* The order of rows does not matter *******/

  lemma {:induction false} RowsOfAsMultiset(rows: seq<Row>, positions: seq<nat>, g: Group, row: Row)
    ensures multiset(RowsOf(rows, positions, g))[row] == if GroupOf(row, positions) == g then multiset(rows)[row] else 0
  {
    if rows != [] {
      var before, last := rows[..|rows| - 1], rows[|rows| - 1];
      RowsOfAsMultiset(before, positions, g, row);
      assert rows == before + [last];
    }
  }

  lemma SameRowsOfGroup(rows: seq<Row>, others: seq<Row>, positions: seq<nat>, g: Group)
    requires multiset(rows) == multiset(others)
    ensures multiset(RowsOf(rows, positions, g)) == multiset(RowsOf(others, positions, g))
  {
    forall row ensures multiset(RowsOf(rows, positions, g))[row] == multiset(RowsOf(others, positions, g))[row] {
      RowsOfAsMultiset(rows, positions, g, row);
      RowsOfAsMultiset(others, positions, g, row);
    }
  }

  lemma GroupInAnyOrder(positions: seq<nat>, initial: seq<Reducer>, rows: seq<Row>, others: seq<Row>, g: Group)
    requires multiset(rows) == multiset(others)
    ensures var a, b := Grouped(positions, initial, rows), Grouped(positions, initial, others);
            (g in a <==> g in b) && (g in a ==> a[g] == b[g])
  {
    hide Folded, Grouped, RowsOf;
    GroupsByRows(positions, initial, rows, g);
    GroupsByRows(positions, initial, others, g);
    SameRowsOfGroup(rows, others, positions, g);
    var own, its := RowsOf(rows, positions, g), RowsOf(others, positions, g);
    assert |own| == |multiset(own)| == |multiset(its)| == |its|;
    forall k | 0 <= k < |initial| ensures Folded(initial[k], own) == Folded(initial[k], its) {
      OrderDoesNotMatter(initial[k], own, its);
    }
  }

  /* Rearranging the rows leaves all groups and all results as they are. */
  lemma GroupedInAnyOrder(positions: seq<nat>, initial: seq<Reducer>, rows: seq<Row>, others: seq<Row>)
    requires multiset(rows) == multiset(others)
    ensures Grouped(positions, initial, rows) == Grouped(positions, initial, others)
  {
    hide Grouped;
    var a, b := Grouped(positions, initial, rows), Grouped(positions, initial, others);
    forall g ensures (g in a <==> g in b) && (g in a ==> a[g] == b[g]) {
      GroupInAnyOrder(positions, initial, rows, others, g);
    }
    assert a.Keys == b.Keys;
  }

  /******* The reducer *******/

  datatype OutputRow = OutputRow(group: Group, results: seq<Result>, multiplicity: nat)

  function Results(reducers: seq<Reducer>): (rs: seq<Result>)
    ensures |rs| == |reducers| && forall i :: 0 <= i < |rs| ==> rs[i] == Finalised(reducers[i])
  {
    seq(|reducers|, i requires 0 <= i < |reducers| => Finalised(reducers[i]))
  }

  class GroupedReducer {
    const inputGroupPositions: seq<nat>
    const uninitialisedReducers: seq<Reducer>
    var groupedReductions: Groups

    constructor (inputGroupPositions: seq<nat>, instructions: seq<Instruction>)
      ensures this.inputGroupPositions == inputGroupPositions && uninitialisedReducers == FreshAll(instructions)
      ensures groupedReductions == Grouped(inputGroupPositions, FreshAll(instructions), [])
    {
      this.inputGroupPositions := inputGroupPositions;
      uninitialisedReducers := FreshAll(instructions);
      groupedReductions := if inputGroupPositions == [] then map[[] := FreshAll(instructions)] else map[];
    }

    method Accept(row: Row)
      modifies this
      ensures groupedReductions == OneRow(old(groupedReductions), inputGroupPositions, uninitialisedReducers, row)
    {
      var group: Group := [];
      for i := 0 to |inputGroupPositions|
        invariant group == GroupOf(row, inputGroupPositions)[..i]
      {
        group := group + [Get(row.cells, inputGroupPositions[i])];
      }
      assert group == GroupOf(row, inputGroupPositions);
      if group !in groupedReductions {
        groupedReductions := groupedReductions[group := uninitialisedReducers];
      }
      var reducers := groupedReductions[group];
      ghost var before := reducers;
      for i := 0 to |reducers|
        invariant |reducers| == |before|
        invariant forall k :: 0 <= k < |reducers| ==>
          reducers[k] == if k < i then Accepted(before[k], row) else before[k]
      {
        reducers := reducers[i := Accepted(reducers[i], row)];
      }
      assert reducers == AcceptedAll(before, row);
      groupedReductions := groupedReductions[group := reducers];
    }

    /* Accepting all rows of the input. */
    method AcceptRows(rows: seq<Row>)
      requires groupedReductions == Grouped(inputGroupPositions, uninitialisedReducers, [])
      modifies this
      ensures groupedReductions == Grouped(inputGroupPositions, uninitialisedReducers, rows)
      ensures forall g :: g in groupedReductions <==>
                          || (exists i: nat :: i < |rows| && CellsAre(rows[i], inputGroupPositions, g))
                          || (inputGroupPositions == [] && g == [])
    {
      for i := 0 to |rows|
        invariant groupedReductions == Grouped(inputGroupPositions, uninitialisedReducers, rows[..i])
      {
        assert rows[..i + 1][..i] == rows[..i];
        Accept(rows[i]);
      }
      assert rows[..|rows|] == rows;
      forall g
        ensures g in groupedReductions <==>
                || (exists i: nat :: i < |rows| && CellsAre(rows[i], inputGroupPositions, g))
                || (inputGroupPositions == [] && g == [])
      {
        var _ := GroupsByCells(inputGroupPositions, uninitialisedReducers, rows, g);
      }
    }

    /* One row per group, in some order. */
    method Finalise() returns (batch: seq<OutputRow>)
      ensures |batch| == |groupedReductions|
      ensures forall i :: 0 <= i < |batch| ==>
                batch[i].group in groupedReductions &&
                batch[i] == OutputRow(batch[i].group, Results(groupedReductions[batch[i].group]), 1)
      ensures forall i, j :: 0 <= i < j < |batch| ==> batch[i].group != batch[j].group
      ensures forall g :: g in groupedReductions ==> exists i :: 0 <= i < |batch| && batch[i].group == g
    {
      batch := [];
      var left := groupedReductions.Keys;
      while left != {}
        invariant left <= groupedReductions.Keys && |batch| + |left| == |groupedReductions.Keys|
        invariant forall i :: 0 <= i < |batch| ==>
                    batch[i].group in groupedReductions && batch[i].group !in left &&
                    batch[i] == OutputRow(batch[i].group, Results(groupedReductions[batch[i].group]), 1)
        invariant forall i, j :: 0 <= i < j < |batch| ==> batch[i].group != batch[j].group
        invariant forall g :: g in groupedReductions && g !in left ==>
          exists i :: 0 <= i < |batch| && batch[i].group == g
        decreases |left|
      {
        var group :| group in left;
        ghost var before := batch;
        batch := batch + [OutputRow(group, Results(groupedReductions[group]), 1)];
        left := left - {group};
        assert batch[|before|].group == group;
        assert forall i :: 0 <= i < |before| ==> batch[i] == before[i];
      }
    }
  }
}
