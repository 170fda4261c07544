/**
 The reducers (executor/reduce_executor.rs: the Count, CountVar, Sum, Min, Max, Mean and Std executors for
 integers): running accumulators over rows with multiplicities, compared with the plain statistics of the
 rows written out one by one.
 */
module Reduce {
  import opened Options

  datatype Cell = Missing | Number(value: int)

  /* A row of answers and how many times it counts. */
  datatype Row = Row(cells: seq<Cell>, multiplicity: nat)

  function Get(cells: seq<Cell>, position: nat): Cell {
    if position < |cells| then cells[position] else Missing
  }

  /******* The reducers *******/

  datatype Reducer =
    | Count(count: nat)
    | CountVar(count: nat, target: nat)
    | Sum(sum: int, target: nat)
    | Min(least: Option<int>, target: nat)
    | Max(greatest: Option<int>, target: nat)
    | Mean(sum: int, count: nat, target: nat)
    | Std(sum: int, sumSquares: int, count: nat, target: nat)

  datatype Instruction =
    | DoCount
    | DoCountVar(target: nat)
    | DoSum(target: nat)
    | DoMin(target: nat)
    | DoMax(target: nat)
    | DoMean(target: nat)
    | DoStd(target: nat)

  function Fresh(instruction: Instruction): Reducer {
    match instruction
    case DoCount => Count(0)
    case DoCountVar(t) => CountVar(0, t)
    case DoSum(t) => Sum(0, t)
    case DoMin(t) => Min(None, t)
    case DoMax(t) => Max(None, t)
    case DoMean(t) => Mean(0, 0, t)
    case DoStd(t) => Std(0, 0, 0, t)
  }

  function Accepted(reducer: Reducer, row: Row): Reducer {
    var n := row.multiplicity;
    match reducer
    case Count(count) => Count(count + n)
    case CountVar(count, t) => if Get(row.cells, t).Missing? then reducer else CountVar(count + n, t)
    case Sum(sum, t) =>
      (match Get(row.cells, t)
       case Missing => reducer
       case Number(v) => Sum(sum + v * n, t))
    case Min(least, t) =>
      (match Get(row.cells, t)
       case Missing => reducer
       case Number(v) => if least.None? || v < least.value then Min(Some(v), t) else reducer)
    case Max(greatest, t) =>
      (match Get(row.cells, t)
       case Missing => reducer
       case Number(v) => if greatest.None? || v > greatest.value then Max(Some(v), t) else reducer)
    case Mean(sum, count, t) =>
      (match Get(row.cells, t)
       case Missing => reducer
       case Number(v) => Mean(sum + v * n, count + n, t))
    case Std(sum, squares, count, t) =>
      (match Get(row.cells, t)
       case Missing => reducer
       case Number(v) => Std(sum + v * n, squares + v * v * n, count + n, t))
  }

  /* The result: nothing, an integer or a real. For Std it is the sample variance, before the square root. */
  datatype Result = Nothing | Whole(n: int) | Exact(x: real)

  function Variance(sum: int, sumSquares: int, count: nat): real
    requires count > 1
  {
    var s, q, n := sum as real, sumSquares as real, count as real;
    var mean := s / n;
    (q + n * mean * mean - 2.0 * s * mean) / (n - 1.0)
  }

  function Finalised(reducer: Reducer): Result {
    match reducer
    case Count(count) => Whole(count)
    case CountVar(count, _) => Whole(count)
    case Sum(sum, _) => Whole(sum)
    case Min(least, _) => if least.None? then Nothing else Whole(least.value)
    case Max(greatest, _) => if greatest.None? then Nothing else Whole(greatest.value)
    case Mean(sum, count, _) => if count > 0 then Exact(sum as real / count as real) else Nothing
    case Std(sum, squares, count, _) => if count > 1 then Exact(Variance(sum, squares, count)) else Nothing
  }

  function Folded(reducer: Reducer, rows: seq<Row>): Reducer {
    if rows == [] then reducer else Accepted(Folded(reducer, rows[..|rows| - 1]), rows[|rows| - 1])
  }

  /******* The statistics of plain rows *******/

  function Repeated<T>(x: T, n: nat): (xs: seq<T>)
    ensures |xs| == n && forall i :: 0 <= i < n ==> xs[i] == x
  {
    if n == 0 then [] else Repeated(x, n - 1) + [x]
  }

  /* Every row as often as it counts. */
  function Expanded(rows: seq<Row>): seq<seq<Cell>> {
    if rows == [] then []
    else Expanded(rows[..|rows| - 1]) + Repeated(rows[|rows| - 1].cells, rows[|rows| - 1].multiplicity)
  }

  /* The numbers in a column. */
  function Column(rows: seq<seq<Cell>>, target: nat): seq<int> {
    if rows == [] then []
    else
      var last := rows[|rows| - 1];
      Column(rows[..|rows| - 1], target) +
      (if target < |last| && last[target].Number? then [last[target].value] else [])
  }

  function Total(vs: seq<int>): int {
    if vs == [] then 0 else Total(vs[..|vs| - 1]) + vs[|vs| - 1]
  }

  function Average(vs: seq<int>): real
    requires vs != []
  {
    Total(vs) as real / |vs| as real
  }

  function SquaredDeviations(vs: seq<int>, from: real): real {
    if vs == [] then 0.0
    else
      var d := vs[|vs| - 1] as real - from;
      SquaredDeviations(vs[..|vs| - 1], from) + d * d
  }

  ghost predicate IsLeast(r: Result, vs: seq<int>) {
    if vs == [] then r == Nothing else r.Whole? && r.n in vs && forall v :: v in vs ==> r.n <= v
  }

  ghost predicate IsGreatest(r: Result, vs: seq<int>) {
    if vs == [] then r == Nothing else r.Whole? && r.n in vs && forall v :: v in vs ==> v <= r.n
  }

  /* What each reducer should give for plain rows. */
  ghost predicate Correct(instruction: Instruction, r: Result, rows: seq<seq<Cell>>) {
    match instruction
    case DoCount => r == Whole(|rows|)
    case DoCountVar(t) => r == Whole(|Column(rows, t)|)
    case DoSum(t) => r == Whole(Total(Column(rows, t)))
    case DoMin(t) => IsLeast(r, Column(rows, t))
    case DoMax(t) => IsGreatest(r, Column(rows, t))
    case DoMean(t) =>
      var vs := Column(rows, t);
      r == if vs == [] then Nothing else Exact(Average(vs))
    case DoStd(t) =>
      var vs := Column(rows, t);
      r == if |vs| <= 1 then Nothing else Exact(SquaredDeviations(vs, Average(vs)) / (|vs| - 1) as real)
  }

  /******* One more row *******/

  lemma {:induction false} ColumnOfConcat(a: seq<seq<Cell>>, b: seq<seq<Cell>>, t: nat)
    ensures Column(a + b, t) == Column(a, t) + Column(b, t)
  {
    if b == [] {
      assert a + b == a;
    } else {
      ColumnOfConcat(a, b[..|b| - 1], t);
      assert (a + b)[..|a + b| - 1] == a + b[..|b| - 1];
    }
  }

  function InColumn(cells: seq<Cell>, target: nat): seq<int> {
    match Get(cells, target)
    case Missing => []
    case Number(v) => [v]
  }

  lemma ColumnOfAppend(rows: seq<seq<Cell>>, cells: seq<Cell>, t: nat)
    ensures Column(rows + [cells], t) == Column(rows, t) + InColumn(cells, t)
  {
    assert (rows + [cells])[..|rows|] == rows;
  }

  lemma ColumnOfNoRows(t: nat)
    ensures Column([], t) == []
  {
  }

  lemma {:induction false} ColumnWithoutNumber(cells: seq<Cell>, n: nat, t: nat)
    requires Get(cells, t).Missing?
    ensures Column(Repeated(cells, n), t) == []
  {
    hide Column, Get;
    ColumnOfNoRows(t);
    if n > 0 {
      ColumnWithoutNumber(cells, n - 1, t);
      ColumnOfAppend(Repeated(cells, n - 1), cells, t);
    }
  }

  lemma {:induction false} ColumnOfNumber(cells: seq<Cell>, n: nat, t: nat)
    requires Get(cells, t).Number?
    ensures Column(Repeated(cells, n), t) == Repeated(Get(cells, t).value, n)
  {
    hide Column, Get;
    ColumnOfNoRows(t);
    if n > 0 {
      ColumnOfNumber(cells, n - 1, t);
      ColumnOfAppend(Repeated(cells, n - 1), cells, t);
    }
  }

  /* The column of the expanded rows, one row further. */
  lemma ColumnOfNextRow(rows: seq<Row>, t: nat)
    requires rows != []
    ensures var before, row := rows[..|rows| - 1], rows[|rows| - 1];
            Column(Expanded(rows), t) == Column(Expanded(before), t) +
              match Get(row.cells, t)
              case Missing => []
              case Number(v) => Repeated(v, row.multiplicity)
  {
    hide Column, Repeated, Get;
    var before, row := rows[..|rows| - 1], rows[|rows| - 1];
    ColumnOfConcat(Expanded(before), Repeated(row.cells, row.multiplicity), t);
    match Get(row.cells, t)
    case Missing => ColumnWithoutNumber(row.cells, row.multiplicity, t);
    case Number(_) => ColumnOfNumber(row.cells, row.multiplicity, t);
  }

  function Squares(vs: seq<int>): int {
    if vs == [] then 0 else Squares(vs[..|vs| - 1]) + vs[|vs| - 1] * vs[|vs| - 1]
  }

  lemma SumsOfAppend(vs: seq<int>, v: int)
    ensures Total(vs + [v]) == Total(vs) + v && Squares(vs + [v]) == Squares(vs) + v * v
  {
    assert (vs + [v])[..|vs|] == vs;
  }

  lemma OneMoreTime(x: int, n: nat)
    requires n > 0
    ensures x * n == x * (n - 1) + x
  {
  }

  lemma {:induction false} SumsOfRepeated(vs: seq<int>, v: int, n: nat)
    ensures Total(vs + Repeated(v, n)) == Total(vs) + v * n
    ensures Squares(vs + Repeated(v, n)) == Squares(vs) + v * v * n
  {
    hide Total, Squares;
    if n == 0 {
      assert vs + Repeated(v, 0) == vs;
    } else {
      SumsOfRepeated(vs, v, n - 1);
      SumsOfAppend(vs + Repeated(v, n - 1), v);
      assert vs + Repeated(v, n) == (vs + Repeated(v, n - 1)) + [v];
      OneMoreTime(v, n);
      OneMoreTime(v * v, n);
    }
  }

  /******* The accumulators hold the sums of the expanded rows *******/

  /* What an accumulator stands for. */
  ghost predicate Holds(reducer: Reducer, instruction: Instruction, rows: seq<seq<Cell>>) {
    if instruction.DoCount? then reducer == Count(|rows|)
    else HoldsSums(reducer, instruction, Column(rows, instruction.target))
  }

  ghost predicate HoldsSums(reducer: Reducer, instruction: Instruction, vs: seq<int>) {
    match instruction
    case DoCount => true
    case DoCountVar(t) => reducer == CountVar(|vs|, t)
    case DoSum(t) => reducer == Sum(Total(vs), t)
    case DoMin(t) => reducer.Min? && reducer.target == t && IsLeast(Finalised(reducer), vs)
    case DoMax(t) => reducer.Max? && reducer.target == t && IsGreatest(Finalised(reducer), vs)
    case DoMean(t) => reducer == Mean(Total(vs), |vs|, t)
    case DoStd(t) => reducer == Std(Total(vs), Squares(vs), |vs|, t)
  }

  /* Every row once, however often it counts. */
  function Plain(rows: seq<Row>): seq<seq<Cell>> {
    if rows == [] then [] else Plain(rows[..|rows| - 1]) + [rows[|rows| - 1].cells]
  }

  predicate IsExtreme(instruction: Instruction) {
    instruction.DoMin? || instruction.DoMax?
  }

  /* What a reducer looks at: minimum and maximum look at every row, even one that counts zero times. */
  function LookedAt(instruction: Instruction, rows: seq<Row>): seq<seq<Cell>> {
    if IsExtreme(instruction) then Plain(rows) else Expanded(rows)
  }

  lemma SumsForNextRow(rows: seq<Row>, t: nat)
    requires rows != []
    ensures var vs, all, row := Column(Expanded(rows[..|rows| - 1]), t), Column(Expanded(rows), t), rows[|rows| - 1];
            match Get(row.cells, t)
            case Missing => all == vs
            case Number(v) =>
              && |all| == |vs| + row.multiplicity && Total(all) == Total(vs) + v * row.multiplicity
              && Squares(all) == Squares(vs) + v * v * row.multiplicity
  {
    hide Total, Squares, Column, Expanded, Repeated;
    var before, row := rows[..|rows| - 1], rows[|rows| - 1];
    ColumnOfNextRow(rows, t);
    match Get(row.cells, t)
    case Missing =>
    case Number(v) => SumsOfRepeated(Column(Expanded(before), t), v, row.multiplicity);
  }

  lemma ExpandedLength(rows: seq<Row>)
    requires rows != []
    ensures |Expanded(rows)| == |Expanded(rows[..|rows| - 1])| + rows[|rows| - 1].multiplicity
  {
  }

  lemma HoldsForNextRow(instruction: Instruction, reducer: Reducer, rows: seq<Row>)
    requires rows != [] && Holds(reducer, instruction, Expanded(rows[..|rows| - 1]))
    requires !instruction.DoMin? && !instruction.DoMax?
    ensures Holds(Accepted(reducer, rows[|rows| - 1]), instruction, Expanded(rows))
  {
    if instruction.DoCount? {
      hide Expanded;
      ExpandedLength(rows);
    } else {
      hide HoldsSums, Accepted, Column, Expanded, Total, Squares, Get;
      SumsForNextRow(rows, instruction.target);
      AcceptedSums(instruction, reducer, rows[|rows| - 1],
                   Column(Expanded(rows[..|rows| - 1]), instruction.target),
                   Column(Expanded(rows), instruction.target));
    }
  }

  /* The accumulators follow the sums of a column. */
  lemma AcceptedSums(instruction: Instruction, reducer: Reducer, row: Row, vs: seq<int>, all: seq<int>)
    requires !instruction.DoCount? && !instruction.DoMin? && !instruction.DoMax? && HoldsSums(reducer, instruction, vs)
    requires match Get(row.cells, instruction.target)
             case Missing => all == vs
             case Number(v) =>
               && |all| == |vs| + row.multiplicity && Total(all) == Total(vs) + v * row.multiplicity
               && Squares(all) == Squares(vs) + v * v * row.multiplicity
    ensures HoldsSums(Accepted(reducer, row), instruction, all)
  {
    hide Total, Squares, Get;
  }

  lemma AcceptedMin(reducer: Reducer, row: Row, vs: seq<int>)
    requires reducer.Min? && IsLeast(Finalised(reducer), vs)
    ensures var next := Accepted(reducer, row);
            next.Min? && next.target == reducer.target &&
            IsLeast(Finalised(next), vs + InColumn(row.cells, reducer.target))
  {
    hide Get;
    match Get(row.cells, reducer.target)
    case Missing => assert vs + [] == vs;
    case Number(v) => OneMoreNumber(vs, v);
  }

  lemma AcceptedMax(reducer: Reducer, row: Row, vs: seq<int>)
    requires reducer.Max? && IsGreatest(Finalised(reducer), vs)
    ensures var next := Accepted(reducer, row);
            next.Max? && next.target == reducer.target &&
            IsGreatest(Finalised(next), vs + InColumn(row.cells, reducer.target))
  {
    hide Get;
    match Get(row.cells, reducer.target)
    case Missing => assert vs + [] == vs;
    case Number(v) => OneMoreNumber(vs, v);
  }

  lemma OneMoreNumber(vs: seq<int>, v: int)
    ensures forall x :: x in vs + [v] <==> x in vs || x == v
  {
    assert (vs + [v])[|vs|] == v;
  }

  lemma ExtremesForNextRow(instruction: Instruction, reducer: Reducer, rows: seq<Row>)
    requires rows != [] && Holds(reducer, instruction, Plain(rows[..|rows| - 1])) && IsExtreme(instruction)
    ensures Holds(Accepted(reducer, rows[|rows| - 1]), instruction, Plain(rows))
  {
    hide Column, Accepted, Finalised, IsLeast, IsGreatest, InColumn;
    var before, row, t := rows[..|rows| - 1], rows[|rows| - 1], instruction.target;
    ColumnOfAppend(Plain(before), row.cells, t);
    if instruction.DoMin? {
      AcceptedMin(reducer, row, Column(Plain(before), t));
    } else {
      AcceptedMax(reducer, row, Column(Plain(before), t));
    }
  }

  /* Each accumulator holds the sums or the extremes of what it looks at. */
  lemma {:induction false} FoldHolds(instruction: Instruction, rows: seq<Row>)
    ensures Holds(Folded(Fresh(instruction), rows), instruction, LookedAt(instruction, rows))
  {
    if rows != [] {
      FoldHolds(instruction, rows[..|rows| - 1]);
      var reducer := Folded(Fresh(instruction), rows[..|rows| - 1]);
      hide Holds, Accepted, Plain, Expanded;
      if IsExtreme(instruction) {
        ExtremesForNextRow(instruction, reducer, rows);
      } else {
        HoldsForNextRow(instruction, reducer, rows);
      }
    }
  }

  /******* Minimum and maximum of rows that may count zero times *******/

  predicate HasNumber(row: Row, t: nat) {
    Get(row.cells, t).Number?
  }

  function NumberIn(row: Row, t: nat): int
    requires HasNumber(row, t)
  {
    Get(row.cells, t).value
  }

  /* A row that counts and has a number in the column that is at most v. */
  predicate CountsBelow(row: Row, t: nat, v: int) {
    row.multiplicity >= 1 && HasNumber(row, t) && NumberIn(row, t) <= v
  }

  predicate CountsAbove(row: Row, t: nat, v: int) {
    row.multiplicity >= 1 && HasNumber(row, t) && v <= NumberIn(row, t)
  }

  /* For minimum and maximum: every number in the column, counted or not, is matched by one that counts. */
  ghost predicate Covered(instruction: Instruction, rows: seq<Row>) {
    match instruction
    case DoMin(t) => forall i :: 0 <= i < |rows| && HasNumber(rows[i], t) ==>
                       exists j :: 0 <= j < |rows| && CountsBelow(rows[j], t, NumberIn(rows[i], t))
    case DoMax(t) => forall i :: 0 <= i < |rows| && HasNumber(rows[i], t) ==>
                       exists j :: 0 <= j < |rows| && CountsAbove(rows[j], t, NumberIn(rows[i], t))
    case _ => true
  }

  ghost predicate Occurs(rows: seq<Row>, t: nat, v: int) {
    exists i :: 0 <= i < |rows| && Get(rows[i].cells, t) == Number(v)
  }

  ghost predicate OccursCounted(rows: seq<Row>, t: nat, v: int) {
    exists i :: 0 <= i < |rows| && rows[i].multiplicity >= 1 && Get(rows[i].cells, t) == Number(v)
  }

  lemma {:induction false} PlainColumn(rows: seq<Row>, t: nat, v: int)
    ensures v in Column(Plain(rows), t) <==> Occurs(rows, t, v)
  {
    if rows != [] {
      var before, row := rows[..|rows| - 1], rows[|rows| - 1];
      PlainColumn(before, t, v);
      ColumnOfAppend(Plain(before), row.cells, t);
      hide Column, Plain, Get;
      OccursInNext(rows, t, v);
    }
  }

  lemma OccursInNext(rows: seq<Row>, t: nat, v: int)
    requires rows != []
    ensures Occurs(rows, t, v) <==> Occurs(rows[..|rows| - 1], t, v) || Get(rows[|rows| - 1].cells, t) == Number(v)
    ensures OccursCounted(rows, t, v) <==>
            OccursCounted(rows[..|rows| - 1], t, v) ||
            (rows[|rows| - 1].multiplicity >= 1 && Get(rows[|rows| - 1].cells, t) == Number(v))
  {
    hide Get;
    var before, row := rows[..|rows| - 1], rows[|rows| - 1];
    assert rows == before + [row];
    if Occurs(before, t, v) {
      var i :| 0 <= i < |before| && Get(before[i].cells, t) == Number(v);
      assert rows[i] == before[i];
    }
    if OccursCounted(before, t, v) {
      var i :| 0 <= i < |before| && before[i].multiplicity >= 1 && Get(before[i].cells, t) == Number(v);
      assert rows[i] == before[i];
    }
  }

  lemma {:induction false} ExpandedColumn(rows: seq<Row>, t: nat, v: int)
    ensures v in Column(Expanded(rows), t) <==> OccursCounted(rows, t, v)
  {
    if rows != [] {
      var before, row := rows[..|rows| - 1], rows[|rows| - 1];
      ExpandedColumn(before, t, v);
      hide Column, Expanded, Get;
      ColumnOfNextRow(rows, t);
      OccursInNext(rows, t, v);
      match Get(row.cells, t)
      case Missing =>
      case Number(w) => RepeatedHas(w, row.multiplicity, v);
    }
  }

  lemma RepeatedHas(w: int, n: nat, v: int)
    ensures v in Repeated(w, n) <==> n >= 1 && v == w
  {
    if n >= 1 {
      assert Repeated(w, n)[0] == w;
    }
  }

  /* The least of all numbers is the least of those that count exactly when it is one of them. */
  lemma LeastIsLeastCounted(r: Result, all: seq<int>, counted: seq<int>)
    requires IsLeast(r, all) && forall v :: v in counted ==> v in all
    ensures IsLeast(r, counted) <==> forall v :: v in all ==> exists w :: w in counted && w <= v
  {
    if counted != [] {
      var x := counted[0];
      assert x in counted;
      assert x in all;
    }
    assert all != [] ==> r.n in all;
  }

  lemma GreatestIsGreatestCounted(r: Result, all: seq<int>, counted: seq<int>)
    requires IsGreatest(r, all) && forall v :: v in counted ==> v in all
    ensures IsGreatest(r, counted) <==> forall v :: v in all ==> exists w :: w in counted && v <= w
  {
    if counted != [] {
      var x := counted[0];
      assert x in counted;
      assert x in all;
    }
    assert all != [] ==> r.n in all;
  }

  lemma ColumnsOf(rows: seq<Row>, t: nat)
    ensures forall v :: v in Column(Plain(rows), t) <==> Occurs(rows, t, v)
    ensures forall v :: v in Column(Expanded(rows), t) <==> OccursCounted(rows, t, v)
    ensures forall v :: v in Column(Expanded(rows), t) ==> v in Column(Plain(rows), t)
  {
    forall v
      ensures v in Column(Plain(rows), t) <==> Occurs(rows, t, v)
      ensures v in Column(Expanded(rows), t) <==> OccursCounted(rows, t, v)
    {
      PlainColumn(rows, t, v);
      ExpandedColumn(rows, t, v);
    }
  }

  lemma CoveredFromBelow(rows: seq<Row>, t: nat)
    ensures Covered(DoMin(t), rows) <==>
            forall v :: Occurs(rows, t, v) ==> exists w :: OccursCounted(rows, t, w) && w <= v
  {
    if Covered(DoMin(t), rows) {
      forall v | Occurs(rows, t, v) ensures exists w :: OccursCounted(rows, t, w) && w <= v {
        var w := MatchedFromBelow(rows, t, v);
      }
    }
    if forall v :: Occurs(rows, t, v) ==> exists w :: OccursCounted(rows, t, w) && w <= v {
      forall i | 0 <= i < |rows| && HasNumber(rows[i], t)
        ensures exists j :: 0 <= j < |rows| && CountsBelow(rows[j], t, NumberIn(rows[i], t))
      {
        hide Get;
        assert Occurs(rows, t, NumberIn(rows[i], t));
        var w :| OccursCounted(rows, t, w) && w <= NumberIn(rows[i], t);
        CountedRowBelow(rows, t, w, NumberIn(rows[i], t));
      }
    }
  }

  lemma MatchedFromBelow(rows: seq<Row>, t: nat, v: int) returns (w: int)
    requires Covered(DoMin(t), rows) && Occurs(rows, t, v)
    ensures OccursCounted(rows, t, w) && w <= v
  {
    hide Get;
    var i :| 0 <= i < |rows| && Get(rows[i].cells, t) == Number(v);
    assert HasNumber(rows[i], t);
    var j :| 0 <= j < |rows| && CountsBelow(rows[j], t, NumberIn(rows[i], t));
    w := NumberIn(rows[j], t);
    assert OccursCounted(rows, t, w);
  }

  lemma CountedRowBelow(rows: seq<Row>, t: nat, w: int, v: int)
    requires OccursCounted(rows, t, w) && w <= v
    ensures exists j :: 0 <= j < |rows| && CountsBelow(rows[j], t, v)
  {
    hide Get;
    var j :| 0 <= j < |rows| && rows[j].multiplicity >= 1 && Get(rows[j].cells, t) == Number(w);
    assert CountsBelow(rows[j], t, v);
  }

  lemma CoveredFromAbove(rows: seq<Row>, t: nat)
    ensures Covered(DoMax(t), rows) <==>
            forall v :: Occurs(rows, t, v) ==> exists w :: OccursCounted(rows, t, w) && v <= w
  {
    if Covered(DoMax(t), rows) {
      forall v | Occurs(rows, t, v) ensures exists w :: OccursCounted(rows, t, w) && v <= w {
        var w := MatchedFromAbove(rows, t, v);
      }
    }
    if forall v :: Occurs(rows, t, v) ==> exists w :: OccursCounted(rows, t, w) && v <= w {
      forall i | 0 <= i < |rows| && HasNumber(rows[i], t)
        ensures exists j :: 0 <= j < |rows| && CountsAbove(rows[j], t, NumberIn(rows[i], t))
      {
        hide Get;
        assert Occurs(rows, t, NumberIn(rows[i], t));
        var w :| OccursCounted(rows, t, w) && NumberIn(rows[i], t) <= w;
        CountedRowAbove(rows, t, w, NumberIn(rows[i], t));
      }
    }
  }

  lemma MatchedFromAbove(rows: seq<Row>, t: nat, v: int) returns (w: int)
    requires Covered(DoMax(t), rows) && Occurs(rows, t, v)
    ensures OccursCounted(rows, t, w) && v <= w
  {
    hide Get;
    var i :| 0 <= i < |rows| && Get(rows[i].cells, t) == Number(v);
    assert HasNumber(rows[i], t);
    var j :| 0 <= j < |rows| && CountsAbove(rows[j], t, NumberIn(rows[i], t));
    w := NumberIn(rows[j], t);
    assert OccursCounted(rows, t, w);
  }

  lemma CountedRowAbove(rows: seq<Row>, t: nat, w: int, v: int)
    requires OccursCounted(rows, t, w) && v <= w
    ensures exists j :: 0 <= j < |rows| && CountsAbove(rows[j], t, v)
  {
    hide Get;
    var j :| 0 <= j < |rows| && rows[j].multiplicity >= 1 && Get(rows[j].cells, t) == Number(w);
    assert CountsAbove(rows[j], t, v);
  }

  lemma ExtremeIsStatisticIffCovered(instruction: Instruction, rows: seq<Row>)
    requires IsExtreme(instruction)
    ensures Correct(instruction, Finalised(Folded(Fresh(instruction), rows)), Expanded(rows)) <==>
            Covered(instruction, rows)
  {
    var t := instruction.target;
    FoldHolds(instruction, rows);
    ColumnsOf(rows, t);
    var r := Finalised(Folded(Fresh(instruction), rows));
    var all, counted := Column(Plain(rows), t), Column(Expanded(rows), t);
    hide Folded, Fresh, Column, Plain, Expanded, Covered, Occurs, OccursCounted, Finalised;
    if instruction.DoMin? {
      assert IsLeast(r, all);
      hide IsLeast;
      LeastIsLeastCounted(r, all, counted);
      CoveredFromBelow(rows, t);
    } else {
      assert IsGreatest(r, all);
      hide IsGreatest;
      GreatestIsGreatestCounted(r, all, counted);
      CoveredFromAbove(rows, t);
    }
  }

  /******* The variance *******/

  lemma DeviationStep(q: real, n: real, s: real, v: real, m: real)
    ensures (q + n * m * m - 2.0 * s * m) + (v - m) * (v - m) == (q + v * v) + (n + 1.0) * m * m - 2.0 * (s + v) * m
  {
    assert (v - m) * (v - m) == v * v - 2.0 * v * m + m * m;
    assert (n + 1.0) * m * m == n * m * m + m * m;
    assert 2.0 * (s + v) * m == 2.0 * s * m + 2.0 * v * m;
  }

  lemma SquareIsNonNegative(x: real)
    ensures x * x >= 0.0
  {
    if x < 0.0 {
      assert x * x == (-x) * (-x);
    }
  }

  /* The squared deviations from m, by the sums alone. */
  function BySums(vs: seq<int>, m: real): real {
    Squares(vs) as real + |vs| as real * m * m - 2.0 * Total(vs) as real * m
  }

  lemma BySumsOfAppend(vs: seq<int>, v: int, m: real)
    ensures BySums(vs + [v], m) == BySums(vs, m) + (v as real - m) * (v as real - m)
  {
    hide Total, Squares;
    SumsOfAppend(vs, v);
    DeviationStep(Squares(vs) as real, |vs| as real, Total(vs) as real, v as real, m);
    CastOfSquare(v);
  }

  lemma CastOfSquare(v: int)
    ensures (v * v) as real == v as real * v as real
  {
  }

  lemma {:induction false} DeviationsBySums(vs: seq<int>, m: real)
    ensures SquaredDeviations(vs, m) == BySums(vs, m) && SquaredDeviations(vs, m) >= 0.0
  {
    hide BySums;
    if vs == [] {
      NoDeviations(m);
    } else {
      var before, v := vs[..|vs| - 1], vs[|vs| - 1];
      DeviationsBySums(before, m);
      assert vs == before + [v];
      BySumsOfAppend(before, v, m);
      SquareIsNonNegative(v as real - m);
    }
  }

  lemma NoDeviations(m: real)
    ensures BySums([], m) == 0.0
  {
  }

  lemma QuotientIsNonNegative(a: real, b: real)
    requires a >= 0.0 && b > 0.0
    ensures a / b >= 0.0
  {
  }

  /* The formula computed from the sums is the sum of squared deviations over n - 1, and never negative. */
  lemma VarianceFormula(vs: seq<int>)
    requires |vs| > 1
    ensures Variance(Total(vs), Squares(vs), |vs|) == SquaredDeviations(vs, Average(vs)) / (|vs| - 1) as real
    ensures Variance(Total(vs), Squares(vs), |vs|) >= 0.0
  {
    hide SquaredDeviations, Total, Squares;
    DeviationsBySums(vs, Average(vs));
    QuotientIsNonNegative(SquaredDeviations(vs, Average(vs)), (|vs| - 1) as real);
  }

  /* Whatever the multiplicities, each reducer's result is the statistic of the rows written out one by one;
     minimum and maximum if and only if every number is matched by one that counts. */
  lemma ReductionIsStatistic(instruction: Instruction, rows: seq<Row>)
    ensures Correct(instruction, Finalised(Folded(Fresh(instruction), rows)), Expanded(rows)) <==>
            Covered(instruction, rows)
    ensures !IsExtreme(instruction) ==> Covered(instruction, rows)
  {
    if IsExtreme(instruction) {
      ExtremeIsStatisticIffCovered(instruction, rows);
    } else {
      SumsAreStatistics(instruction, rows);
    }
  }

  lemma SumsAreStatistics(instruction: Instruction, rows: seq<Row>)
    requires !IsExtreme(instruction)
    ensures Correct(instruction, Finalised(Folded(Fresh(instruction), rows)), Expanded(rows))
  {
    hide Folded, Fresh, Column, Expanded, Total, Squares, SquaredDeviations, Variance;
    FoldHolds(instruction, rows);
    if instruction.DoStd? {
      var vs := Column(Expanded(rows), instruction.target);
      if |vs| > 1 {
        VarianceFormula(vs);
      }
    } else if instruction.DoMean? {
      hide Holds;
      MeanIsAverage(Column(Expanded(rows), instruction.target), instruction.target);
    }
  }

  lemma MeanIsAverage(vs: seq<int>, t: nat)
    ensures Finalised(Mean(Total(vs), |vs|, t)) == if vs == [] then Nothing else Exact(Average(vs))
  {
    hide Total;
  }

  /******* Distinct, and an offset after it *******/

  /* What a distinct stage hands on: the first of equal rows counts once, its repetitions count zero times. */
  function Distinct(rows: seq<Row>): (r: seq<Row>)
    ensures |r| == |rows|
  {
    if rows == [] then []
    else
      var before, row := rows[..|rows| - 1], rows[|rows| - 1];
      var repeated := exists i :: 0 <= i < |before| && before[i].cells == row.cells;
      Distinct(before) + [Row(row.cells, if repeated then 0 else 1)]
  }

  /* Row by row: a row counts once if no earlier row has its cells, and not at all otherwise. */
  lemma {:induction false} DistinctAt(rows: seq<Row>, i: nat)
    requires i < |rows|
    ensures Distinct(rows)[i] ==
            Row(rows[i].cells, if exists j :: 0 <= j < i && rows[j].cells == rows[i].cells then 0 else 1)
  {
    var last := |rows| - 1;
    assert forall j :: 0 <= j < last ==> rows[..last][j] == rows[j];
    if i < last {
      DistinctAt(rows[..last], i);
    }
  }

  lemma {:induction false} DistinctCountsFirst(rows: seq<Row>, i: nat)
    requires i < |rows|
    ensures Distinct(rows)[i].cells == rows[i].cells
    ensures exists j :: 0 <= j < |rows| && Distinct(rows)[j] == Row(rows[i].cells, 1)
  {
    var before, last := rows[..|rows| - 1], |rows| - 1;
    var k := if i < last then Some(i)
             else if j :| 0 <= j < last && before[j].cells == rows[i].cells then Some(j)
             else None;
    if k.Some? {
      DistinctCountsFirst(before, k.value);
      var j :| 0 <= j < |before| && Distinct(before)[j] == Row(rows[i].cells, 1);
      assert Distinct(rows)[j] == Distinct(before)[j];
    } else {
      assert Distinct(rows)[i] == Row(rows[i].cells, 1);
    }
  }

  /* Straight after a distinct stage all reductions are right. */
  lemma DistinctIsCovered(instruction: Instruction, rows: seq<Row>)
    ensures Covered(instruction, Distinct(rows))
  {
    if IsExtreme(instruction) {
      var t, distinct := instruction.target, Distinct(rows);
      hide Distinct, Get;
      forall i | 0 <= i < |distinct| && HasNumber(distinct[i], t)
        ensures exists j :: 0 <= j < |distinct| && CountsBelow(distinct[j], t, NumberIn(distinct[i], t))
        ensures exists j :: 0 <= j < |distinct| && CountsAbove(distinct[j], t, NumberIn(distinct[i], t))
      {
        DistinctCountsFirst(rows, i);
        var j :| 0 <= j < |distinct| && distinct[j] == Row(distinct[i].cells, 1);
        assert CountsBelow(distinct[j], t, NumberIn(distinct[i], t));
        assert CountsAbove(distinct[j], t, NumberIn(distinct[i], t));
      }
    }
  }

  /* Not so after an offset, which drops rows whatever they count: of 5, 5 and 7 it may drop the 5 that
     counts and keep the one that does not. */
  lemma OffsetMayUncountTheMinimum()
    ensures var five, seven := Row([Number(5)], 1), Row([Number(7)], 1);
            var rows := Distinct([five, five, seven])[1..];
            Finalised(Folded(Fresh(DoMin(0)), rows)) == Whole(5) && Column(Expanded(rows), 0) == [7]
  {
    var five, seven := Row([Number(5)], 1), Row([Number(7)], 1);
    DistinctFivesAndSeven(five, seven);
    var rows := [Row([Number(5)], 0), seven];
    assert rows == Distinct([five, five, seven])[1..];
    ReduceFiveAndSeven(rows);
  }

  lemma DistinctFivesAndSeven(five: Row, seven: Row)
    requires five == Row([Number(5)], 1) && seven == Row([Number(7)], 1)
    ensures Distinct([five, five, seven]) == [five, Row([Number(5)], 0), seven]
  {
    assert [five][..0] == [];
    assert Distinct([five]) == [five];
    assert [five, five][..1] == [five] && [five][0].cells == five.cells;
    assert Distinct([five, five]) == [five, Row([Number(5)], 0)];
    assert [five, five, seven][..2] == [five, five];
    assert five.cells[0] != seven.cells[0];
  }

  lemma ReduceFiveAndSeven(rows: seq<Row>)
    requires rows == [Row([Number(5)], 0), Row([Number(7)], 1)]
    ensures Finalised(Folded(Fresh(DoMin(0)), rows)) == Whole(5) && Column(Expanded(rows), 0) == [7]
  {
    var before := [rows[0]];
    assert rows[..1] == before && before[..0] == [];
    FoldedOfOne(Fresh(DoMin(0)), rows[0]);
    assert Folded(Fresh(DoMin(0)), before) == Min(Some(5), 0);
    assert Folded(Fresh(DoMin(0)), rows) == Accepted(Min(Some(5), 0), rows[1]);
    assert Expanded(before) == Expanded([]) + Repeated(rows[0].cells, 0) == [];
    ColumnOfNoRows(0);
    ColumnOfNextRow(rows, 0);
    assert Repeated(7, 1) == Repeated(7, 0) + [7] == [7];
  }

  /******* The order of rows does not matter *******/

  lemma AcceptCommutes(reducer: Reducer, a: Row, b: Row)
    ensures Accepted(Accepted(reducer, a), b) == Accepted(Accepted(reducer, b), a)
  {
  }

  lemma {:induction false} AcceptedLast(reducer: Reducer, row: Row, rows: seq<Row>)
    ensures Folded(Accepted(reducer, row), rows) == Accepted(Folded(reducer, rows), row)
  {
    if rows != [] {
      AcceptedLast(reducer, row, rows[..|rows| - 1]);
      AcceptCommutes(Folded(reducer, rows[..|rows| - 1]), row, rows[|rows| - 1]);
    }
  }

  lemma {:induction false} FoldedOfConcat(reducer: Reducer, a: seq<Row>, b: seq<Row>)
    ensures Folded(reducer, a + b) == Folded(Folded(reducer, a), b)
  {
    if b == [] {
      assert a + b == a;
    } else {
      FoldedOfConcat(reducer, a, b[..|b| - 1]);
      assert (a + b)[..|a + b| - 1] == a + b[..|b| - 1];
    }
  }

  lemma FoldedWithOneLast(reducer: Reducer, rows: seq<Row>, i: nat)
    requires i < |rows|
    ensures Folded(reducer, rows) == Accepted(Folded(reducer, rows[..i] + rows[i + 1..]), rows[i])
  {
    hide Accepted, Folded;
    var a, row, b := rows[..i], rows[i], rows[i + 1..];
    assert rows == a + ([row] + b);
    FoldedOfConcat(reducer, a, b);
    FoldedOfConcat(reducer, a, [row] + b);
    FoldedOfConcat(Folded(reducer, a), [row], b);
    FoldedOfOne(Folded(reducer, a), row);
    AcceptedLast(Folded(reducer, a), row, b);
  }

  lemma FoldedOfOne(reducer: Reducer, row: Row)
    ensures Folded(reducer, [row]) == Accepted(reducer, row)
  {
    assert [row][..0] == [];
  }

  lemma WithoutOne(rows: seq<Row>, i: nat)
    requires i < |rows|
    ensures multiset(rows) == multiset(rows[..i] + rows[i + 1..]) + multiset{rows[i]}
  {
    assert rows == rows[..i] + ([rows[i]] + rows[i + 1..]);
  }

  lemma {:induction false} OrderDoesNotMatter(reducer: Reducer, rows: seq<Row>, others: seq<Row>)
    requires multiset(rows) == multiset(others)
    ensures Folded(reducer, rows) == Folded(reducer, others)
    decreases |rows|
  {
    hide Accepted, Folded;
    assert |rows| == |multiset(rows)| == |multiset(others)| == |others|;
    if rows != [] {
      var n := |rows| - 1;
      assert rows[n] in multiset(others);
      var i :| 0 <= i < |others| && others[i] == rows[n];
      WithoutOne(rows, n);
      WithoutOne(others, i);
      assert multiset(rows[..n] + rows[n + 1..]) == multiset(rows) - multiset{rows[n]};
      assert multiset(others[..i] + others[i + 1..]) == multiset(others) - multiset{rows[n]};
      OrderDoesNotMatter(reducer, rows[..n] + rows[n + 1..], others[..i] + others[i + 1..]);
      FoldedWithOneLast(reducer, rows, n);
      FoldedWithOneLast(reducer, others, i);
    }
  }
}
