/** SQL aggregates over nullable columns: NULL inputs are skipped, an empty input gives NULL. */
module Aggregates {
  import opened Wrappers

  function Plus(a: Option<int>, b: Option<int>): Option<int> {
    if a.None? then b else if b.None? then a else Some(a.value + b.value)
  }

  function PlusReal(a: Option<real>, b: Option<real>): Option<real> {
    if a.None? then b else if b.None? then a else Some(a.value + b.value)
  }

  function Least(a: Option<int>, b: Option<int>): Option<int> {
    if a.None? then b else if b.None? then a else if b.value < a.value then b else a
  }

  function Greatest(a: Option<int>, b: Option<int>): Option<int> {
    if a.None? then b else if b.None? then a else if b.value > a.value then b else a
  }

  function Sum(column: seq<Option<int>>): Option<int> {
    if column == [] then None else Plus(Sum(column[..|column| - 1]), column[|column| - 1])
  }

  function SumReal(column: seq<Option<real>>): Option<real> {
    if column == [] then None else PlusReal(SumReal(column[..|column| - 1]), column[|column| - 1])
  }

  function Min(column: seq<Option<int>>): Option<int> {
    if column == [] then None else Least(Min(column[..|column| - 1]), column[|column| - 1])
  }

  function Max(column: seq<Option<int>>): Option<int> {
    if column == [] then None else Greatest(Max(column[..|column| - 1]), column[|column| - 1])
  }

  /** COUNT(column): the non-NULL entries. */
  function Count<T>(column: seq<Option<T>>): nat {
    if column == [] then 0
    else Count(column[..|column| - 1]) + (if column[|column| - 1].Some? then 1 else 0)
  }

  function Coalesce(a: Option<int>, default: int): int {
    if a.Some? then a.value else default
  }

  /** a / NULLIF(b, 0) */
  function Ratio(a: Option<real>, b: Option<int>): Option<real> {
    if a.None? || b.None? || b.value == 0 then None else Some(a.value / b.value as real)
  }

  function AsReal(a: Option<int>): Option<real> {
    if a.None? then None else Some(a.value as real)
  }

  /** AVG(column): the mean of the non-NULL entries. */
  function Avg(column: seq<Option<int>>): Option<real> {
    if Count(column) == 0 then None else Ratio(AsReal(Sum(column)), Some(Count(column)))
  }

  function AvgReal(column: seq<Option<real>>): Option<real> {
    if Count(column) == 0 then None else Ratio(SumReal(column), Some(Count(column)))
  }

  lemma {:induction false} SumPresent(column: seq<Option<int>>)
    ensures Sum(column).Some? <==> Count(column) > 0
  {
    if column != [] { SumPresent(column[..|column| - 1]); }
  }

  lemma {:induction false} SumRealPresent(column: seq<Option<real>>)
    ensures SumReal(column).Some? <==> Count(column) > 0
  {
    if column != [] { SumRealPresent(column[..|column| - 1]); }
  }

  /** A column of a table. */
  function Column<R, V>(rows: seq<R>, field: R -> V): (column: seq<V>)
    ensures |column| == |rows| && forall i | 0 <= i < |rows| :: column[i] == field(rows[i])
  {
    seq(|rows|, i requires 0 <= i < |rows| => field(rows[i]))
  }

  lemma ColumnAppend<R, V>(rows: seq<R>, row: R, field: R -> V)
    ensures Column(rows + [row], field) == Column(rows, field) + [field(row)]
  {
  }

  lemma LastOf<V>(column: seq<V>, v: V)
    ensures (column + [v])[..|column|] == column
  {
  }

  lemma SumAppend<R>(rows: seq<R>, row: R, field: R -> Option<int>)
    ensures Sum(Column(rows + [row], field)) == Plus(Sum(Column(rows, field)), field(row))
  {
    ColumnAppend(rows, row, field);
    LastOf(Column(rows, field), field(row));
  }

  lemma SumRealAppend<R>(rows: seq<R>, row: R, field: R -> Option<real>)
    ensures SumReal(Column(rows + [row], field)) == PlusReal(SumReal(Column(rows, field)), field(row))
  {
    ColumnAppend(rows, row, field);
    LastOf(Column(rows, field), field(row));
  }

  lemma MinAppend<R>(rows: seq<R>, row: R, field: R -> Option<int>)
    ensures Min(Column(rows + [row], field)) == Least(Min(Column(rows, field)), field(row))
  {
    ColumnAppend(rows, row, field);
    LastOf(Column(rows, field), field(row));
  }

  lemma MaxAppend<R>(rows: seq<R>, row: R, field: R -> Option<int>)
    ensures Max(Column(rows + [row], field)) == Greatest(Max(Column(rows, field)), field(row))
  {
    ColumnAppend(rows, row, field);
    LastOf(Column(rows, field), field(row));
  }

  lemma CountAppend<R, V>(rows: seq<R>, row: R, field: R -> Option<V>)
    ensures Count(Column(rows + [row], field)) == Count(Column(rows, field)) + (if field(row).Some? then 1 else 0)
  {
    ColumnAppend(rows, row, field);
    LastOf(Column(rows, field), field(row));
  }

  /** WHERE keep */
  function Where<R>(rows: seq<R>, keep: R -> bool): seq<R> {
    if rows == [] then []
    else
      var kept, last := Where(rows[..|rows| - 1], keep), rows[|rows| - 1];
      if keep(last) then kept + [last] else kept
  }

  lemma WhereAppend<R>(rows: seq<R>, row: R, keep: R -> bool)
    ensures Where(rows + [row], keep) == if keep(row) then Where(rows, keep) + [row] else Where(rows, keep)
  {
    LastOf(rows, row);
  }

  lemma {:induction false} WhereMember<R>(rows: seq<R>, keep: R -> bool, r: R)
    ensures r in Where(rows, keep) <==> r in rows && keep(r)
  {
    if rows != [] {
      var init, last := rows[..|rows| - 1], rows[|rows| - 1];
      WhereMember(init, keep, r);
      assert rows == init + [last];
    }
  }

  /** Two filters in a row are one filter. */
  lemma {:induction false} WhereBoth<R>(rows: seq<R>, p: R -> bool, q: R -> bool, both: R -> bool)
    requires forall r | r in rows :: both(r) <==> p(r) && q(r)
    ensures Where(Where(rows, p), q) == Where(rows, both)
  {
    if rows != [] {
      var init, last := rows[..|rows| - 1], rows[|rows| - 1];
      WhereBoth(init, p, q, both);
      assert last in rows;
      WhereAppend(Where(init, p), last, q);
    }
  }

  lemma {:induction false} WhereAgree<R>(rows: seq<R>, p: R -> bool, q: R -> bool)
    requires forall r | r in rows :: p(r) == q(r)
    ensures Where(rows, p) == Where(rows, q)
  {
    if rows != [] { WhereAgree(rows[..|rows| - 1], p, q); }
  }

  lemma {:induction false} WhereNone<R>(rows: seq<R>, p: R -> bool)
    requires forall r | r in rows :: !p(r)
    ensures Where(rows, p) == []
  {
    if rows != [] { WhereNone(rows[..|rows| - 1], p); }
  }


  // ---------- what the aggregates are ----------

  /** The positions of the present entries. */
  function Present<T>(column: seq<Option<T>>): set<int> {
    set i | 0 <= i < |column| && column[i].Some?
  }

  lemma {:induction false} CountIsPresent<T>(column: seq<Option<T>>)
    ensures Count(column) == |Present(column)|
  {
    if column != [] {
      var n := |column| - 1;
      CountIsPresent(column[..n]);
      assert Present(column) == Present(column[..n]) + if column[n].Some? then {n} else {};
    }
  }

  lemma NonePresent<T>(column: seq<Option<T>>)
    ensures Present(column) == {} <==> forall v | v in column :: v.None?
  {
    if forall v | v in column :: v.None? {
      assert forall i | 0 <= i < |column| :: column[i] in column;
    } else {
      var v :| v in column && v.Some?;
      var i :| 0 <= i < |column| && column[i] == v;
      assert i in Present(column);
    }
  }

  /** MIN is NULL exactly for a column without values, and otherwise one of them that none is below. */
  lemma {:induction false} MinIsLeast(column: seq<Option<int>>)
    ensures Min(column).None? <==> forall v | v in column :: v.None?
    ensures Min(column).Some? ==> Min(column) in column
    ensures forall v | v in column && v.Some? :: Min(column).Some? && Min(column).value <= v.value
  {
    if column != [] {
      var init, last := column[..|column| - 1], column[|column| - 1];
      assert column == init + [last];
      MinIsLeast(init);
    }
  }

  /** MAX is NULL exactly for a column without values, and otherwise one of them that none is above. */
  lemma {:induction false} MaxIsGreatest(column: seq<Option<int>>)
    ensures Max(column).None? <==> forall v | v in column :: v.None?
    ensures Max(column).Some? ==> Max(column) in column
    ensures forall v | v in column && v.Some? :: Max(column).Some? && v.value <= Max(column).value
  {
    if column != [] {
      var init, last := column[..|column| - 1], column[|column| - 1];
      assert column == init + [last];
      MaxIsGreatest(init);
    }
  }

  /** A sum of zeros is zero, and NULL exactly without values. */
  lemma {:induction false} SumOfZeros(column: seq<Option<int>>)
    requires forall v | v in column && v.Some? :: v.value == 0
    ensures Sum(column) == if Present(column) == {} then None else Some(0)
  {
    SumPresent(column);
    CountIsPresent(column);
    if column != [] {
      var init, last := column[..|column| - 1], column[|column| - 1];
      assert column == init + [last];
      SumOfZeros(init);
      SumPresent(init);
      CountIsPresent(init);
    }
  }

  /** Raising one value raises the sum by as much; with SumOfZeros this fixes every sum. */
  lemma {:induction false} SumShift(column: seq<Option<int>>, i: nat, x: int)
    requires i < |column| && column[i].Some?
    ensures Sum(column).Some?
    ensures Sum(column[i := Some(x)]) == Some(Sum(column).value + x - column[i].value)
  {
    var n := |column| - 1;
    if i < n {
      SumShift(column[..n], i, x);
      assert column[i := Some(x)][..n] == column[..n][i := Some(x)];
    } else {
      assert column[i := Some(x)][..n] == column[..n];
    }
  }

  lemma {:induction false} SumRealOfZeros(column: seq<Option<real>>)
    requires forall v | v in column && v.Some? :: v.value == 0.0
    ensures SumReal(column) == if Present(column) == {} then None else Some(0.0)
  {
    SumRealPresent(column);
    CountIsPresent(column);
    if column != [] {
      var init, last := column[..|column| - 1], column[|column| - 1];
      assert column == init + [last];
      SumRealOfZeros(init);
      SumRealPresent(init);
      CountIsPresent(init);
    }
  }

  lemma {:induction false} SumRealShift(column: seq<Option<real>>, i: nat, x: real)
    requires i < |column| && column[i].Some?
    ensures SumReal(column).Some?
    ensures SumReal(column[i := Some(x)]) == Some(SumReal(column).value + x - column[i].value)
  {
    var n := |column| - 1;
    if i < n {
      SumRealShift(column[..n], i, x);
      assert column[i := Some(x)][..n] == column[..n][i := Some(x)];
    } else {
      assert column[i := Some(x)][..n] == column[..n];
    }
  }

  /** `average` is the mean of some values: NULL without any, else their sum over their number. */
  ghost predicate IsMean(average: Option<real>, sum: Option<real>, values: nat) {
    && (average.Some? <==> values > 0)
    && (average.Some? ==> sum.Some? && average.value * values as real == sum.value)
  }

  /** AVG is NULL exactly without values, and otherwise times their number gives their sum. */
  lemma AverageIs(column: seq<Option<int>>)
    ensures Avg(column).Some? <==> Present(column) != {}
    ensures Avg(column).Some? ==> Sum(column).Some? && Avg(column).value * |Present(column)| as real == Sum(column).value as real
  {
    CountIsPresent(column);
    SumPresent(column);
  }

  lemma AverageRealIs(column: seq<Option<real>>)
    ensures AvgReal(column).Some? <==> Present(column) != {}
    ensures AvgReal(column).Some? ==>
      SumReal(column).Some? && AvgReal(column).value * |Present(column)| as real == SumReal(column).value
  {
    CountIsPresent(column);
    SumRealPresent(column);
  }

  /** Filtering keeps every occurrence of the rows it keeps, and no other row. */
  lemma {:induction false} WhereKeeps<R>(rows: seq<R>, keep: R -> bool, r: R)
    ensures multiset(Where(rows, keep))[r] == if keep(r) then multiset(rows)[r] else 0
  {
    if rows != [] {
      var init, last := rows[..|rows| - 1], rows[|rows| - 1];
      assert rows == init + [last];
      WhereKeeps(init, keep, r);
    }
  }

  function Positions<R>(rows: seq<R>, keep: R -> bool): set<int> {
    set i | 0 <= i < |rows| && keep(rows[i])
  }

  /** As many rows are kept as there are positions whose row is kept. */
  lemma {:induction false} WhereSize<R>(rows: seq<R>, keep: R -> bool)
    ensures |Where(rows, keep)| == |Positions(rows, keep)|
  {
    if rows != [] {
      var n := |rows| - 1;
      WhereSize(rows[..n], keep);
      assert Positions(rows, keep) == Positions(rows[..n], keep) + if keep(rows[n]) then {n} else {};
    }
  }
}
