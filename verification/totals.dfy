/**
  The total of hours shown under the table:
  `filtrados.reduce((sum, r) => sum + r.cantidadHoras, 0)`.
 */
module Totals {
  import opened JsValues
  import opened Records

  /** `reduce` from the left, starting at `acc`. */
  function SumFrom(acc: Hours, rs: seq<Record>): Hours
    decreases |rs|
  {
    if rs == [] then acc else SumFrom(Add(acc, rs[0].cantidadHoras), rs[1..])
  }

  /** The reduction the script performs, starting from 0. */
  function Total(rs: seq<Record>): Hours
  {
    SumFrom(Num(0.0), rs)
  }

  // ---- An independent reference definition ----

  /** Some record's hours are NaN (an unparsable or missing hours value). */
  ghost predicate AnyNaN(rs: seq<Record>)
  {
    exists i :: 0 <= i < |rs| && rs[i].cantidadHoras.NaN?
  }

  /** The mathematical sum of the numeric hours, counted from the right. */
  ghost function RealSum(rs: seq<Record>): real
    decreases |rs|
  {
    if rs == [] then 0.0
    else
      var last := rs[|rs| - 1].cantidadHoras;
      RealSum(rs[..|rs| - 1]) + (if last.Num? then last.v else 0.0)
  }

  lemma {:induction false} RealSumAppend(a: seq<Record>, b: seq<Record>)
    ensures RealSum(a + b) == RealSum(a) + RealSum(b)
    decreases |b|
  {
    if b == [] {
      assert a + b == a;
    } else {
      var n := |b| - 1;
      RealSumAppend(a, b[..n]);
      assert (a + b)[..|a + b| - 1] == a + b[..n];
      assert (a + b)[|a + b| - 1] == b[n];
    }
  }

  lemma {:induction false} SumFromSpec(acc: Hours, rs: seq<Record>)
    ensures SumFrom(acc, rs) == if acc.NaN? || AnyNaN(rs) then NaN else Num(acc.v + RealSum(rs))
    decreases |rs|
  {
    if rs != [] {
      var tail := rs[1..];
      SumFromSpec(Add(acc, rs[0].cantidadHoras), tail);
      assert rs == [rs[0]] + tail;
      RealSumAppend([rs[0]], tail);
      assert [rs[0]][..0] == [];
      if AnyNaN(tail) {
        var i :| 0 <= i < |tail| && tail[i].cantidadHoras.NaN?;
        assert rs[i + 1] == tail[i];
      }
      if AnyNaN(rs) && !rs[0].cantidadHoras.NaN? {
        var i :| 0 <= i < |rs| && rs[i].cantidadHoras.NaN?;
        assert tail[i - 1] == rs[i];
      }
    }
  }

  /**
    The total is NaN exactly when some summed record has NaN hours; otherwise it
    is the sum of all their hours (0 for no records).
   */
  lemma TotalSpec(rs: seq<Record>)
    ensures Total(rs).NaN? <==> AnyNaN(rs)
    ensures Total(rs).Num? ==> Total(rs).v == RealSum(rs)
    ensures rs == [] ==> Total(rs) == Num(0.0)
  {
    SumFromSpec(Num(0.0), rs);
  }

  /** The total of two blocks of records is the sum of their totals. */
  lemma TotalAppend(a: seq<Record>, b: seq<Record>)
    ensures Total(a + b) == Add(Total(a), Total(b))
  {
    TotalSpec(a);
    TotalSpec(b);
    TotalSpec(a + b);
    RealSumAppend(a, b);
    if AnyNaN(a) {
      var i :| 0 <= i < |a| && a[i].cantidadHoras.NaN?;
      assert (a + b)[i] == a[i];
    }
    if AnyNaN(b) {
      var i :| 0 <= i < |b| && b[i].cantidadHoras.NaN?;
      assert (a + b)[|a| + i] == b[i];
    }
    if AnyNaN(a + b) {
      var i :| 0 <= i < |a + b| && (a + b)[i].cantidadHoras.NaN?;
      if i < |a| {
        assert a[i] == (a + b)[i];
      } else {
        assert b[i - |a|] == (a + b)[i];
      }
    }
  }

  /** Sums a list of totals from the left, as the page totals would be added. */
  function AddAll(hs: seq<Hours>): Hours
    decreases |hs|
  {
    if hs == [] then Num(0.0) else Add(AddAll(hs[..|hs| - 1]), hs[|hs| - 1])
  }
}
