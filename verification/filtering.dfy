/**
  The three filter inputs of the logbook view and the record filter they drive
  (`registros.filter(...)` in `mostrarRegistros`).
 */
module Filtering {
  import opened JsValues
  import opened Records

  /** The values of the date, month and activity filter inputs; "" switches a criterion off. */
  datatype Criteria = Criteria(fecha: string, mes: string, actividad: string)

  const NoCriteria := Criteria("", "", "")

  predicate DateOk(r: Record, c: Criteria)
  {
    c.fecha == "" || r.fecha == Str(c.fecha)
  }

  predicate MonthOk(r: Record, c: Criteria)
  {
    c.mes == "" || r.mes == Str(c.mes)
  }

  /**
    The activity test on a record whose activity is defined: the lower-cased
    filter occurs in the lower-cased activity. A record without an activity
    never passes a non-empty activity filter.
   */
  predicate ActivityOk(r: Record, c: Criteria)
  {
    var q := Lower(c.actividad);
    q == "" || (r.actividad.Str? && Includes(Lower(r.actividad.s), q))
  }

  /** A record is shown when it passes all three tests. */
  predicate Matches(r: Record, c: Criteria)
  {
    DateOk(r, c) && MonthOk(r, c) && ActivityOk(r, c)
  }

  /**
    The store positions of the matching records, ascending: every position it
    holds is a match, and every match is among them.
   */
  function Positions(rs: seq<Record>, c: Criteria): (ps: seq<nat>)
    ensures forall k :: 0 <= k < |ps| ==> ps[k] < |rs| && Matches(rs[ps[k]], c)
    ensures forall k, l :: 0 <= k < l < |ps| ==> ps[k] < ps[l]
    ensures forall i :: 0 <= i < |rs| && Matches(rs[i], c) ==> i in ps
    decreases |rs|
  {
    if rs == [] then []
    else
      var n := |rs| - 1;
      Positions(rs[..n], c) + (if Matches(rs[n], c) then [n] else [])
  }

  /** The filtered list: each record that matches, visited front to back. */
  function Filter(rs: seq<Record>, c: Criteria): seq<Record>
    decreases |rs|
  {
    if rs == [] then []
    else
      var n := |rs| - 1;
      Filter(rs[..n], c) + (if Matches(rs[n], c) then [rs[n]] else [])
  }

  /**
    The filtered list is exactly the records at `Positions`, in store order:
    the in-order subsequence of the matching records.
   */
  lemma {:induction false} FilterSelectsPositions(rs: seq<Record>, c: Criteria)
    ensures |Filter(rs, c)| == |Positions(rs, c)| <= |rs|
    ensures forall k :: 0 <= k < |Filter(rs, c)| ==> Filter(rs, c)[k] == rs[Positions(rs, c)[k]]
    decreases |rs|
  {
    if rs != [] {
      var n := |rs| - 1;
      FilterSelectsPositions(rs[..n], c);
      var fs0, ps0 := Filter(rs[..n], c), Positions(rs[..n], c);
      var fs, ps := Filter(rs, c), Positions(rs, c);
      assert fs == fs0 + (if Matches(rs[n], c) then [rs[n]] else []);
      assert ps == ps0 + (if Matches(rs[n], c) then [n] else []);
      forall k | 0 <= k < |fs|
        ensures fs[k] == rs[ps[k]]
      {
        if k < |fs0| {
          assert fs[k] == fs0[k] == rs[..n][ps0[k]];
        }
      }
    }
  }

  /** With every criterion off, the filter returns the whole store in order. */
  lemma {:induction false} NoCriteriaKeepsAll(rs: seq<Record>)
    ensures Filter(rs, NoCriteria) == rs
    decreases |rs|
  {
    if rs != [] {
      var n := |rs| - 1;
      NoCriteriaKeepsAll(rs[..n]);
      assert Lower("") == "";
      assert Matches(rs[n], NoCriteria);
      calc {
        Filter(rs, NoCriteria);
        Filter(rs[..n], NoCriteria) + [rs[n]];
        rs[..n] + [rs[n]];
        rs;
      }
    }
  }

  /** Filtering distributes over concatenation: appended records never disturb earlier matches. */
  lemma {:induction false} FilterAppend(a: seq<Record>, b: seq<Record>, c: Criteria)
    ensures Filter(a + b, c) == Filter(a, c) + Filter(b, c)
    decreases |b|
  {
    if b == [] {
      assert a + b == a;
    } else {
      var n := |b| - 1;
      FilterAppend(a, b[..n], c);
      assert (a + b)[..|a + b| - 1] == a + b[..n];
      assert (a + b)[|a + b| - 1] == b[n];
    }
  }

  /** A record in the filtered list is a matching record of the store. */
  lemma FilterSound(rs: seq<Record>, c: Criteria, k: int)
    requires 0 <= k < |Filter(rs, c)|
    ensures Filter(rs, c)[k] in rs && Matches(Filter(rs, c)[k], c)
  {
    FilterSelectsPositions(rs, c);
    var ps := Positions(rs, c);
    assert Filter(rs, c)[k] == rs[ps[k]];
  }

  /** Every matching record of the store appears in the filtered list. */
  lemma FilterComplete(rs: seq<Record>, c: Criteria, i: int)
    requires 0 <= i < |rs| && Matches(rs[i], c)
    ensures rs[i] in Filter(rs, c)
  {
    FilterSelectsPositions(rs, c);
    var ps := Positions(rs, c);
    var k :| 0 <= k < |ps| && ps[k] == i;
    assert Filter(rs, c)[k] == rs[i];
  }

  // ---- The filter as the script writes it ----

  /**
    `r.actividad.toLowerCase()` is evaluated only when the date and month tests
    pass and the lower-cased activity filter is non-empty; on an `undefined`
    activity it raises a TypeError.
   */
  predicate Throws(r: Record, c: Criteria)
  {
    DateOk(r, c) && MonthOk(r, c) && Lower(c.actividad) != "" && r.actividad.Undefined?
  }

  /**
    `registros.filter(...)` as written: records are visited in order, and the
    first one on which the activity test raises ends the whole call with that
    TypeError.
   */
  function FilterAsWritten(rs: seq<Record>, c: Criteria): Completion<seq<Record>>
    decreases |rs|
  {
    if rs == [] then Normal([])
    else
      var n := |rs| - 1;
      match FilterAsWritten(rs[..n], c)
      case TypeError => TypeError
      case Normal(fs) =>
        if Throws(rs[n], c) then TypeError
        else Normal(fs + (if Matches(rs[n], c) then [rs[n]] else []))
  }

  /**
    The filter as written raises exactly when some record reaches the activity
    test with an `undefined` activity; otherwise it returns `Filter`.
   */
  lemma {:induction false} FilterAsWrittenAgrees(rs: seq<Record>, c: Criteria)
    ensures FilterAsWritten(rs, c).TypeError? <==> exists i :: 0 <= i < |rs| && Throws(rs[i], c)
    ensures FilterAsWritten(rs, c).Normal? ==> FilterAsWritten(rs, c).value == Filter(rs, c)
    decreases |rs|
  {
    if rs != [] {
      var n := |rs| - 1;
      FilterAsWrittenAgrees(rs[..n], c);
      if exists i :: 0 <= i < n && Throws(rs[..n][i], c) {
        var i :| 0 <= i < n && Throws(rs[..n][i], c);
        assert Throws(rs[i], c);
      }
      if exists i :: 0 <= i < |rs| && Throws(rs[i], c) {
        var i :| 0 <= i < |rs| && Throws(rs[i], c);
        if i < n {
          assert Throws(rs[..n][i], c);
        }
      }
    }
  }

  /** A store whose records all have a defined activity never makes the filter raise. */
  lemma DefinedStoreNeverThrows(rs: seq<Record>, c: Criteria)
    requires forall i :: 0 <= i < |rs| ==> Defined(rs[i])
    ensures FilterAsWritten(rs, c) == Normal(Filter(rs, c))
  {
    FilterAsWrittenAgrees(rs, c);
  }

  /**
    Any store followed by a record uploaded from a row with no "Actividad"
    column, under any non-empty activity filter and no date or month filter:
    the script's filter raises, where that record should simply not be shown.
   */
  lemma MissingActivityColumnThrows(rs: seq<Record>, row: CsvRow, q: string, parse: Parser)
    requires "Actividad" !in row
    requires Lower(q) != ""
    ensures var all := rs + [FromRow(row, parse)];
      var c := Criteria("", "", q);
      FilterAsWritten(all, c) == TypeError && Filter(all, c) == Filter(rs, c)
  {
    var all := rs + [FromRow(row, parse)];
    var c := Criteria("", "", q);
    FilterAsWrittenAgrees(all, c);
    assert Throws(all[|rs|], c);
    assert all[..|rs|] == rs;
  }
}
