/**
  The logbook record and the three ways a record's fields are produced: the
  entry form, a row of an uploaded spreadsheet, and the commit of a row being
  edited. `parseFloat` is not modelled; it is the parameter `parse`.
 */
module Records {
  import opened JsValues

  /** The opaque reference `URL.createObjectURL` returns for a chosen file. */
  datatype BlobUrl = BlobUrl(id: nat)

  /** One logbook entry; its identity in the store is its position. */
  datatype Record = Record(
    fecha: Text,
    cantidadHoras: Hours,
    actividad: Text,
    detalle: Text,
    mes: Text,
    evidencia: Option<BlobUrl>)

  /** The string values of the entry form, and the object URL of its first chosen file, if any. */
  datatype FormInput = FormInput(
    fecha: string,
    cantidadHoras: string,
    actividad: string,
    detalle: string,
    mes: string,
    evidencia: Option<BlobUrl>)

  /** The five input values of a row in edit mode at the moment "Guardar" is clicked. */
  datatype EditInput = EditInput(
    fecha: string,
    cantidadHoras: string,
    actividad: string,
    detalle: string,
    mes: string)

  /** One row of the spreadsheet parser's output, keyed by header name. */
  type CsvRow = map<string, string>

  /** The number parser applied to an hours value (`parseFloat` in the script). */
  type Parser = string -> Hours

  /** A record built from the entry form. */
  function FromForm(f: FormInput, parse: Parser): Record
  {
    Record(Str(f.fecha), parse(f.cantidadHoras), Str(f.actividad), Str(f.detalle), Str(f.mes), f.evidencia)
  }

  /** `row.Key`: the cell under that header, or `undefined` when the row has none. */
  function Cell(row: CsvRow, key: string): (t: Text)
    ensures t.Undefined? <==> key !in row
    ensures t.Str? ==> t.s == row[key]
  {
    if key in row then Str(row[key]) else Undefined
  }

  /**
    A record built from an uploaded row. `parseFloat(undefined)` is NaN, so a row
    without an hours cell gets NaN whatever the parser does with strings.
   */
  function FromRow(row: CsvRow, parse: Parser): (r: Record)
    ensures "CantidadHoras" !in row ==> r.cantidadHoras == NaN
    ensures "CantidadHoras" in row ==> r.cantidadHoras == parse(row["CantidadHoras"])
    ensures r.evidencia == None
  {
    Record(
      Cell(row, "Fecha"),
      if "CantidadHoras" in row then parse(row["CantidadHoras"]) else NaN,
      Cell(row, "Actividad"),
      Cell(row, "Detalle"),
      Cell(row, "Mes"),
      None)
  }

  /** The records an upload produces, one per row, in row order. */
  function FromRows(rows: seq<CsvRow>, parse: Parser): (rs: seq<Record>)
    ensures |rs| == |rows|
    ensures forall j :: 0 <= j < |rows| ==> rs[j] == FromRow(rows[j], parse)
  {
    seq(|rows|, j requires 0 <= j < |rows| => FromRow(rows[j], parse))
  }

  /**
    The file loader's completion callback: every parsed row, including one with
    an empty or missing date, is pushed onto the store in order.
   */
  method LoadRows(records: seq<Record>, rows: seq<CsvRow>, parse: Parser) returns (out: seq<Record>)
    ensures |out| == |records| + |rows|
    ensures out[..|records|] == records
    ensures forall j :: 0 <= j < |rows| ==> out[|records| + j] == FromRow(rows[j], parse)
    ensures out == records + FromRows(rows, parse)
  {
    out := records;
    for j := 0 to |rows|
      invariant |out| == |records| + j
      invariant out[..|records|] == records
      invariant forall i :: 0 <= i < j ==> out[|records| + i] == FromRow(rows[i], parse)
    {
      out := out + [FromRow(rows[j], parse)];
    }
  }

  /**
    The records after an upload: the earlier ones first, then one per row whose
    text fields are the row's cells (or `undefined` for a missing column), whose
    hours are the parser's value of the hours cell (NaN when it is missing), and
    which carries no evidence.
   */
  lemma UploadedFields(records: seq<Record>, rows: seq<CsvRow>, parse: Parser)
    ensures var all, n := records + FromRows(rows, parse), |records|;
      && |all| == n + |rows|
      && all[..n] == records
      && forall j :: 0 <= j < |rows| ==>
           var r, row := all[n + j], rows[j];
           && r.fecha == (if "Fecha" in row then Str(row["Fecha"]) else Undefined)
           && r.cantidadHoras == (if "CantidadHoras" in row then parse(row["CantidadHoras"]) else NaN)
           && r.actividad == (if "Actividad" in row then Str(row["Actividad"]) else Undefined)
           && r.detalle == (if "Detalle" in row then Str(row["Detalle"]) else Undefined)
           && r.mes == (if "Mes" in row then Str(row["Mes"]) else Undefined)
           && r.evidencia == None
  {
    var all := records + FromRows(rows, parse);
    assert all[..|records|] == records;
    forall j | 0 <= j < |rows|
      ensures all[|records| + j] == FromRow(rows[j], parse)
    {
    }
  }

  /**
    Saving a row in edit mode: the five editable fields take the input values,
    the hours through the parser; the evidence reference is kept.
   */
  function Commit(r: Record, e: EditInput, parse: Parser): Record
  {
    r.(fecha := Str(e.fecha), cantidadHoras := parse(e.cantidadHoras),
       actividad := Str(e.actividad), detalle := Str(e.detalle), mes := Str(e.mes))
  }

  /** All four text fields are strings, as in every record the form or an edit commit builds. */
  predicate Defined(r: Record)
  {
    r.fecha.Str? && r.actividad.Str? && r.detalle.Str? && r.mes.Str?
  }
}
