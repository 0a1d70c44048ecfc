/**
  The logbook page as a state machine: the record store and current page, the
  filter inputs, and the edit mode of every visible row, changed by the page's
  events (form submit, filter input, navigation click, edit toggle, evidence
  upload, spreadsheet upload). Every event that changes the store or the page
  ends by redrawing the view (`mostrarRegistros`).
 */
module Bitacora {
  import opened JsValues
  import opened Records
  import opened Filtering
  import opened Totals
  import opened Paging

  /** `registros` and `currentPage`. */
  datatype Store = Store(records: seq<Record>, currentPage: int)

  /** What one redraw shows. `rowIndex[k]` is the store position of visible row `k`. */
  datatype View = View(
    filtered: seq<Record>,
    total: Hours,
    pageCount: nat,
    rows: seq<Record>,
    rowIndex: seq<nat>,
    nav: Nav)

  datatype Rendered = Rendered(store: Store, view: View)

  /**
    The part of `mostrarRegistros` after the filter: total the hours of every
    match `fs`, repair the page number against the new page count, and cut out
    that page of the matches and of their store positions `ps`.
   */
  function Draw(st: Store, fs: seq<Record>, ps: seq<nat>): Rendered
  {
    var tp := PageCount(|fs|);
    var p := Clamp(st.currentPage, tp);
    Rendered(
      Store(st.records, p),
      View(fs, Total(fs), tp, PageOf(fs, p), PageOf(ps, p), Controls(tp, p)))
  }

  /**
    `mostrarRegistros` with the filter that hides records lacking an activity:
    filter the whole store, then draw.
   */
  function Render(st: Store, c: Criteria): (out: Rendered)
    ensures out.store.records == st.records
    ensures st.currentPage >= 1 ==> 1 <= out.store.currentPage <= LastPage(out.view.pageCount)
    ensures 1 <= st.currentPage <= LastPage(out.view.pageCount) ==> out.store == st
    ensures |out.view.rows| == |out.view.rowIndex| <= PageSize
  {
    FilterSelectsPositions(st.records, c);
    Draw(st, Filter(st.records, c), Positions(st.records, c))
  }

  /**
    `mostrarRegistros` as written: the filter may raise a TypeError, which ends
    the redraw before the total, the page repair and the page are computed.
    It raises exactly when the filter as written does; otherwise it draws
    exactly what `Render` draws.
   */
  function RenderAsWritten(st: Store, c: Criteria): (out: Completion<Rendered>)
    ensures out.TypeError? <==> exists i :: 0 <= i < |st.records| && Throws(st.records[i], c)
    ensures out.Normal? ==> out.value == Render(st, c)
  {
    FilterAsWrittenAgrees(st.records, c);
    match FilterAsWritten(st.records, c)
    case TypeError => TypeError
    case Normal(fs) => Normal(Draw(st, fs, Positions(st.records, c)))
  }

  /** With every record's text fields defined, the redraw as written never raises. */
  lemma DefinedStoreRendersAsWritten(st: Store, c: Criteria)
    requires forall i :: 0 <= i < |st.records| ==> Defined(st.records[i])
    ensures RenderAsWritten(st, c) == Normal(Render(st, c))
  {
    DefinedStoreNeverThrows(st.records, c);
  }

  /** The visible rows are the displayed page of the filtered list; their indexes the same page of the positions. */
  lemma RenderPage(st: Store, c: Criteria)
    ensures var out := Render(st, c);
      && out.view.rows == PageOf(Filter(st.records, c), out.store.currentPage)
      && out.view.rowIndex == PageOf(Positions(st.records, c), out.store.currentPage)
  {
  }

  /** Every visible row is the store record at its row index, and it passes the filters. */
  lemma RowsAreMatchingRecords(st: Store, c: Criteria)
    ensures var v := Render(st, c).view;
      forall k :: 0 <= k < |v.rows| ==>
        v.rowIndex[k] < |st.records| && v.rows[k] == st.records[v.rowIndex[k]] && Matches(v.rows[k], c)
  {
    RenderPage(st, c);
    PageOfPositions(st.records, c, Render(st, c).store.currentPage);
  }

  /** Every row index names a store position. */
  lemma RowIndexInRange(st: Store, c: Criteria)
    ensures var v := Render(st, c).view;
      |v.rowIndex| == |v.rows| && forall k :: 0 <= k < |v.rowIndex| ==> v.rowIndex[k] < |st.records|
  {
    RowsAreMatchingRecords(st, c);
  }

  /** Any page of the filtered list holds the store records at the same page of the positions. */
  lemma PageOfPositions(rs: seq<Record>, c: Criteria, p: int)
    ensures var fs, ps := PageOf(Filter(rs, c), p), PageOf(Positions(rs, c), p);
      && |fs| == |ps|
      && forall k :: 0 <= k < |fs| ==> ps[k] < |rs| && fs[k] == rs[ps[k]] && Matches(fs[k], c)
  {
    FilterSelectsPositions(rs, c);
    PageParallel(Filter(rs, c), Positions(rs, c), rs, p);
  }

  /** Visible rows appear in store order. */
  lemma RowsInStoreOrder(st: Store, c: Criteria)
    ensures var v := Render(st, c).view;
      forall k, l :: 0 <= k < l < |v.rowIndex| ==> v.rowIndex[k] < v.rowIndex[l]
  {
    RenderPage(st, c);
    PageIncreasing(Positions(st.records, c), Render(st, c).store.currentPage);
  }

  /**
    The redraw is a pure derivation: drawing the state it leaves behind again
    shows the same view and keeps the same page.
   */
  lemma RenderIdempotent(st: Store, c: Criteria)
    ensures Render(Render(st, c).store, c) == Render(st, c)
  {
  }

  /** The total shown under the table does not depend on the page number. */
  lemma TotalIgnoresPage(rs: seq<Record>, c: Criteria, p1: int, p2: int)
    ensures Render(Store(rs, p1), c).view.total == Render(Store(rs, p2), c).view.total
  {
  }

  /**
    The total of the filtered list covers every match: it is NaN exactly when
    some matching record has NaN hours, and otherwise it is the sum of the
    matching records' hours.
   */
  lemma TotalOfMatches(rs: seq<Record>, c: Criteria)
    ensures Total(Filter(rs, c)).NaN? <==>
      exists i :: 0 <= i < |rs| && Matches(rs[i], c) && rs[i].cantidadHoras.NaN?
    ensures Total(Filter(rs, c)).Num? ==> Total(Filter(rs, c)).v == RealSum(Filter(rs, c))
  {
    var fs := Filter(rs, c);
    var ps := Positions(rs, c);
    FilterSelectsPositions(rs, c);
    TotalSpec(fs);
    if AnyNaN(fs) {
      var k :| 0 <= k < |fs| && fs[k].cantidadHoras.NaN?;
      assert rs[ps[k]] == fs[k];
    }
    if exists i :: 0 <= i < |rs| && Matches(rs[i], c) && rs[i].cantidadHoras.NaN? {
      var i :| 0 <= i < |rs| && Matches(rs[i], c) && rs[i].cantidadHoras.NaN?;
      var k :| 0 <= k < |ps| && ps[k] == i;
      assert fs[k] == rs[i];
    }
  }

  /** The total of each block, in order. */
  function BlockTotals(ss: seq<seq<Record>>): (ts: seq<Hours>)
    ensures |ts| == |ss|
    ensures forall i :: 0 <= i < |ss| ==> ts[i] == Total(ss[i])
    decreases |ss|
  {
    if ss == [] then [] else BlockTotals(ss[..|ss| - 1]) + [Total(ss[|ss| - 1])]
  }

  lemma {:induction false} TotalOfFlatten(ss: seq<seq<Record>>)
    ensures Total(Flatten(ss)) == AddAll(BlockTotals(ss))
    decreases |ss|
  {
    if ss == [] {
      TotalSpec([]);
    } else {
      var n := |ss| - 1;
      TotalOfFlatten(ss[..n]);
      TotalAppend(Flatten(ss[..n]), ss[n]);
      assert BlockTotals(ss)[..n] == BlockTotals(ss[..n]);
    }
  }

  /**
    The total equals the sum of the totals of pages `1..pageCount`, so it
    differs from the visible page's total whenever the other pages add hours.
   */
  lemma TotalIsSumOfPages(st: Store, c: Criteria)
    ensures var v := Render(st, c).view;
      var pages := Pages(v.filtered);
      && |pages| == v.pageCount
      && (forall i :: 0 <= i < |pages| ==> pages[i] == PageOf(v.filtered, i + 1))
      && v.total == AddAll(BlockTotals(pages))
  {
    var v := Render(st, c).view;
    PagesConcat(v.filtered);
    TotalOfFlatten(Pages(v.filtered));
  }

  /**
    A page number beyond the page count of the filtered list snaps to its last
    page (page 1 when nothing matches), and the rows shown are that last page:
    never an empty "page 7 of 3".
   */
  lemma StalePageSnapsToLast(st: Store, c: Criteria)
    requires st.currentPage > PageCount(|Filter(st.records, c)|)
    ensures var out := Render(st, c);
      && out.store.currentPage == LastPage(out.view.pageCount)
      && (|out.view.filtered| > 0 ==> 0 < |out.view.rows| == |out.view.filtered| - (out.view.pageCount - 1) * PageSize)
  {
    var out := Render(st, c);
    PageBounds(out.view.filtered, out.store.currentPage);
  }

  // ---- The page as a state machine ----

  /** The edit button of a row: "Editar" while Viewing, "Guardar" while Editing. */
  datatype Mode = Viewing | Editing

  /** The page state: the store, the filter inputs, and the mode of each visible row. */
  datatype App = App(store: Store, criteria: Criteria, modes: seq<Mode>)

  /** On load: no records, page 1, empty filters, an empty table. */
  const Initial := App(Store([], 1), NoCriteria, [])

  function ViewOf(app: App): View
  {
    Render(app.store, app.criteria).view
  }

  /** Redraw after a change: the page is repaired and every new row is in Viewing. */
  function Redraw(st: Store, c: Criteria): App
  {
    var out := Render(st, c);
    App(out.store, c, seq(|out.view.rows|, _ => Viewing))
  }

  /**
    The state the page is in between events: the current page is in range for
    the current filter, and there is one edit mode per visible row.
   */
  ghost predicate Consistent(app: App)
  {
    var v := ViewOf(app);
    1 <= app.store.currentPage <= LastPage(v.pageCount) && |app.modes| == |v.rows|
  }

  datatype Event =
    | Submit(form: FormInput)
    | FilterInput(newCriteria: Criteria)
    | Navigate(click: Click)
    | EditClick(row: nat, input: EditInput)
    | EvidenceChosen(row: nat, file: Option<BlobUrl>)
    | FileLoaded(rows: seq<CsvRow>)

  /** The form's submit handler: push the new record, then redraw. */
  function OnSubmit(app: App, f: FormInput, parse: Parser): App
  {
    Redraw(Store(app.store.records + [FromForm(f, parse)], app.store.currentPage), app.criteria)
  }

  /** Any filter input's handler: back to page 1, then redraw. */
  function OnFilterInput(app: App, c: Criteria): App
  {
    Redraw(Store(app.store.records, 1), c)
  }

  /** A click on the navigation bar: set the page the control names, then redraw. */
  function OnNavigate(app: App, click: Click): App
  {
    match Target(ViewOf(app).nav, app.store.currentPage, click)
    case None => app
    case Some(q) => Redraw(Store(app.store.records, q), app.criteria)
  }

  /**
    A click on row `k`'s edit button: in Viewing it switches that row to
    Editing; in Editing it saves the inputs into the row's record and redraws.
   */
  function OnEditClick(app: App, k: nat, e: EditInput, parse: Parser): App
  {
    var v := ViewOf(app);
    var rs := app.store.records;
    if k >= |v.rows| || k >= |app.modes| || v.rowIndex[k] >= |rs| then app
    else if app.modes[k] == Viewing then app.(modes := app.modes[k := Editing])
    else
      var i := v.rowIndex[k];
      Redraw(Store(rs[i := Commit(rs[i], e, parse)], app.store.currentPage), app.criteria)
  }

  /**
    A file chosen through row `k`'s "Agregar evidencia" button, which is drawn
    only while the record has no evidence: set its reference, then redraw.
   */
  function OnEvidenceChosen(app: App, k: nat, file: Option<BlobUrl>): App
  {
    var v := ViewOf(app);
    var rs := app.store.records;
    if k >= |v.rows| || v.rowIndex[k] >= |rs| || v.rows[k].evidencia.Some? || file.None? then app
    else
      var i := v.rowIndex[k];
      Redraw(Store(rs[i := rs[i].(evidencia := file)], app.store.currentPage), app.criteria)
  }

  /** The spreadsheet loader's completion callback: push every row, then redraw. */
  function OnFileLoaded(app: App, rows: seq<CsvRow>, parse: Parser): App
  {
    Redraw(Store(app.store.records + FromRows(rows, parse), app.store.currentPage), app.criteria)
  }

  /**
    One event handler run to completion. A click on a row or control that is not
    drawn, or on a disabled control, changes nothing.
   */
  function Step(app: App, ev: Event, parse: Parser): App
  {
    match ev
    case Submit(f) => OnSubmit(app, f, parse)
    case FilterInput(c) => OnFilterInput(app, c)
    case Navigate(click) => OnNavigate(app, click)
    case EditClick(k, e) => OnEditClick(app, k, e, parse)
    case EvidenceChosen(k, file) => OnEvidenceChosen(app, k, file)
    case FileLoaded(rows) => OnFileLoaded(app, rows, parse)
  }

  /** `Step` runs exactly the handler of the event. */
  lemma StepDispatch(app: App, ev: Event, parse: Parser)
    ensures ev.Navigate? ==> Step(app, ev, parse) == OnNavigate(app, ev.click)
    ensures ev.FileLoaded? ==> Step(app, ev, parse) == OnFileLoaded(app, ev.rows, parse)
    ensures ev.EditClick? ==> Step(app, ev, parse) == OnEditClick(app, ev.row, ev.input, parse)
    ensures ev.EvidenceChosen? ==> Step(app, ev, parse) == OnEvidenceChosen(app, ev.row, ev.file)
  {
  }

  lemma InitialConsistent()
    ensures Consistent(Initial)
  {
    assert Filter([], NoCriteria) == [];
  }

  /** A redraw keeps the records and the filters and puts every visible row in Viewing. */
  lemma RedrawFacts(st: Store, c: Criteria)
    ensures Redraw(st, c).store.records == st.records
    ensures Redraw(st, c).criteria == c
    ensures forall j :: 0 <= j < |Redraw(st, c).modes| ==> Redraw(st, c).modes[j] == Viewing
  {
  }

  lemma RedrawConsistent(st: Store, c: Criteria)
    requires st.currentPage >= 1
    ensures Consistent(Redraw(st, c))
    ensures Redraw(st, c).modes == seq(|ViewOf(Redraw(st, c)).rows|, _ => Viewing)
  {
    RenderIdempotent(st, c);
  }

  lemma NavigateConsistent(app: App, click: Click)
    requires Consistent(app)
    ensures Consistent(OnNavigate(app, click))
  {
    var v := ViewOf(app);
    NavigationInRange(v.pageCount, app.store.currentPage, click);
    var t := Target(v.nav, app.store.currentPage, click);
    if t.Some? {
      RedrawConsistent(Store(app.store.records, t.value), app.criteria);
    }
  }

  lemma EditClickConsistent(app: App, k: nat, e: EditInput, parse: Parser)
    requires Consistent(app)
    ensures Consistent(OnEditClick(app, k, e, parse))
  {
    var v := ViewOf(app);
    var rs := app.store.records;
    if k < |v.rows| && k < |app.modes| && v.rowIndex[k] < |rs| {
      if app.modes[k] == Viewing {
        assert OnEditClick(app, k, e, parse) == app.(modes := app.modes[k := Editing]);
      } else {
        var i := v.rowIndex[k];
        RedrawConsistent(Store(rs[i := Commit(rs[i], e, parse)], app.store.currentPage), app.criteria);
      }
    }
  }

  lemma EvidenceChosenConsistent(app: App, k: nat, file: Option<BlobUrl>)
    requires Consistent(app)
    ensures Consistent(OnEvidenceChosen(app, k, file))
  {
    var v := ViewOf(app);
    var rs := app.store.records;
    if k < |v.rows| && v.rowIndex[k] < |rs| && v.rows[k].evidencia.None? && file.Some? {
      var i := v.rowIndex[k];
      RedrawConsistent(Store(rs[i := rs[i].(evidencia := file)], app.store.currentPage), app.criteria);
    }
  }

  /** Every event handler leaves the page consistent. */
  lemma StepPreservesConsistency(app: App, ev: Event, parse: Parser)
    requires Consistent(app)
    ensures Consistent(Step(app, ev, parse))
  {
    match ev
    case Submit(f) =>
      RedrawConsistent(Store(app.store.records + [FromForm(f, parse)], app.store.currentPage), app.criteria);
    case FilterInput(c) =>
      RedrawConsistent(Store(app.store.records, 1), c);
    case Navigate(click) =>
      NavigateConsistent(app, click);
    case EditClick(k, e) =>
      EditClickConsistent(app, k, e, parse);
    case EvidenceChosen(k, file) =>
      EvidenceChosenConsistent(app, k, file);
    case FileLoaded(rows) =>
      RedrawConsistent(Store(app.store.records + FromRows(rows, parse), app.store.currentPage), app.criteria);
  }

  /** A change of any filter input puts the view on page 1 of the new filtered list. */
  lemma FilterInputResetsPage(app: App, c: Criteria, parse: Parser)
    ensures var next := Step(app, FilterInput(c), parse);
      next.store == Store(app.store.records, 1)
      && next.criteria == c
      && ViewOf(next).rows == PageOf(Filter(app.store.records, c), 1)
  {
  }

  /** Appending records never shrinks the filtered list, so the current page stays. */
  lemma AppendKeepsPage(app: App, extra: seq<Record>)
    requires Consistent(app)
    ensures Render(Store(app.store.records + extra, app.store.currentPage), app.criteria).store
         == Store(app.store.records + extra, app.store.currentPage)
  {
    FilterAppend(app.store.records, extra, app.criteria);
  }

  /**
    Submitting the form appends exactly one record, built from the form's
    values with the hours passed through the parser unchanged (NaN included),
    after all earlier records; the page and the filters stay as they were.
   */
  lemma SubmitAppends(app: App, f: FormInput, parse: Parser)
    requires Consistent(app)
    ensures var next := Step(app, Submit(f), parse);
      && |next.store.records| == |app.store.records| + 1
      && next.store.records[..|app.store.records|] == app.store.records
      && next.store.records[|app.store.records|]
         == Record(Str(f.fecha), parse(f.cantidadHoras), Str(f.actividad), Str(f.detalle), Str(f.mes), f.evidencia)
      && next.store.currentPage == app.store.currentPage
      && next.criteria == app.criteria
  {
    AppendKeepsPage(app, [FromForm(f, parse)]);
  }

  /** The store a file load leaves: the records with the uploaded ones after them, on the same page. */
  lemma FileLoadTarget(app: App, rows: seq<CsvRow>, parse: Parser)
    requires Consistent(app)
    ensures Step(app, FileLoaded(rows), parse).store
         == Store(app.store.records + FromRows(rows, parse), app.store.currentPage)
    ensures Step(app, FileLoaded(rows), parse).criteria == app.criteria
  {
    StepDispatch(app, FileLoaded(rows), parse);
    AppendKeepsPage(app, FromRows(rows, parse));
  }

  /**
    Loading a spreadsheet of n rows appends exactly n records in row order after
    all earlier records, none with evidence and none dropped for an empty date;
    the page and the filters stay as they were.
   */
  lemma FileLoadAppends(app: App, rows: seq<CsvRow>, parse: Parser)
    requires Consistent(app)
    ensures var next := Step(app, FileLoaded(rows), parse);
      var n := |app.store.records|;
      && |next.store.records| == n + |rows|
      && next.store.records[..n] == app.store.records
      && (forall j :: 0 <= j < |rows| ==>
            var r, row := next.store.records[n + j], rows[j];
            && r.fecha == (if "Fecha" in row then Str(row["Fecha"]) else Undefined)
            && r.cantidadHoras == (if "CantidadHoras" in row then parse(row["CantidadHoras"]) else NaN)
            && r.actividad == (if "Actividad" in row then Str(row["Actividad"]) else Undefined)
            && r.detalle == (if "Detalle" in row then Str(row["Detalle"]) else Undefined)
            && r.mes == (if "Mes" in row then Str(row["Mes"]) else Undefined)
            && r.evidencia == None)
      && next.store.currentPage == app.store.currentPage
      && next.criteria == app.criteria
  {
    FileLoadTarget(app, rows, parse);
    UploadedFields(app.store.records, rows, parse);
  }

  /**
    A navigation click moves exactly to the page the control names and touches
    nothing else: "previous" goes to p - 1 and only exists off page 1, "next"
    goes to p + 1 and only exists before the last page, a page button goes to
    its page; with at most one page there are no controls and a click does
    nothing.
   */
  lemma NavigateMoves(app: App, click: Click, parse: Parser)
    requires Consistent(app)
    ensures var next := Step(app, Navigate(click), parse);
      var p := app.store.currentPage;
      var tp := ViewOf(app).pageCount;
      && next.store.records == app.store.records
      && next.criteria == app.criteria
      && (tp <= 1 ==> next == app)
      && (click == Prev && tp > 1 && p > 1 ==> next.store.currentPage == p - 1)
      && (click == Prev && p == 1 ==> next == app)
      && (click == Next && tp > 1 && p < tp ==> next.store.currentPage == p + 1)
      && (click == Next && p == tp ==> next == app)
      && (click.GoTo? && tp > 1 && 1 <= click.i <= tp ==> next.store.currentPage == click.i)
      && (click.GoTo? && !(1 <= click.i <= tp) ==> next == app)
  {
    var v := ViewOf(app);
    NavigationInRange(v.pageCount, app.store.currentPage, click);
    StepDispatch(app, Navigate(click), parse);
    var t := Target(v.nav, app.store.currentPage, click);
    if t.Some? {
      RenderIdempotent(Store(app.store.records, t.value), app.criteria);
    }
  }

  /**
    The first click on "Editar" of a visible row only switches that row to
    Editing: the store, the page, the filters and every other row are unchanged.
   */
  lemma BeginEditChangesOnlyMode(app: App, k: nat, e: EditInput, parse: Parser)
    requires Consistent(app)
    requires k < |app.modes| && app.modes[k] == Viewing
    ensures var next := Step(app, EditClick(k, e), parse);
      next.store == app.store && next.criteria == app.criteria
      && |next.modes| == |app.modes| && next.modes[k] == Editing
      && forall j :: 0 <= j < |app.modes| && j != k ==> next.modes[j] == app.modes[j]
  {
    RowsAreMatchingRecords(app.store, app.criteria);
  }

  /** The store position a "Guardar" click on row `k` saves into, and the redraw it ends with. */
  lemma CommitTarget(app: App, k: nat, e: EditInput, parse: Parser) returns (i: nat)
    requires Consistent(app)
    requires k < |app.modes| && app.modes[k] == Editing
    ensures k < |ViewOf(app).rowIndex| && i == ViewOf(app).rowIndex[k] && i < |app.store.records|
    ensures Step(app, EditClick(k, e), parse)
         == Redraw(Store(app.store.records[i := Commit(app.store.records[i], e, parse)], app.store.currentPage), app.criteria)
  {
    var v := ViewOf(app);
    RowIndexInRange(app.store, app.criteria);
    i := v.rowIndex[k];
    assert !(k >= |v.rows| || k >= |app.modes| || i >= |app.store.records|);
    StepDispatch(app, EditClick(k, e), parse);
  }

  /**
    A click on "Guardar" overwrites the five editable fields of that row's
    record with the inputs (hours through the parser), keeps its evidence,
    leaves every other record and the store length unchanged, and redraws, so
    every row, the saved one and any other being edited, is back to Viewing.
   */
  lemma CommitEditChangesOneRecord(app: App, k: nat, e: EditInput, parse: Parser)
    requires Consistent(app)
    requires k < |app.modes| && app.modes[k] == Editing
    ensures var next := Step(app, EditClick(k, e), parse);
      var i := ViewOf(app).rowIndex[k];
      var rs := app.store.records;
      && i < |rs|
      && |next.store.records| == |rs|
      && (forall j :: 0 <= j < |rs| && j != i ==> next.store.records[j] == rs[j])
      && next.store.records[i].fecha == Str(e.fecha)
      && next.store.records[i].cantidadHoras == parse(e.cantidadHoras)
      && next.store.records[i].actividad == Str(e.actividad)
      && next.store.records[i].detalle == Str(e.detalle)
      && next.store.records[i].mes == Str(e.mes)
      && next.store.records[i].evidencia == rs[i].evidencia
      && next.criteria == app.criteria
      && (forall j :: 0 <= j < |next.modes| ==> next.modes[j] == Viewing)
  {
    var i := CommitTarget(app, k, e, parse);
    var rs := app.store.records;
    RedrawFacts(Store(rs[i := Commit(rs[i], e, parse)], app.store.currentPage), app.criteria);
  }

  /** The store position a file chosen for row `k` is attached to, and the redraw it ends with. */
  lemma EvidenceTarget(app: App, k: nat, url: BlobUrl) returns (i: nat)
    requires Consistent(app)
    requires k < |app.modes| && ViewOf(app).rows[k].evidencia == None
    ensures k < |ViewOf(app).rowIndex| && i == ViewOf(app).rowIndex[k] && i < |app.store.records|
    ensures OnEvidenceChosen(app, k, Some(url))
         == Redraw(Store(app.store.records[i := app.store.records[i].(evidencia := Some(url))], app.store.currentPage), app.criteria)
  {
    RowIndexInRange(app.store, app.criteria);
    i := ViewOf(app).rowIndex[k];
  }

  /**
    Choosing a file for a row without evidence sets only that record's evidence
    reference; every other field and record, and the store length, are kept.
   */
  lemma AttachEvidenceChangesOnlyEvidence(app: App, k: nat, url: BlobUrl, parse: Parser)
    requires Consistent(app)
    requires k < |app.modes| && ViewOf(app).rows[k].evidencia == None
    ensures var next := Step(app, EvidenceChosen(k, Some(url)), parse);
      var i := ViewOf(app).rowIndex[k];
      var rs := app.store.records;
      && i < |rs|
      && |next.store.records| == |rs|
      && (forall j :: 0 <= j < |rs| && j != i ==> next.store.records[j] == rs[j])
      && next.store.records[i] == rs[i].(evidencia := Some(url))
      && next.criteria == app.criteria
  {
    var i := EvidenceTarget(app, k, url);
    var rs := app.store.records;
    StepDispatch(app, EvidenceChosen(k, Some(url)), parse);
    RedrawFacts(Store(rs[i := rs[i].(evidencia := Some(url))], app.store.currentPage), app.criteria);
  }
}
