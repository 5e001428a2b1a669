/**
 * One run of the cloud version (`diario_oficial_df`): read the cursor,
 * roll a weekend back to Friday, try the edition after the cursor, scan
 * it for the first page mentioning a call for applications, store the
 * cursor whatever happened, write the record found, and report.
 *
 * The sheet, the clock and the network are inputs: whether the sheet
 * opens, what cell H1 reads, today's date, what fetching the edition's
 * PDF gives, and how many rows the sheet already uses.
 */
module App {
  import opened Wrappers
  import opened Decimal
  import opened Calendar
  import opened Locator
  import opened Scanner
  import opened Cursor
  import opened Sheet

  /** Getting the credentials and opening the sheet: it works, or raises with a message. */
  datatype Access = Opened | AccessFails(message: string)

  /** The case the run logs about the edition tried. */
  datatype Outcome = Found(page: nat) | NoMention | EditionMissing | HttpFailure(code: int) | Failure | NotRun

  const Success := "Dados atualizados com sucesso!"
  const NothingFound := "Nenhuma edi\U{E7}\U{E3}o encontrada."
  const CrashPrefix := "Erro na execu\U{E7}\U{E3}o: "

  /** The records the page scan of the cloud version collects from a fetch. */
  function Scanned(fetch: Fetch, date: string, edition: nat): Scan {
    if fetch.Document? then FirstMention(fetch.pages, date, edition, 0) else Scan([], false)
  }

  /** Which branch of the fetch handling the run takes. */
  function EditionOutcome(fetch: Fetch, date: string, edition: nat): Outcome {
    match fetch
    case HttpError(code) => if code == 404 then EditionMissing else HttpFailure(code)
    case Unreadable => Failure
    case Document(pages) =>
      var s := FirstMention(pages, date, edition, 0);
      if s.records != [] then Found(s.records[0].page)
      else if s.raised then Failure
      else NoMention
  }

  /** The `try` around fetching and scanning the edition, with its three handlers. */
  method TryEdition(fetch: Fetch, date: string, n: nat) returns (records: seq<Record>, outcome: Outcome)
    ensures records == Scanned(fetch, date, n).records && |records| <= 1
    ensures outcome == EditionOutcome(fetch, date, n)
    ensures outcome.Found? <==> records != []
  {
    records := [];
    match fetch {
      case HttpError(code) =>
        outcome := if code == 404 then EditionMissing else HttpFailure(code);
      case Unreadable =>
        outcome := Failure;
      case Document(pages) =>
        var found, raised;
        records, found, raised := ScanFirst(pages, date, n);
        FirstMentionHit(pages, date, n, 0);
        outcome := if found then Found(records[0].page) else if raised then Failure else NoMention;
    }
  }

  /** `salvar_ultima_edicao(n)`, then `salvar_no_google_sheets` for each record kept. */
  method SaveAll(n: nat, records: seq<Record>, used: nat) returns (writes: seq<Write>)
    requires |records| <= 1
    ensures writes == [SetCursor(Store(n))] + (if records == [] then [] else RecordRows(used, records[0]))
    ensures forall k :: 1 <= k < |writes| ==> writes[k].SetRow?
  {
    writes := [SetCursor(Store(n))];
    for j := 0 to |records|
      invariant writes == [SetCursor(Store(n))] + (if j == 0 then [] else RecordRows(used, records[0]))
    {
      var rows := SaveRecord(used, records[j]);
      writes := writes + rows;
    }
    if records != [] {
      RecordRowsLayout(used, records[0]);
    }
  }

  /**
   * Everything after the link is built: try edition `n` for `date`, store
   * the cursor, write the record found, and choose the status.
   */
  method Process(fetch: Fetch, date: string, n: nat, used: nat)
    returns (status: string, writes: seq<Write>, outcome: Outcome)
    ensures var found := Scanned(fetch, date, n).records;
      |writes| >= 1 && writes[0] == SetCursor(Store(n))
      && Load(Cell(Some(writes[0].value))) == n
      && (forall k :: 1 <= k < |writes| ==> writes[k].SetRow?)
      && |found| <= 1
      && writes[1..] == (if found == [] then [] else RecordRows(used, found[0]))
      && (status == Success <==> found != [])
      && (status != Success ==> status == NothingFound)
      && outcome == EditionOutcome(fetch, date, n)
  {
    var records;
    records, outcome := TryEdition(fetch, date, n);
    writes := SaveAll(n, records, used);
    LoadStore(n);
    status := if records != [] then Success else NothingFound;
  }

  /**
   * `diario_oficial_df`: a failure to open the sheet ends the run with the
   * crash status; otherwise edition `Load(cell) + 1` is tried for the
   * weekend-adjusted date, by its percent-encoded link.
   */
  method Run(access: Access, cell: CellRead, today: Date, fetch: Fetch, used: nat)
    returns (status: string, link: string, writes: seq<Write>, outcome: Outcome)
    requires Valid(today)
    ensures access.AccessFails? ==>
      status == CrashPrefix + access.message && link == "" && writes == [] && outcome == NotRun
    ensures access.Opened? ==>
      var day, n := AdjustWeekend(today), Load(cell) + 1;
      var found := Scanned(fetch, FormatDate(day), n).records;
      link == AppLink(day, n)
      && |writes| >= 1 && writes[0] == SetCursor(Store(n))
      && Load(Cell(Some(writes[0].value))) == Load(cell) + 1
      && (forall k :: 1 <= k < |writes| ==> writes[k].SetRow?)
      && |found| <= 1
      && writes[1..] == (if found == [] then [] else RecordRows(used, found[0]))
      && (status == Success <==> found != [])
      && (status != Success ==> status == NothingFound)
      && outcome == EditionOutcome(fetch, FormatDate(day), n)
  {
    if access.AccessFails? {
      return CrashPrefix + access.message, "", [], NotRun;
    }
    var n := Load(cell);
    var day := AdjustWeekend(today);
    n := n + 1;
    link := AppLink(day, n);
    status, writes, outcome := Process(fetch, FormatDate(day), n, used);
  }
}
