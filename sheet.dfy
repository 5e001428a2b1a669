/**
 * The writes the cloud version sends to its Google sheet: the cursor in
 * cell H1, and for each record a header row followed by one row per line
 * of the excerpt, all in columns A to D below the rows already in use.
 */
module Sheet {
  import opened Strings
  import opened Decimal
  import opened Scanner

  /** One `sheet.update` call: cell H1, or the four cells `A{row}:D{row}`. */
  datatype Write = SetCursor(value: string) | SetRow(row: nat, values: seq<string>)

  const Header: seq<string> := ["Data", "Edi\U{E7}\U{E3}o", "P\U{E1}gina", "Texto"]

  /** Columns A to D of line `i` of a record: date, edition and page on the first line only. */
  function LineValues(rec: Record, i: nat, line: string): seq<string> {
    if i == 0 then [rec.date, ToDecimal(rec.edition), ToDecimal(rec.page), line]
    else ["", "", "", line]
  }

  /**
   * The rows `salvar_no_google_sheets` writes for `rec` when the sheet
   * already has `used` rows: the header at row `used + 1`, then line `i`
   * of the excerpt at row `used + 2 + i`.
   */
  function RecordRows(used: nat, rec: Record): (ws: seq<Write>)
    ensures |ws| == 1 + |Split(rec.text)|
  {
    var lines := Split(rec.text);
    [SetRow(used + 1, Header)]
      + seq(|lines|, i requires 0 <= i < |lines| => SetRow(used + 2 + i, LineValues(rec, i, lines[i])))
  }

  /** The loop of `salvar_no_google_sheets`. */
  method SaveRecord(used: nat, rec: Record) returns (writes: seq<Write>)
    ensures writes == RecordRows(used, rec)
  {
    var next := used + 1;
    writes := [SetRow(next, Header)];
    var lines := Split(rec.text);
    for i := 0 to |lines|
      invariant |writes| == i + 1 && writes[0] == SetRow(next, Header)
      invariant forall k :: 0 <= k < i ==> writes[k + 1] == SetRow(next + 1 + k, LineValues(rec, k, lines[k]))
    {
      writes := writes + [SetRow(next + 1 + i, LineValues(rec, i, lines[i]))];
    }
  }

  /** Column D of a run of row writes. */
  function ColumnD(ws: seq<Write>): seq<string> {
    seq(|ws|, i requires 0 <= i < |ws| =>
      if ws[i].SetRow? && |ws[i].values| == 4 then ws[i].values[3] else "")
  }

  /**
   * The layout: the header first, then one row per line of the text on
   * consecutive rows; the first line carries date, edition and page, the
   * others leave A to C empty; and reading column D back and joining it
   * with line breaks gives the excerpt exactly.
   */
  lemma RecordRowsLayout(used: nat, rec: Record)
    ensures var ws, lines := RecordRows(used, rec), Split(rec.text);
      |ws| == |lines| + 1 && ws[0] == SetRow(used + 1, Header)
      && (forall i :: 1 <= i < |ws| ==> ws[i].SetRow? && ws[i].row == used + 1 + i && |ws[i].values| == 4)
      && ws[1].values[..3] == [rec.date, ToDecimal(rec.edition), ToDecimal(rec.page)]
      && (forall i :: 2 <= i < |ws| ==> ws[i].values[..3] == ["", "", ""])
      && Join(ColumnD(ws[1..])) == rec.text
  {
    var ws, lines := RecordRows(used, rec), Split(rec.text);
    assert ColumnD(ws[1..]) == lines;
    JoinSplit(rec.text);
  }
}
