/** The row tables the app hands to its encoders. The encoders themselves
    (CSV, spreadsheet, fixed-width text, PDF, PNG) are foreign libraries;
    what is modelled is the exact sequence of rows each one receives. */
module Export {
  import opened Summary

  datatype Option<T> = None | Some(value: T)

  /** A table cell: a raw number taken from the entry lists, a literal
      string, or a number rendered after a fixed prefix. `twoDecimals` marks
      the `:.2f` format; otherwise the number uses Python's default `str`.
      The rendering itself is abstract: a formatted cell keeps the value. */
  datatype Cell =
    | Num(x: real)
    | Lit(text: string)
    | Fmt(prefix: string, value: real, twoDecimals: bool)

  /** A row of the two-column table: the "SGPA" column, then "Credits". */
  datatype Row = Row(sgpa: Cell, credits: Cell)

  /** The five choices of the export selector. */
  datatype Format = Csv | Xlsx | Txt | Pdf | Png

  /** The column labels of every data frame the app builds. */
  const ColumnLabels: Row := Row(Lit("SGPA"), Lit("Credits"))

  /** The placeholder that fills the empty half of a summary row. */
  const Placeholder: Cell := Lit("--")

  /** How a row reads back as an entry: only a row of two raw numbers is one. */
  function ParseEntryRow(row: Row): (r: Option<Entry>)
    ensures r.Some? <==> row.sgpa.Num? && row.credits.Num?
  {
    match row
    case Row(Num(g), Num(c)) => Some(Entry(g, c))
    case _ => None
  }

  /** One entry as a data-frame row. */
  function EntryRow(e: Entry): (row: Row)
    ensures ParseEntryRow(row) == Some(e)
  {
    Row(Num(e.grade), Num(e.credit))
  }

  /** The frame built from the two session lists: one row per entry. */
  function EntryFrame(entries: seq<Entry>): (rows: seq<Row>)
    ensures |rows| == |entries|
    ensures forall i :: 0 <= i < |rows| ==> rows[i] == EntryRow(entries[i])
  {
    if entries == [] then []
    else EntryFrame(entries[..|entries| - 1]) + [EntryRow(entries[|entries| - 1])]
  }

  /** The two summary rows appended before a CSV, XLSX, TXT or PDF export.
      The frame is built column by column, so its first row pairs the
      placeholder with the credit total and its second the CGPA with the
      placeholder. */
  function SummaryRows(cgpa: real, totalCredits: real): (rows: seq<Row>)
    ensures |rows| == 2
    ensures forall i :: 0 <= i < |rows| ==> ParseEntryRow(rows[i]).None?
    ensures rows[0].credits.Fmt? && rows[0].credits.value == totalCredits
    ensures rows[1].sgpa.Fmt? && rows[1].sgpa.value == cgpa
  {
    [ Row(Placeholder, Fmt("Total Credits: ", totalCredits, false)),
      Row(Fmt("CGPA: ", cgpa, true), Placeholder) ]
  }

  /** The export frame: the entry frame followed by the summary rows. */
  function ExportFrame(entries: seq<Entry>): (rows: seq<Row>)
    ensures |rows| == |entries| + 2
    ensures forall i :: 0 <= i < |entries| ==> rows[i] == EntryRow(entries[i])
    ensures forall i :: |entries| <= i < |rows| ==> ParseEntryRow(rows[i]).None?
  {
    EntryFrame(entries) + SummaryRows(Cgpa(entries), TotalCredits(entries))
  }

  /** The PDF table data built from a frame: the column labels, the frame's
      rows, a blank row, a "Total Credits" row and a "CGPA" row. */
  function PdfTableData(frame: seq<Row>, cgpa: real, totalCredits: real): (rows: seq<Row>)
    ensures |rows| == |frame| + 4
    ensures rows[1..|frame| + 1] == frame
    ensures ParseEntryRow(rows[0]).None?
    ensures forall i :: |frame| + 1 <= i < |rows| ==> ParseEntryRow(rows[i]).None?
  {
    [ColumnLabels] + frame
      + [Row(Lit(""), Lit(""))]
      + [Row(Lit("Total Credits"), Fmt("", totalCredits, false))]
      + [Row(Lit("CGPA"), Fmt("", cgpa, true))]
  }

  /** The PNG cell text built from a frame: its rows and one summary row
      showing the CGPA and the credit total side by side. */
  function PngCellText(frame: seq<Row>, cgpa: real, totalCredits: real): (rows: seq<Row>)
    ensures |rows| == |frame| + 1
    ensures rows[..|frame|] == frame
    ensures ParseEntryRow(rows[|frame|]).None?
  {
    frame + [Row(Fmt("CGPA: ", cgpa, true), Fmt("Total Credits: ", totalCredits, false))]
  }

  /** The rows each encoder receives: CSV, XLSX and TXT encode the export
      frame, the PDF is built from the export frame, and the PNG from the
      plain entry frame. */
  function TableFor(format: Format, entries: seq<Entry>): (rows: seq<Row>)
    ensures |rows| == |entries| + ExtraRows(format)
    ensures forall i :: 0 <= i < |entries| ==> rows[FirstEntryRow(format) + i] == EntryRow(entries[i])
    ensures forall i :: 0 <= i < |rows| && !(FirstEntryRow(format) <= i < FirstEntryRow(format) + |entries|) ==>
      ParseEntryRow(rows[i]).None?
  {
    match format
    case Csv | Xlsx | Txt => ExportFrame(entries)
    case Pdf => PdfTableData(ExportFrame(entries), Cgpa(entries), TotalCredits(entries))
    case Png => PngCellText(EntryFrame(entries), Cgpa(entries), TotalCredits(entries))
  }

  /** Where the entry rows start: after the label row in the PDF, at the
      top everywhere else. */
  function FirstEntryRow(format: Format): (index: nat)
  {
    if format == Pdf then 1 else 0
  }

  /** The rows of a table that are not entries: summaries, labels, blanks. */
  function ExtraRows(format: Format): (count: nat)
  {
    match format
    case Csv | Xlsx | Txt => 2
    case Pdf => 6
    case Png => 1
  }

  /** The entries a table carries, read back row by row in order. */
  function DataEntries(rows: seq<Row>): (entries: seq<Entry>)
  {
    if rows == [] then []
    else
      var more := match ParseEntryRow(rows[|rows| - 1])
        case Some(e) => [e]
        case None => [];
      DataEntries(rows[..|rows| - 1]) + more
  }

  /** Reading back distributes over concatenation. */
  lemma {:induction false} DataEntriesAppend(a: seq<Row>, b: seq<Row>)
    ensures DataEntries(a + b) == DataEntries(a) + DataEntries(b)
  {
    if b != [] {
      var ab := a + b;
      assert ab[..|ab| - 1] == a + b[..|b| - 1];
      assert ab[|ab| - 1] == b[|b| - 1];
      DataEntriesAppend(a, b[..|b| - 1]);
    } else {
      assert a + b == a;
    }
  }

  /** The entry frame reads back as exactly the entries, in order. */
  lemma {:induction false} EntryFrameReadsBack(entries: seq<Entry>)
    ensures DataEntries(EntryFrame(entries)) == entries
  {
    if entries != [] {
      var init := entries[..|entries| - 1];
      var rows := EntryFrame(entries);
      assert rows[..|rows| - 1] == EntryFrame(init);
      EntryFrameReadsBack(init);
      assert entries == init + [entries[|entries| - 1]];
    }
  }

  /** No summary, label or blank row reads back as an entry. */
  lemma ExtraRowsCarryNoEntry(cgpa: real, totalCredits: real)
    ensures DataEntries(SummaryRows(cgpa, totalCredits)) == []
    ensures DataEntries([ColumnLabels]) == []
    ensures DataEntries([Row(Lit(""), Lit("")),
                         Row(Lit("Total Credits"), Fmt("", totalCredits, false)),
                         Row(Lit("CGPA"), Fmt("", cgpa, true))]) == []
    ensures DataEntries([Row(Fmt("CGPA: ", cgpa, true), Fmt("Total Credits: ", totalCredits, false))]) == []
  {
    var s := SummaryRows(cgpa, totalCredits);
    assert s[..1][..0] == [];
    assert DataEntries(s[..1]) == [];
    var t := [Row(Lit(""), Lit("")),
              Row(Lit("Total Credits"), Fmt("", totalCredits, false)),
              Row(Lit("CGPA"), Fmt("", cgpa, true))];
    assert t[..2][..1][..0] == [];
    assert DataEntries(t[..2][..1]) == [];
    assert DataEntries(t[..2]) == [];
  }

  /** The export frame reads back as the entries: its summary rows add none. */
  lemma ExportFrameReadsBack(entries: seq<Entry>)
    ensures DataEntries(ExportFrame(entries)) == entries
  {
    var summary := SummaryRows(Cgpa(entries), TotalCredits(entries));
    EntryFrameReadsBack(entries);
    ExtraRowsCarryNoEntry(Cgpa(entries), TotalCredits(entries));
    DataEntriesAppend(EntryFrame(entries), summary);
  }

  /** The PDF table reads back as its frame: the label, blank and repeated
      summary rows add none. */
  lemma PdfTableReadsBack(frame: seq<Row>, cgpa: real, totalCredits: real)
    ensures DataEntries(PdfTableData(frame, cgpa, totalCredits)) == DataEntries(frame)
  {
    var tail := [Row(Lit(""), Lit("")),
                 Row(Lit("Total Credits"), Fmt("", totalCredits, false)),
                 Row(Lit("CGPA"), Fmt("", cgpa, true))];
    ExtraRowsCarryNoEntry(cgpa, totalCredits);
    assert PdfTableData(frame, cgpa, totalCredits) == [ColumnLabels] + frame + tail;
    DataEntriesAppend([ColumnLabels], frame);
    DataEntriesAppend([ColumnLabels] + frame, tail);
  }

  /** The PNG cell text reads back as its frame: the summary row adds none. */
  lemma PngCellsReadBack(frame: seq<Row>, cgpa: real, totalCredits: real)
    ensures DataEntries(PngCellText(frame, cgpa, totalCredits)) == DataEntries(frame)
  {
    ExtraRowsCarryNoEntry(cgpa, totalCredits);
    DataEntriesAppend(frame, [Row(Fmt("CGPA: ", cgpa, true), Fmt("Total Credits: ", totalCredits, false))]);
  }

  /** Every encoder receives every entry, in insertion order, and a fixed
      number of other rows that depends on the format alone. */
  lemma EveryFormatCarriesTheEntries(format: Format, entries: seq<Entry>)
    ensures DataEntries(TableFor(format, entries)) == entries
    ensures |TableFor(format, entries)| == |entries| + ExtraRows(format)
  {
    match format
    case Csv | Xlsx | Txt =>
      ExportFrameReadsBack(entries);
    case Pdf =>
      ExportFrameReadsBack(entries);
      PdfTableReadsBack(ExportFrame(entries), Cgpa(entries), TotalCredits(entries));
    case Png =>
      EntryFrameReadsBack(entries);
      PngCellsReadBack(EntryFrame(entries), Cgpa(entries), TotalCredits(entries));
  }

  /** CSV, XLSX and TXT: the entries in order, then the row pairing the
      placeholder with the credit total, then the row pairing the CGPA with
      the placeholder; n + 2 rows in all. */
  lemma DelimitedLayout(format: Format, entries: seq<Entry>)
    requires format == Csv || format == Xlsx || format == Txt
    ensures var rows, n := TableFor(format, entries), |entries|;
      && |rows| == n + 2
      && (forall i :: 0 <= i < n ==> rows[i] == EntryRow(entries[i]))
      && rows[n] == Row(Placeholder, Fmt("Total Credits: ", TotalCredits(entries), false))
      && rows[n + 1] == Row(Fmt("CGPA: ", Cgpa(entries), true), Placeholder)
  {
  }

  /** PDF: the column labels, the n + 2 rows of the export frame, a blank
      row, then the credit total and the CGPA a second time; n + 6 rows. */
  lemma PdfLayout(entries: seq<Entry>)
    ensures var rows, n := TableFor(Pdf, entries), |entries|;
      && |rows| == n + 6
      && rows[0] == ColumnLabels
      && rows[1..n + 3] == ExportFrame(entries)
      && rows[n + 3] == Row(Lit(""), Lit(""))
      && rows[n + 4] == Row(Lit("Total Credits"), Fmt("", TotalCredits(entries), false))
      && rows[n + 5] == Row(Lit("CGPA"), Fmt("", Cgpa(entries), true))
  {
  }

  /** PNG: the entries in order and a single summary row carrying both the
      CGPA and the credit total; n + 1 rows. */
  lemma PngLayout(entries: seq<Entry>)
    ensures var rows, n := TableFor(Png, entries), |entries|;
      && |rows| == n + 1
      && (forall i :: 0 <= i < n ==> rows[i] == EntryRow(entries[i]))
      && rows[n] == Row(Fmt("CGPA: ", Cgpa(entries), true), Fmt("Total Credits: ", TotalCredits(entries), false))
  {
  }

  /** A one-entry CSV export reads back that entry from its first row. */
  lemma SingleEntryRoundTrip()
    ensures ParseEntryRow(TableFor(Csv, [Entry(7.0, 10.0)])[0]) == Some(Entry(7.0, 10.0))
  {
    DelimitedLayout(Csv, [Entry(7.0, 10.0)]);
  }
}
