# CGPA Calculator — a Dafny model

The CGPA Calculator is a small Streamlit app. A user enters one semester at a
time, as an SGPA (a grade-point in [0, 10]) and a number of credits. The app
keeps these in two parallel session lists and shows the credit-weighted
average (the CGPA). It can export the entries with a summary as CSV, XLSX,
TXT, PDF or a PNG table image.

This project models three parts of `cgpa_app.py`:

- **The session store** (`session.dfy`, module `Session`). Class
  `SessionState` holds the two lists, `sgpaList` and `creditsList`, as
  sequences. It has a constructor (first use in a session) and the three
  in-place actions Add, RemoveLast and ClearAll. `Valid()` is the invariant:
  the lists have equal length, are index-aligned, and every value is within
  the input-widget bounds. `Entries()` zips the two lists into one entry
  sequence. `ExportRows` builds the table for a chosen format. It is offered only
  while the lists are non-empty, as in the app.
- **The CGPA computation** (`summary.dfy`, module `Summary`). It uses `real`
  instead of floats. `TotalCredits` and `TotalWeighted` are left-to-right
  sums over the entries. `Cgpa` divides the weighted sum by the credit total
  when that total is positive, and is 0 otherwise. The lemmas show:
  - the guard prevents division by zero, even when every credit is 0;
  - when no credit is negative and the credit total is positive, the CGPA
    is a true weighted mean, lying between the lowest and highest grade
    (with a zero total the guard gives 0 whatever the grades);
  - within the input bounds, the credit total is non-negative and the CGPA
    stays in [0, 10].
- **The export row tables** (`export.dfy`, module `Export`). `Row` and `Cell`
  are the two-column rows handed to each encoder. `TableFor` picks the rows
  for each format. The layout depends on the format:
  - CSV, XLSX and TXT get the entries plus two summary rows (n + 2 rows);
  - the PDF gets a label row, those n + 2 rows, a blank row and the total and
    CGPA again (n + 6 rows);
  - the PNG gets the plain entries plus one summary row (n + 1 rows).

  `DataEntries` reads a table back row by row. It is the reference used to
  show that every format carries exactly the entries, in insertion order.

Three details of the code shape the model:

- The CSV/XLSX/TXT summary frame is built column by column
  (`cgpa_app.py:121-124`). So its first row is `("--", "Total Credits: t")`
  and its second is `("CGPA: c", "--")`.
- The export formats do not carry the same summary. The PDF is built from the
  export frame that already holds the summary rows, so the credit total and
  the CGPA appear twice, and its last row is labelled "CGPA". The PNG is built
  from the plain frame and gets a single, different summary row.
- An empty session never reaches export. The whole export section is rendered
  only while `sgpa_list` is non-empty (`cgpa_app.py:87`). `ExportRows` and
  `RemoveLast` therefore require a non-empty list. So an empty session has no
  export control at all.

## Model

| member | source | states |
|---|---|---|
| `Session.SessionState.constructor` | cgpa_app.py:71-73 | A new session starts with both lists empty, satisfying the alignment invariant |
| `Session.SessionState.Entries` | cgpa_app.py:89-92 | The entry sequence has one entry per list index, pairing `sgpaList[i]` with `creditsList[i]`, and every entry is within the input bounds |
| `Session.SessionState.Add` | cgpa_app.py:81-83 | The grade is appended to `sgpaList` and the credit to `creditsList`. Earlier elements are unchanged. The lists stay aligned, and the entries gain exactly `Entry(grade, credit)` at the end |
| `Session.SessionState.RemoveLast` | cgpa_app.py:103-105 | Requires a non-empty list, since the button is rendered only then. Drops exactly the final element of both lists and of the entries, and keeps the invariant |
| `Session.SessionState.ClearAll` | cgpa_app.py:108-110 | Both lists, and so the entries, are empty afterwards whatever they held; the invariant holds |
| `Session.SessionState.ExportRows` | cgpa_app.py:117-150 | Requires a non-empty list. The rows handed to the chosen encoder read back as exactly the session's entries in order, and number the entry count plus the format's fixed extra rows |
| `Session.AddThenRemoveLast` | cgpa_app.py:81-105 | Adding a semester and then removing the last one restores both lists exactly |
| `Summary.Zip` | cgpa_app.py:96 | Pairing the two columns gives one entry per index, combining the grade and credit at that index |
| `Summary.TotalCredits` | cgpa_app.py:97 | No contract of its own: the left-to-right credit total. Its behaviour is stated by `Summary.TotalCreditsIsColumnSum`, `Summary.TotalCreditsNonNegative` and `Summary.TotalCreditsZeroIff` |
| `Summary.Sum` | cgpa_app.py:97 | No contract of its own: the plain `sum` of one list. Its behaviour is stated by `Summary.TotalCreditsIsColumnSum` |
| `Summary.TotalWeighted` | cgpa_app.py:96 | No contract of its own: the left-to-right sum of grade × credit. Its behaviour is stated by `Summary.WeightedSumBetween`, `Summary.Cgpa` and `Summary.WorkedExample` |
| `Summary.TotalCreditsIsColumnSum` | cgpa_app.py:96-97 | The credit total over the zipped entries equals the plain sum of the credits list, which is what the app computes |
| `Summary.Cgpa` | cgpa_app.py:98 | With a credit total of 0 or less the result is 0. Otherwise the result times the credit total is the weighted sum. The division happens only under the positive guard |
| `Summary.TotalCreditsNonNegative` | cgpa_app.py:97 | If no credit is negative, the credit total is not negative; grades are unconstrained |
| `Summary.WeightedSumBetween` | cgpa_app.py:96-97 | If every grade lies in [lo, hi] and no credit is negative, lo × total ≤ weighted sum ≤ hi × total |
| `Summary.CgpaBetween` | cgpa_app.py:96-98 | If no credit is negative and the credit total is positive, the CGPA lies between any bounds shared by all grades; it is a weighted mean |
| `Summary.CgpaInGradeRange` | cgpa_app.py:96-98 | Under the input bounds (grade in [0, 10], credit ≥ 0), total credits ≥ 0 and 0 ≤ CGPA ≤ 10, whether or not the zero guard fires |
| `Summary.CgpaOfUniformGrade` | cgpa_app.py:96-98 | If every entry has the same grade g, no credit is negative and the credit total is positive, the CGPA is g |
| `Summary.TotalCreditsZeroIff` | cgpa_app.py:97 | If no credit is negative, the credit total is 0 exactly when every credit entered is 0 (both directions); grades are unconstrained |
| `Summary.AllZeroCreditsGiveZero` | cgpa_app.py:97-98 | If every credit entered is 0, whatever the grades, the credit total and the CGPA are both 0; no division happens |
| `Summary.ZeroCreditEntryIsNeutral` | cgpa_app.py:96-98 | Appending an entry with 0 credits changes neither the credit total nor the CGPA |
| `Summary.WorkedExample` | cgpa_app.py:96-98 | The entries (8.5, 20) and (9.0, 22) give weighted sum 368, 42 credits and CGPA 368/42 |
| `Export.EntryRow` | cgpa_app.py:89-92 | An entry's data-frame row reads back as that entry |
| `Export.EntryFrame` | cgpa_app.py:89-92 | The frame has one row per entry, and row i is entry i's row |
| `Export.EntryFrameReadsBack` | cgpa_app.py:89-92 | Reading the entry frame back gives exactly the entries, in order |
| `Export.SummaryRows` | cgpa_app.py:121-124 | Two rows, neither of which reads as an entry; the credit total sits in the Credits column of the first and the CGPA in the SGPA column of the second |
| `Export.ExportFrame` | cgpa_app.py:125 | n + 2 rows: row i is entry i's row for every i < n, and no row from n on reads as an entry |
| `Export.ExportFrameReadsBack` | cgpa_app.py:121-125 | Reading the export frame back gives exactly the entries; the summary rows add none |
| `Export.PdfTableData` | cgpa_app.py:44-47 | Four rows more than its frame: the frame sits unchanged at rows 1 to the frame's length, and neither the first row nor any row after the frame reads as an entry |
| `Export.PdfTableReadsBack` | cgpa_app.py:44-47 | Reading the PDF table back gives what its frame gives; the label, blank and summary rows add none |
| `Export.PngCellText` | cgpa_app.py:17-18 | One row more than its frame: the frame is its prefix unchanged, and the last row does not read as an entry |
| `Export.PngCellsReadBack` | cgpa_app.py:17-18 | Reading the PNG cell text back gives what its frame gives; the summary row adds none |
| `Export.TableFor` | cgpa_app.py:127-150 | For each format, n plus the format's extra rows; the entry rows appear contiguously and in order, after the label row in the PDF and at the top elsewhere, and every other row does not read as an entry |
| `Export.EveryFormatCarriesTheEntries` | cgpa_app.py:127-150 | For every format, the table read back gives exactly the entries in order. Its length is n plus a fixed count: 2 for CSV/XLSX/TXT, 6 for PDF, 1 for PNG |
| `Export.DelimitedLayout` | cgpa_app.py:121-125 | CSV/XLSX/TXT rows: the n entry rows in order, then `("--", "Total Credits: total")`, then `("CGPA: cgpa", "--")`; n + 2 rows |
| `Export.PdfLayout` | cgpa_app.py:44-47 | PDF table data: the column labels, the n + 2 export-frame rows, a blank row, `("Total Credits", total)` and `("CGPA", cgpa)`; n + 6 rows |
| `Export.PngLayout` | cgpa_app.py:17-18 | PNG cell text: the n entry rows in order, then the single row `("CGPA: cgpa", "Total Credits: total")`; n + 1 rows |
| `Export.SingleEntryRoundTrip` | cgpa_app.py:121-128 | The CSV rows for the single entry (7.0, 10) give back grade 7.0 and credit 10 from their first row |

## Left out

- The Streamlit UI is not modelled: page setup, the form widgets, the
  success/info/warning messages, the data-frame view, the columns, the
  format selector and the download buttons. These are framework calls with no
  logic of their own. The widget bounds become the preconditions of
  `SessionState.Add`.
- Streamlit's rerun-per-interaction semantics are not modelled. Each button
  press is treated as one atomic transition, with the summary recomputed from
  the current lists. In the app, the rerun of a remove or clear press shows
  the entries view and the CGPA message computed before the pop or clear
  (`cgpa_app.py:89-99` runs before `103-110`), and after Clear All the export
  controls stay rendered for the rest of that rerun. The next rerun shows the
  updated lists.
- The byte encoders are foreign libraries and are not modelled: pandas
  `to_csv`/`to_excel`/`to_string`, xlsxwriter, reportlab's canvas, title and
  table style, and matplotlib's figure sizing and PNG rendering. The model
  stops at the rows each encoder receives. The header line that
  pandas and matplotlib print from the column labels is left to the encoders.
  In the PDF it is an explicit first row, and the model includes it.
- The PDF's temporary file is not modelled: creating it, reading it back,
  and the fact that it is never deleted. This is file I/O.
- Float semantics are not modelled. Values are `real`, so IEEE rounding and
  the `:.2f` and default `str` formatting are out. A formatted cell is an
  abstract `Fmt(prefix, value, twoDecimals)` that keeps the exact value.
- The export file name and MIME type are not modelled. They are string glue
  built from the selected format.
