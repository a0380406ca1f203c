# Received-bids workbook viewer: report selection and sheet materialization

The scripts find the newest bids workbook in a directory and turn each of its
sheets into a table. A dashboard then shows the table, and the user can
download it as CSV. This project models the logic behind that and proves
properties of it in Dafny:

- **Recency resolver** (`get_most_recent_xlsx_file`, module `Resolver`):
  - Each candidate path is keyed by a date. The key comes from the first
    `\d{4}-\d{2}-\d{2}` text in the file name.
  - That text must pass `strptime('%Y-%m-%d')`, which `Dates` models as
    Gregorian validation with a year from 1 to 9999.
  - A name with no such text, or with a first match that is not a real date,
    gets the key `datetime.min` (0001-01-01).
  - The path with the greatest key wins. Python's `max` keeps the first of
    several equal keys.
- **Lexicographic selector** (`max(files)` in `try_posting_bids_5.py`, module
  `Selector`):
  - It picks the greatest name in Python's `str` order, or takes the "No
    report found" branch when nothing is listed.
  - For names of the form `public_bids_received_YYYY-MM-DD.xlsx`, it picks
    the same file as the resolver. `Selector.SelectorAgreesWithResolver`
    proves this.
- **Sheet materializer** (`worksheet_to_dataframe`,
  `advanced_worksheet_to_dataframe`, module `Sheets`):
  - Both are methods with loops. Like the source, they collect each row's
    values, or each row's rendered cells, into a list.
  - The collected rows then go to `ToTable`. Zero rows give an empty table.
    One row gives a headerless table with one record. With two or more rows,
    row 0 becomes the column labels and the other rows become the records.
  - `Sheets` also has the "Data Rows" and "Has Formulas" counts of the
    detailed viewer.
- **Text** (module `Text`) holds the shared helpers:
  - digit strings and zero padding;
  - Python's `str` ordering, proved to be a strict total order;
  - `str(int)` as f-strings print it.

Ties: when several files share the latest key, the resolver returns the
FIRST of them in listing order (`Resolver.TiesGoToEarliest`). Undated files
do not fall back to name order: when no file is dated, the first listed path
is returned (`Resolver.AllUndatedPicksFirst`).

## Model

| member | source | states |
|---|---|---|
| `Dates.ParseDate` | try_posting_bids_2.py:272-275 | strptime `%Y-%m-%d` on matched text yields a date exactly when the digits name a valid day (year 1-9999, month 1-12, day within the month, leap years included), and every date it yields is valid |
| `Dates.ParseFormat` | try_posting_bids_2.py:273 | every valid date is parsed back from its own `YYYY-MM-DD` text |
| `Dates.FormatParse` | try_posting_bids_2.py:273 | text that parses is exactly the formatted text of the date it yields (parsing loses nothing) |
| `Dates.MinDateIsLeast` | try_posting_bids_2.py:276 | `datetime.min` is valid and no valid date precedes it; any other valid date is strictly later |
| `Dates.FormatOrder` | try_posting_bids_5.py:8-12 | `str` order on `YYYY-MM-DD` texts agrees with chronological order, and equal texts mean equal dates |
| `Dates.ParseSourceExample` | try_posting_bids_5.py:8 | the date in the commented-out report name `public_bids_received_2025-09-19.xlsx` parses to 19 September 2025 |
| `Dates.ParseLeapDay` | try_posting_bids_2.py:273 | `2024-02-29` parses (2024 is a leap year) |
| `Dates.ParseRejectsMonth13` | try_posting_bids_2.py:272-275 | `2025-13-40` matches the pattern but is not a date |
| `Dates.ParseRejectsNonLeapDay` | try_posting_bids_2.py:272-275 | `2023-02-29` is not a date (2023 is not a leap year) |
| `Dates.ParseRejectsCenturyLeapDay` | try_posting_bids_2.py:272-275 | `1900-02-29` is not a date (a century year not divisible by 400 is not a leap year) |
| `Dates.ParseRejectsYearZero` | try_posting_bids_2.py:272-275 | year `0000` is rejected (below the minimum year 1) |
| `Resolver.Basename` | try_posting_bids_2.py:269 | the file name is the suffix of the path after its last `/`; it contains no `/` |
| `Resolver.BasenameOfName` | try_posting_bids_2.py:269 | a path without `/` is its own file name |
| `Resolver.BasenameDropsDirectory` | try_posting_bids_2.py:269 | the file name of `dir/name` is `name`, whatever `dir` is |
| `Resolver.FirstMatchFrom` | try_posting_bids_2.py:270 | the regex search returns the leftmost position where `\d{4}-\d{2}-\d{2}` matches, and none when no position matches |
| `Resolver.FirstMatchFromIs` | try_posting_bids_2.py:270 | a match with no match before it is the one the search returns |
| `Resolver.NoMatchAtNonDigit` | try_posting_bids_2.py:270 | no match starts at a character that is not a digit |
| `Resolver.DateKey` | try_posting_bids_2.py:268-276 | the key of every path is a valid date; an invalid date never raises (which date it is: `ValidFirstMatchIsKey`, `InvalidFirstMatchIsUndated`, `NoMatchIsUndated`) |
| `Resolver.DatedKeyIsFirstMatch` | try_posting_bids_2.py:270-273 | a key other than `datetime.min` is spelt, character for character, by the first match in the file name |
| `Resolver.ValidFirstMatchIsKey` | try_posting_bids_2.py:270-273 | if the leftmost match in the file name is a real date, the key is that date, whatever precedes it (digits included) |
| `Resolver.InvalidFirstMatchIsUndated` | try_posting_bids_2.py:270-276 | if the leftmost match is not a real date, the key is `datetime.min`, and no later match in the name is considered |
| `Resolver.NoMatchIsUndated` | try_posting_bids_2.py:270-276 | a file name with no date-shaped text gets the key `datetime.min` |
| `Resolver.DirectoryIsIgnored` | try_posting_bids_2.py:269-270 | a date in the directory part of a path does not affect the key |
| `Resolver.FirstMatchAfterPrefix` | try_posting_bids_2.py:270 | in `prefix + YYYY-MM-DD + suffix` with a digit-free prefix, the search finds the date text right after the prefix |
| `Resolver.KeyOfDatedName` | try_posting_bids_2.py:268-276 | a name made of a digit-free prefix, a valid `YYYY-MM-DD` text and a suffix is keyed by that date |
| `Resolver.FirstLatest` | try_posting_bids_2.py:278 | `max` scanning the keys picks a position whose key is not before any other key, and every earlier position has a strictly earlier key |
| `Resolver.FirstLatestIsUnique` | try_posting_bids_2.py:278 | those two properties single out one position |
| `Resolver.MostRecentXlsxFile` | try_posting_bids_2.py:263-278 | returns None exactly for an empty listing; otherwise one of the listed paths, whose key is not before any listed path's key |
| `Resolver.TiesGoToEarliest` | try_posting_bids_2.py:278 | among paths sharing the latest key, the first listed is returned |
| `Resolver.AllUndatedPicksFirst` | try_posting_bids_2.py:276-278 | when no listed file has a date, the first listed path is returned |
| `Resolver.DatedOutranksUndated` | try_posting_bids_2.py:268-278 | if any listed file is dated after 0001-01-01, the returned file is dated after 0001-01-01 too |
| `Text.Less` | try_posting_bids_5.py:12 | Python's `str` `<`: code-point lexicographic order, with a proper prefix first |
| `Text.LessIrreflexive` | try_posting_bids_5.py:12 | no name is less than itself |
| `Text.LessTrichotomy` | try_posting_bids_5.py:12 | of two distinct names, exactly one is less than the other |
| `Text.LessTransitive` | try_posting_bids_5.py:12 | the name order is transitive |
| `Text.LessAppend` | try_posting_bids_5.py:8-12 | joined texts whose first parts have equal length compare by the first parts, and by the second parts only on a tie |
| `Text.PaddedLess` | try_posting_bids_5.py:8-12 | zero-padded digit texts of one width compare as the numbers they spell |
| `Text.DigitsValueOfPadded` | try_posting_bids_2.py:273 | reading back a zero-padded number gives the number |
| `Text.PaddedOfDigitsValue` | try_posting_bids_2.py:273 | re-padding the value of a digit text gives the text back |
| `Text.DigitsValue` | try_posting_bids_2.py:273 | a digit text of width w spells a number below 10^w |
| `Text.NaturalTextRoundTrip` | try_posting_bids_2.py:173-177 | `str(n)` of a natural number reads back as `n` and has no leading zero |
| `Text.IntText` | try_posting_bids_2.py:173-177 | `str(n)` begins with `-` exactly for negative `n`, and its digits read back as the magnitude |
| `Selector.GreatestIndex` | try_posting_bids_5.py:12 | `max(files)` picks a position whose name is at least every listed name in `str` order |
| `Selector.SelectReport` | try_posting_bids_5.py:9-24 | no name is selected exactly when nothing is listed (the "No report found" branch); otherwise the selected name is listed and is at least every listed name |
| `Selector.BidsFileNameOrder` | try_posting_bids_5.py:8-12 | for `public_bids_received_YYYY-MM-DD.xlsx` names, `str` order is date order and equal names mean equal dates |
| `Selector.BidsFileNameKey` | try_posting_bids_5.py:8-9 | the resolver keys such a name by its own date |
| `Selector.SelectorAgreesWithResolver` | try_posting_bids_5.py:9-12 | when every listed name follows that form, the lexicographic selector and the date-keyed resolver return the same file, so the lexicographic maximum is the latest-dated file |
| `Sheets.RenderCell` | try_posting_bids_2.py:169-177 | a cell with neither rewrite applicable is unchanged; with "Show Formulas" selected, a formula cell with a truthy value gets `=` in front; with "Show Cell Comments" selected, a commented cell becomes `str(value)` followed by ` [Comment: <text>]`, and gets no `=` unless the formula rewrite applies; with both rewrites, `=` + value + note |
| `Sheets.ToTable` | try_posting_bids_2.py:94-101 | header-first rows of the table equal the collected rows; a header is consumed exactly when there are at least two rows, and it is row 0 with the records rows 1..n-1; otherwise the records are all the rows |
| `Sheets.WorksheetToTable` | try_posting_bids_2.py:86-103 | 0 rows give an empty table; 1 row is the sole record with no header; with n >= 2 rows the labels are row 0's values and there are n-1 records; the table's rows are the sheet's values in order |
| `Sheets.AdvancedWorksheetToTable` | try_posting_bids_2.py:162-191 | the table is the header split of the rendered sheet: row count and every row's length are kept, and each entry is the rendered cell |
| `Sheets.PlainOptionsShowValues` | try_posting_bids_2.py:166-179 | without "Show Formulas" and "Show Cell Comments", the detailed materializer yields the same table as the basic one on the same sheet |
| `Sheets.RecordsAlignWithColumns` | try_posting_bids_2.py:186-187 | from a rectangular sheet, every record is as long as the label row |
| `Sheets.DataRowCount` | try_posting_bids_2.py:129 | the "Data Rows" count is at most the row count; it is 0 exactly when no row has a truthy value, and equals the row count exactly when every row has one |
| `Sheets.RowFormulaCount` | try_posting_bids_2.py:131 | a row's formula cells number at most its length, and none exactly when no cell has `data_type == 'f'` |
| `Sheets.FormulaCount` | try_posting_bids_2.py:131 | the "Has Formulas" count is at most the number of cells, and is 0 exactly when no cell is a formula cell |

## Left out

- Directory listing (`glob.glob`, `os.path.join`) is filesystem I/O. The candidate paths are an input sequence in listing order.
- `os.path.basename` is modelled for POSIX paths only: the separator is `/`, and Windows separators are not modelled.
- `\d` in Python's `re` also matches non-ASCII decimal digits. The model accepts only `0`-`9`.
- `get_most_recent_file` (try_posting_bids_2.py:7-27) is not modelled separately. It repeats the logic of `get_most_recent_xlsx_file`, and it cannot run because `re` and `datetime` are never imported there. Its unused `name_without_ext` is left out too.
- The Streamlit layer is display code and is left out: titles, metrics, sidebar, tabs, radio buttons, download buttons, `st.error`, and the loop over sheets in try_posting_bids_5.py that only displays them.
- The `except Exception` handlers only render I/O errors, so they are left out.
- Workbook loading is a foreign library, so the model takes its result as given. That covers `load_workbook`, the `data_only` switch between computed values and formula text, `pd.ExcelFile` and `read_excel`. A sheet is the rows `iter_rows` yields. What openpyxl yields for an empty sheet is not part of this model.
- `pd.DataFrame` internals are not modelled: coercion of header labels, duplicate labels, the default integer labels of a headerless frame, and the `ValueError` for rows of another width than the labels. `to_csv` export is not modelled either. `Sheets.RecordsAlignWithColumns` covers the rectangular rows openpyxl produces.
- Cell values are modelled as empty, text, integer or boolean. Floats, dates and other openpyxl value types are left out, and so is their `str` form in the comment note.
- The view options "Show Merged Cells" and "Color Code by Data Type" have no effect on the table. The model accepts them and ignores them. The merged-range listing and the sheet properties are display only.
- try_posting_bids_3.py only reads one sheet and displays it. try_posting_bids_4.py only displays, and it fails on its first sheet access. Neither is modelled.
