# Disaster-response ETL: `load_data` and `clean_data` in Dafny

This project models the data-preparation step of a disaster-response message
classifier. Two tables are read from CSV: messages and their categories. They
are merged on `id`. The `categories` column holds strings such as
`related-1;request-0;offer-0`. It is turned into one integer column per
category: the column names come from the first row, and each row's values
come from its own string. The `categories` column is then dropped, and
duplicate rows are removed, keeping the first of each group.

Modules:

- `Results`: the `Option` and `Result` types that carry the error paths.
- `Strings`: Python's `str.split` on one character, and Python's `int()` on
  a string followed by numpy's int64 range check. Each comes with its
  inverse: `Join` for `Split`, and `ShowInt` for `ParseInt`.
- `Tables`: cells, rows, tables, and the pandas operations used in place:
  - `drop(name, axis=1)`;
  - `drop_duplicates()`, both as the function `Dedup` and as the keep-first
    loop `DedupRows`;
  - the class `Frame`, whose methods update its `columns` and `rows`
    fields the way `inplace=True` does.
- `LoadData`: `pd.merge(categories, messages, on='id', how='outer')`. It
  covers matched pairs, padding with missing cells on either side, the
  coalesced key, `_x`/`_y` suffixes, and the duplicate-name error.
- `CleanData`: the pieces of `clean_data` as functions on table values, with
  every way the pandas code raises modelled as a `CleanError`. It also has
  `CleanFrame`, which models `clean_data` on a caller's frame: the caller's
  frame loses its `categories` column in place, and a new frame is returned.
- `Scenarios`: two messages and their categories, merged and cleaned from
  start to end.

Notes on the reading of the code:

- Each category token is split on every `-`. The name is field 0 and the
  value is field 1. Reading the name as the text before the last `-`, and
  the value as the text after it, would differ when a token holds two or
  more dashes (`LabelNameBeforeFirstDash`, `LabelValueBetweenDashes`).
- Rows with different token counts are an error, not undefined behaviour.
  `split(';', expand=True)` pads short rows with `None`, and
  `astype(int)` then raises (`Ragged`).
- A message with no categories row survives the outer merge with a missing
  cell. `clean_data` then fails on it, because NaN has no `.str` value that
  `astype(int)` accepts (`NotText`).
- The join in line 51 aligns rows by index. After the merge the index is
  0..n-1 on both sides, so rows are joined by position.
- `drop_duplicates` and `merge` treat two missing cells as equal. In the
  model `Missing == Missing`.

## Model

| member | source | states |
|---|---|---|
| Strings.Split | data/process_data.py:40 | splitting on a character gives one more piece than there are separators, one piece exactly when the separator is absent, and no piece contains the separator |
| Strings.JoinSplit | data/process_data.py:40 | joining the pieces of a split with the separator gives back the original string |
| Strings.SplitJoin | data/process_data.py:40 | splitting a join of separator-free pieces gives back the pieces |
| Strings.FirstPieceBeforeSeparator | data/process_data.py:45 | the first piece is the prefix of the string up to its first separator, or the whole string when there is none |
| Strings.SecondPieceBetweenSeparators | data/process_data.py:48 | the second piece is the text between the first separator and the next separator or the end |
| Strings.ParseInt | data/process_data.py:48 | a successful `int()` conversion is within the int64 range |
| Strings.ParseIntRejectsSeparator | data/process_data.py:48 | a digit padded with the ASCII separator U+001C or U+001F does not convert: `int()` strips only ASCII space, tab, line feed, vertical tab, form feed and carriage return, plus the non-ASCII whitespace |
| Strings.ParseShowInt | data/process_data.py:48 | every int64 written in decimal, with `-` when negative, converts back to itself |
| Strings.DigitsValueShowNat | data/process_data.py:48 | the digit value of a natural number's decimal rendering is that number |
| Tables.Dedup | data/process_data.py:54 | every row of the input survives as some row, no row is invented, and no two surviving rows are equal |
| Tables.DedupKeepsFirstOccurrenceOrder | data/process_data.py:54 | surviving rows appear in the order of their first occurrences in the input |
| Tables.DedupOfDistinct | data/process_data.py:54 | a table without duplicate rows is unchanged |
| Tables.DedupFixedPoint | data/process_data.py:54 | removing duplicates leaves the rows unchanged if and only if no two rows are equal |
| Tables.DedupIdempotent | data/process_data.py:54 | removing duplicates twice gives the same rows as once |
| Tables.DedupRows | data/process_data.py:54 | the keep-first scan with a set of seen rows returns exactly `Dedup` of its input |
| Tables.DropColumn | data/process_data.py:50 | the result is well formed, loses exactly the occurrences of the name from the columns, keeps the row count, and no longer has the name |
| Tables.DropSingleColumn | data/process_data.py:50 | when the name occurs once, at position k, the columns and every row lose exactly position k |
| Tables.Frame.constructor | data/process_data.py:51 | a new frame holds exactly the given table |
| Tables.Frame.Drop | data/process_data.py:50 | the frame's new columns and rows are `DropColumn` of its old ones, and it stays well formed |
| Tables.Frame.DropDuplicates | data/process_data.py:54 | the columns are unchanged and the rows become `Dedup` of the old rows |
| LoadData.Merge | data/process_data.py:23 | an `id` column missing on either side is an error; on success the table is well formed and has as many columns as both sides together minus one, with `id` once (the exact layout is in `MergeColumnLayout`) |
| LoadData.MergeFailure | data/process_data.py:23 | the merge fails exactly when a side has no `id` column, or when a suffixed name repeats a name on its own side, and for no other reason |
| LoadData.MergeFirstRow | data/process_data.py:23 | the model's first merged row extends the first categories row, whatever the ids (pandas puts the smallest key first; see Left out) |
| LoadData.MergeKeyCount | data/process_data.py:23 | a key held by cl left rows and cr right rows appears in cl*cr merged rows when both are positive, otherwise in cl+cr |
| LoadData.MergeKeepsEveryId | data/process_data.py:23 | an id value appears in the merged key column if and only if it appears in either input |
| LoadData.MergeRows | data/process_data.py:23 | a row is in the result if and only if it is a left row joined with a right row of the same key, a left row with no partner padded with missing cells, or a right row with no partner under missing left cells and the coalesced key |
| LoadData.MergeColumnLayout | data/process_data.py:23 | the merged key column sits at the left key's position and nowhere else; when the sides share only `id`, the merge succeeds with the left columns followed by the right columns other than `id` |
| CleanData.LabelNameBeforeFirstDash | data/process_data.py:45 | a category name is the token's text before its first `-`, or the whole token when there is no `-` |
| CleanData.LabelValueBetweenDashes | data/process_data.py:48 | a token without `-` has no value; otherwise the value is the integer conversion of the text between the first `-` and the next `-` or the end |
| CleanData.RowValues | data/process_data.py:48 | a row converts exactly when each of its tokens has a value, and then holds those values in token order |
| CleanData.AllValues | data/process_data.py:48 | the column converts exactly when every row converts, and then holds each row's values |
| CleanData.SplitCategories | data/process_data.py:40-48 | the categories split succeeds if and only if there is a row, every cell is a string, all rows have the first row's token count and every token has a value; names come from the first row and values from each row's own tokens |
| CleanData.ParseLabels | data/process_data.py:40-48 | no `categories` column, or more than one, is an error; on success there is one value list per row, each as long as the name list |
| CleanData.ParseLabelsResult | data/process_data.py:40-48 | a successful parse reads the single `categories` column: names are the first row's token names, and each row's values are the label cells of that row's cleaned form |
| CleanData.JoinLabels | data/process_data.py:51 | the join fails, with the columns-overlap error, exactly when a category name equals one of the table's columns; otherwise the columns are the table's followed by the category names, and each row is the table's row followed by that row's values |
| CleanData.Clean | data/process_data.py:40-56 | a successful clean gives a well-formed table with no two equal rows |
| CleanData.CleanSucceeds | data/process_data.py:40-56 | cleaning succeeds if and only if there is exactly one `categories` column, its cells parse, and no category name repeats another remaining column |
| CleanData.CleanResult | data/process_data.py:40-56 | the result columns are the input columns other than `categories`, in order, followed by the first row's category names, one per `;`-separated token; the rows are the input rows with the categories cell replaced by the row's values, deduplicated keeping first occurrences |
| CleanData.CleanDropsCategories | data/process_data.py:50-51 | the result has a `categories` column exactly when a category of the first row is named `categories` |
| CleanData.CleanDedupIdempotent | data/process_data.py:54 | the cleaned rows have no duplicates left to remove |
| CleanData.CleanFrame | data/process_data.py:40-56 | `clean_data` on a frame fails exactly when `Clean` does, with the same error, and otherwise returns a new frame holding `Clean`'s table; the caller's frame has lost `categories` whenever parsing succeeded, including when the join then fails, and is untouched otherwise |
| Scenarios.TwoMessagesMerge | data/process_data.py:23 | two categories rows and two messages with ids 1 and 2 merge into two rows of id, categories and message |
| Scenarios.ExampleRow | data/process_data.py:40-48 | `related-a;request-b`, with a and b each the digit 0 or 1, has two tokens named related and request, with values a and b |
| Scenarios.TwoRowsSplit | data/process_data.py:40-48 | two such category strings split into the names related and request and each row's own values |
| Scenarios.TwoMessagesDrop | data/process_data.py:50 | dropping `categories` from the merged pair leaves id and message |
| Scenarios.TwoMessagesJoin | data/process_data.py:51 | joining the values appends related and request after id and message, row by row |
| Scenarios.TwoMessagesClean | data/process_data.py:40-56 | the merged pair cleans to id, message, related and request, with each row's own values |
| Scenarios.DisasterMessagesExample | data/process_data.py:23-56 | messages "help" and "food" with categories `related-1;request-0` and `related-0;request-1` merge and clean to related 1, request 0 for id 1, and related 0, request 1 for id 2 |

## Left out

- Reading the two CSV files (data/process_data.py:19-20): the merge starts from table values. Header mangling of repeated names by `read_csv` is why `LoadData.Merge` may require distinct column names on each side.
- `save_data` (data/process_data.py:59-74): writing to SQLite is I/O.
- `main` (data/process_data.py:77-104): command-line handling and printing.
- LoadData.Merge: rows come left row by left row and then the unmatched right rows. pandas sorts an outer merge by key. Properties are stated over counts and membership, not positions.
- LoadData.Merge: the first merged row always comes from the first categories row (`LoadData.MergeFirstRow`). Because pandas sorts by key, the category names that `clean_data` reads from the first row agree with the program's only when every categories row lists the same names in the same order, or when the first categories row holds the smallest id of either input. With categories (2, `a-1`) then (1, `b-1`), the model names the column `a` where pandas names it `b`.
- LoadData.Merge: key types are not checked. pandas raises ValueError when one side's `id` column is integer and the other's is text; the model merges them and pairs nothing, since `Num(1)` and `Text("1")` differ.
- LoadData.Merge: only the pandas 2 behaviour for suffixes is modelled: a suffixed name that repeats a name on its own side is an error. Like pandas, which tests each side separately, the model does not reject a suffixed name that equals a column of the other side. Earlier pandas versions only warn on the same-side case.
- CleanData.Clean: pandas dtypes are not modelled (NaN-backed floats, object columns, int64 versus int32 on Windows). Cells are missing, text, or unbounded integers limited to the int64 range where the source converts them.
- Strings.ParseInt: Unicode digits outside ASCII, which Python's `int()` also accepts, are not modelled.
- Tables.DropColumn: dropping a name that is absent leaves the table unchanged, where pandas raises KeyError. `clean_data` drops `categories` only after selecting it, so the case does not arise there. The same holds for Tables.Frame.Drop.
- The pandas index and the aliasing of frames beyond the one caller's frame that `clean_data` changes are not modelled.
