# Composer contribution analyzer — a verified model of its core

`main.py` reads an album spreadsheet and works out how much of the album each
composer and publisher holds. It keeps the rows whose column 18 contains
"Full" (the complete tracks). It splits the composer cell (column 22) and the
publisher cell (column 26) of each such row at every comma. Each token, such
as `Alice (ASCAP) 60% [111]`, is parsed into a name, a PRO (performance
rights organisation) text, a share and an IPI number. The shares are credited
per name into two insertion-ordered dictionaries. Each name then gets
`points / (num_tracks * 100) * 100` as its percentage. Before display, the
composers are sorted by points and the publishers by percentage, and every
percentage is printed by `format_percentage`.

This project models that core in Dafny and proves what it does:

- `wrappers.dfy` (`Wrappers`): the `Option` type, which stands for Python's
  `None` results.
- `pytext.dfy` (`PyText`): the Python string operations the code relies on.
  - `str.split` on one character, `str.strip` (the full `str.isspace` set),
    `str.rstrip(c)`, `in`, `str(n)` and `int(...)`.
  - The two regular-expression searches `\d+` and `\[(.*?)\]`.
  - Each is proved against an independent characterisation; for `int(...)`
    that is `str`, leading zeros included (`"007"` reads as 7).
- `entry.dfy` (`EntryParser`): `process_entry`.
- `ledger.dfy` (`Ledger`): the `composers` / `publishers` dictionaries.
  - A dictionary is a sequence of records with distinct names, in insertion
    order.
  - `Credit` is the `d[name] = d.get(...)` / `+= share` update.
- `aggregate.dfy` (`Aggregator`): `process_file` after the workbook is read.
  - An imperative method (`ProcessFile`) runs the row and token loops and the
    normalisation loops.
  - It is proved equal to the specification function `Aggregate`.
  - Lemmas about `Aggregate` cover conservation of shares, first-write-wins
    metadata, order, track counting and percentages.
- `format.dfy` (`Percent`): `format_percentage`, taking as input the number of
  hundredths that `.2f` renders.
- `ranking.dfy` (`Ranking`): the stable descending sorts of main.py:69 and
  main.py:74.

The sheet is the already-loaded table. `Sheet(width, rows)` gives the column
count and, for each row, the `str()` of its cells 18, 22 and 26. An empty cell
reads `"nan"`, which has no `(` and so contributes nothing. Percentages are
exact reals.

### Behaviour worth noting

- **Metadata.** A name keeps the PRO and IPI of its *first* accepted entry.
  `dict.get` returns the record already stored (main.py:37, 45), and only
  its points change afterwards. `Ledger.TalliedFirstWins` proves this of the
  dictionary, and `Aggregator.ReportFirstWins` of the final report.
- **Where the share comes from.** The share and the IPI are searched for in
  the text *after* the first `)`. The PRO is everything inside the
  parentheses, digits included.
  - So `Alice (ASCAP 60) [111]` gives PRO `"ASCAP 60"`, share 111 and IPI
    `"111"`.
  - A token of the form `Name (PRO) 60% [IPI]` gives share 60.
  - `EntryParser.ParseEntryFields` states the field positions.
- **No qualifying rows.** When the columns exist but no row is "Full", the
  code returns empty dictionaries with `num_tracks = 0` and 0 points. The
  model returns `Some(Report([], [], 0, 0))`.
  - Only the display code turns that into "Invalid file or file format",
    because it treats empty dictionaries as false. That code is not
    modelled.
  - No division by zero can occur: `Normalized` requires tracks unless the
    ledger is empty, and `Aggregate` meets that requirement.
- **Empty names.** A token whose name strips to the empty string is dropped
  (`if name:`, main.py:36).

## Model

| member | source | states |
|---|---|---|
| PyText.IndexOf | main.py:6 | the first occurrence of a character, or none: no earlier occurrence, and none at all when absent |
| PyText.IsSpace | main.py:8-12 | no contract; defined as the code points `str.isspace` accepts, the characters `strip()` removes; `StripLeft`, `StripRight`, `StripSlice` and `StripExact` characterise it through `strip` |
| PyText.Split | main.py:6-9 | `s.split(sep)` has at least one piece; `SplitFirstPiece`, `SplitPiecesFree`, `JoinSplit` and `SplitJoin` characterise the pieces |
| PyText.SplitFirstPiece | main.py:6-10 | the first piece of `s.split(sep)` runs up to the first separator; there is more than one piece exactly when a separator occurs; the rest is the split of what follows |
| PyText.SplitMany | main.py:7 | `len(s.split(sep)) > 1` exactly when `sep` occurs in `s` |
| PyText.SplitPiecesFree | main.py:33 | no piece of a split contains the separator |
| PyText.JoinSplit | main.py:33 | joining the pieces of a split with the separator gives the string back |
| PyText.SplitJoin | main.py:41 | splitting a join of separator-free pieces gives the pieces back |
| PyText.Strip | main.py:8-12 | the result of `strip()` neither starts nor ends with whitespace; `StripSlice` and `StripExact` say which slice is kept |
| PyText.StripSlice | main.py:8-12 | `strip()` keeps one slice of the text and removes only whitespace before and after it |
| PyText.StripLeft | main.py:8 | `lstrip` removes a whitespace prefix and leaves a result that does not start with whitespace |
| PyText.StripRight | main.py:11 | `rstrip` removes a whitespace suffix and leaves a result that does not end with whitespace |
| PyText.StripExact | main.py:8-12 | `strip` of whitespace + middle + whitespace is the middle, when the middle neither starts nor ends with whitespace |
| PyText.StripLeftExact | main.py:8 | `lstrip` of a whitespace run followed by text not starting with whitespace is that text |
| PyText.StripRightExact | main.py:11 | `rstrip` of text not ending in whitespace followed by a whitespace run is that text |
| PyText.RStrip | main.py:60 | `rstrip(c)` removes exactly the trailing run of `c`, and the result does not end in `c` |
| PyText.Contains | main.py:28 | `sub in s`; `ContainsIff` states what it means |
| PyText.ContainsIff | main.py:28 | `'Full' in marker` holds exactly when the marker has a slice equal to "Full" |
| PyText.DigitChar | main.py:60 | the digit character for 0-9 is a digit with that value |
| PyText.Decimal | main.py:60 | `str(n)` is a non-empty run of digits without a leading zero |
| PyText.DecimalRoundTrip | main.py:15 | `int(str(n)) == n` |
| PyText.DigitsValue | main.py:15 | `int(ds)` of a non-empty run of digits (`int("")` raises, so the empty run is excluded); no contract of its own; `DigitsValueZero`, `DecimalOfDigits`, `DigitsValueLeadingZeros` and `DigitsValueCanonical` characterise it and relate it to `str`; the 4300-digit limit of `int` is under "Left out" |
| PyText.DecimalOfDigits | main.py:15 | `str(int(ds)) == ds` for a digit run without a leading zero |
| PyText.DigitsValueZero | main.py:15 | `int(ds)` is 0 exactly when every digit of `ds` is '0' |
| PyText.DigitsValueLeadingZeros | main.py:15 | leading zeros do not change the value: `int("007") == int("7")` |
| PyText.DigitsValueCanonical | main.py:15 | every digit run is some zeros followed by `str(int(ds))`: `int` drops exactly the leading zeros |
| PyText.DigitPrefix | main.py:13 | the longest run of digits at the front of the text |
| PyText.SearchNumber | main.py:13 | a match of `\d+` is a non-empty run of digits |
| PyText.SearchNumberNone | main.py:13 | `\d+` fails exactly when the text has no digit |
| PyText.SearchNumberExact | main.py:13-15 | in `p + d + q`, where `p` has no digit and `q` does not continue the run, the match is the whole run `d` |
| PyText.LazyClose | main.py:14 | the lazy `.*?` ends at the first `]`, provided no newline comes before it |
| PyText.OpensAtFront | main.py:14 | a bracket match starts at the front exactly when the lazy close succeeds |
| PyText.OpensAtShift | main.py:14 | the possible match starts in `s[1..]` are those of `s`, shifted by one |
| PyText.SearchBracket | main.py:14 | `re.search(r'\[(.*?)\]', s).group(1)`; `SearchBracketAt` and `SearchBracketNone` state where the match is and when there is none |
| PyText.SearchBracketAt | main.py:14-16 | the IPI is the text inside the first `[` that is closed by a `]` with no newline between them |
| PyText.SearchBracketNone | main.py:14-16 | the bracket search fails, giving IPI `""`, exactly when no `[` is closed in that way |
| EntryParser.ParseEntry | main.py:5-18 | `process_entry`; `ParseEntryFails` states when it fails and `ParseEntryFields` states where each field comes from |
| EntryParser.ShareIn | main.py:13-15 | the share is 0 when the text after `)` has no digit; otherwise it is `int` of the first digit run, which `SearchNumberExact` locates; `DigitsValueCanonical` and `DigitsValueLeadingZeros` give its value, leading zeros included (`007` gives 7) |
| EntryParser.IpiIn | main.py:14-16 | the IPI is `""` when no `[` in the text after `)` is closed; `SearchBracketAt` gives it otherwise |
| EntryParser.SecondPiece | main.py:6-9 | the second piece of `token.split('(')` runs from after the first `(` to the next `(` or the end |
| EntryParser.ParseEntryFails | main.py:5-18 | `process_entry` gives `(None, None, 0, "")` exactly when no `)` follows the first `(` before a second `(` |
| EntryParser.WellFormedWithin | main.py:9-10 | a token is well formed exactly when a `)` lies between its first `(` and the next `(` |
| EntryParser.ParseEntryFields | main.py:8-17 | for an accepted token: the name is the stripped text before the first `(`; the PRO is the whole stripped text up to the first `)`, digits included; share and IPI are searched in the stripped text after that `)`, up to the next `(` or `)` |
| EntryParser.TokenPieces | main.py:6-12 | where `parts[0]`, `rest[0]` and `rest[1]` lie in the token |
| Ledger.Credit | main.py:37-38 | one `d.get` / `+= share` update; `CreditKeeps`, `CreditExisting`, `CreditNew` and `CreditOther` state its effect |
| Ledger.Lookup | main.py:37 | `d.get(name)`: a record found carries that name and is one of the records; none is found exactly when no key is `name` |
| Ledger.Tallied | main.py:33-46 | the dictionary after crediting a run of entries in order; `TalliedTotal`, `TalliedFirstWins`, `TalliedOrder` and `TalliedAppend` state what it holds |
| Ledger.Find | main.py:37 | dictionary lookup: the position holding the key, or no position holds it |
| Ledger.FindAt | main.py:37 | with distinct keys, the position holding a key is the one found |
| Ledger.CreditKeeps | main.py:37-38 | one update keeps the keys distinct, adds the share to the total points, and appends the name to the keys only when it is new |
| Ledger.CreditOther | main.py:37-38 | one update leaves every other name's record unchanged |
| Ledger.CreditExisting | main.py:37-38 | an existing name keeps its PRO and IPI and gains the share |
| Ledger.CreditNew | main.py:37-38 | a new name gets its entry's PRO, IPI and share |
| Ledger.TotalPointsUpdate | main.py:38 | raising one record's points raises the total points by the same amount |
| Ledger.TalliedAppend | main.py:31-46 | crediting two runs of entries one after the other is crediting their concatenation |
| Ledger.TotalSharesAppend | main.py:31-46 | the shares of two runs of entries add up |
| Ledger.TalliedTotal | main.py:31-46 | conservation: the total points grow by exactly the total share credited, and the keys stay distinct |
| Ledger.TalliedAbsent | main.py:36-37 | a name no accepted entry carries has no record |
| Ledger.TalliedFirstWins | main.py:37-46 | a name's record has the PRO and IPI of the first entry with that name, and points equal to the sum of the shares of all entries with that name |
| Ledger.FirstWinsNew | main.py:37-38 | the induction step of `TalliedFirstWins` when the last entry is the first with its name |
| Ledger.FirstWinsLater | main.py:37-38 | the induction step of `TalliedFirstWins` when the record already exists |
| Ledger.TalliedOrder | main.py:37-45 | the keys are the names in order of first appearance, each once |
| Ledger.FirstSeenSnoc | main.py:37-45 | a further name is listed only when it has not been seen before |
| Aggregator.FullRows | main.py:28 | no more rows are kept than the sheet has, and every kept row contains "Full"; `FullRowsMembers`, `FullRowsSingle` and `FullRowsAppend` fix which rows and in what order |
| Aggregator.FullRowsMembers | main.py:28 | a row is kept exactly when it is a row of the sheet and its marker contains "Full" |
| Aggregator.FullRowsSingle | main.py:28 | a one-row sheet keeps its row exactly when the row is full |
| Aggregator.HasColumns | main.py:27 | columns 18, 22 and 26 all exist; `Aggregate` is `None` exactly when this fails |
| Aggregator.IsFull | main.py:28 | no contract; defined as `Contains(marker, "Full")`; `ContainsIff` says that holds exactly when "Full" is a slice of the marker, and `FullRowsMembers` that these are the rows kept |
| Aggregator.Kept | main.py:34-36 | what one token adds; `TokenStep` states it: nothing for a malformed token or an empty name, else its entry |
| Aggregator.Accepted | main.py:34-36 | the entries reaching a dictionary all have non-empty names, and there are no more of them than tokens |
| Aggregator.RowEntries | main.py:33-36 | no contract; defined as the accepted entries of one cell split at ','; `TokenStep` states what each token adds and `LedgerStep` what a row credits |
| Aggregator.Entries | main.py:31-36 | no contract; defined as the accepted entries of the qualifying rows, row after row; `ReportConservation`, `ReportOrder` and `ReportFirstWins` state what the report keeps of them |
| Aggregator.LedgerOf | main.py:31-46 | no contract; defined as crediting `Entries` in order to an empty dictionary; `LedgerStep`, `ReportConservation`, `ReportOrder` and `ReportFirstWins` characterise it |
| Aggregator.Normalized | main.py:48-53 | each record keeps its name, PRO, IPI and points, in order, and gains the percentage `points / (num_tracks * 100) * 100` |
| Aggregator.NormalizedNames | main.py:48-53 | normalizing keeps every name, in order |
| Aggregator.Aggregate | main.py:27-57 | `(None, None, 0, 0)` exactly when column 18, 22 or 26 is missing; otherwise `num_tracks` is the number of rows containing "Full", and the total points are `num_tracks * 100` |
| Aggregator.AccumulateField | main.py:33-46 | the token loop leaves the dictionary equal to the ledger with the cell's accepted entries credited in order |
| Aggregator.Normalize | main.py:48-53 | the percentage loop gives exactly the normalized ledger |
| Aggregator.ProcessFile | main.py:23-57 | the method with its loops returns exactly `Aggregate(sheet)` |
| Aggregator.LedgerStep | main.py:31-46 | one more qualifying row credits its cell's accepted entries to the dictionary |
| Aggregator.Percentage | main.py:50 | `points / (num_tracks * 100) * 100`, exact; `PercentageOfAlbum`, `PercentageAdd`, `PercentageWhole` and `Ranking.PercentageMonotone` state its properties |
| Aggregator.PercentageOfAlbum | main.py:50 | a percentage times `num_tracks` is the points |
| Aggregator.FullRowsCount | main.py:28-29 | `num_tracks` equals the number of row positions whose marker contains "Full" |
| Aggregator.FullRowsAppend | main.py:28 | filtering rows distributes over concatenation |
| Aggregator.NonFullRowIgnored | main.py:28-31 | inserting a row without "Full" anywhere in the sheet changes nothing in the result |
| Aggregator.RolesIndependent | main.py:33-46 | the composers depend only on the markers and the composer cells, and the publishers only on the markers and the publisher cells |
| Aggregator.SameRoleEntries | main.py:31-46 | sheets that agree on the markers and on one role's cells give that role the same entries and the same track count |
| Aggregator.TokenStep | main.py:5-36 | a malformed token never reaches a dictionary; a well-formed one adds its entry unless its name is empty |
| Aggregator.WholeRowShares | main.py:31-46 | if every row's shares sum to 100, all rows together give `100 * rows` |
| Aggregator.PercentageAdd | main.py:50 | percentages of the same album add like the points they come from |
| Aggregator.PercentageWhole | main.py:50 | `num_tracks * 100` points make 100% |
| Aggregator.PercentagesSum | main.py:48-53 | the percentages of a ledger sum to the percentage of its total points |
| Aggregator.NormalizedPercentages | main.py:48-53 | every record's percentage times `num_tracks` is its points, i.e. `points / num_tracks` |
| Aggregator.ReportConservation | main.py:31-55 | a role's points add up to the shares of all its accepted entries; the role's list is the normalized ledger of the qualifying rows |
| Aggregator.ReportSumsTo100 | main.py:48-53 | when every qualifying row's shares of a role sum to 100, that role's percentages sum to 100 |
| Aggregator.ReportOrder | main.py:37-55 | the report lists each name once, in the order the names first appear in the qualifying rows |
| Aggregator.ReportFirstWins | main.py:37-55 | for the first entry credited under a name, the report holds a record with that name, that entry's PRO and IPI, the sum of all shares credited under the name as points, and those points as a percentage of the album |
| Percent.FormatPercentage | main.py:59-60 | `format_percentage`; `FormatClosedForm`, `ZeroShortcut` and `FormatInjective` state its result |
| Percent.Fixed2 | main.py:60 | the `.2f` rendering has a '.' three characters from the end |
| Percent.Fraction | main.py:60 | what remains of the fractional part: nothing, or '.' with one or two digits and no trailing zero |
| Percent.FormatClosedForm | main.py:59-60 | the result is `str(integer part)`, then the fractional digits without trailing zeros (and without '.' when none remain), then '%'; the integer part is never altered |
| Percent.Stripped | main.py:60 | the two `rstrip` calls on a `.2f` rendering, for every argument including zero |
| Percent.StrippedDigits | main.py:60 | the same, for an integer part followed by '.' and two digits |
| Percent.StrippedTwoDigits | main.py:60 | a non-zero last digit: the rendering is unchanged |
| Percent.StrippedOneDigit | main.py:60 | a zero last digit after a non-zero one: only that zero goes |
| Percent.StrippedNoDigit | main.py:60 | two zero digits: both go, and so does the '.' |
| Percent.DropLast | main.py:60 | `rstrip(c)` of a string ending in `c` is `rstrip(c)` of the rest |
| Percent.ZeroShortcut | main.py:60 | the `!= 0` test is only a shortcut: stripping "0.00" also gives "0%" |
| Percent.FormatInjective | main.py:59-60 | different percentages (in hundredths) never print the same |
| Percent.SplitAtPoint | main.py:60 | equal renderings have integer parts of equal length |
| Percent.FractionInjective | main.py:60 | different fractional parts never print the same |
| Ranking.Insert | main.py:69 | insertion keeps a descending sequence descending, and adds exactly the one record |
| Ranking.Key | main.py:69-74 | no contract; defined as the `key=` lambda of main.py:69 (points) or main.py:74 (percentage); `SortDescending`, `SortStable` and `ReportKeysAgree` state what ordering by it gives |
| Ranking.SortDescending | main.py:69-74 | `sorted(..., reverse=True)` is descending by the key and a permutation of its input |
| Ranking.InsertWithKey | main.py:69 | an inserted record goes ahead of the records with its key and keeps theirs in order |
| Ranking.BelowHead | main.py:69 | after the head of a descending sequence, no record ranks higher than the head |
| Ranking.SortStable | main.py:69-74 | the sort is stable: records with equal keys keep their first-seen order |
| Ranking.InsertSameOrder | main.py:69-74 | insertion under two keys that order the records alike gives the same result |
| Ranking.SortSameOrder | main.py:69-74 | sorting under two keys that order the records alike gives the same sequence |
| Ranking.PercentageRanksAsPoints | main.py:50-74 | in a normalized ledger, points and percentage order the records alike |
| Ranking.PercentageMonotone | main.py:50 | dividing by the same track count keeps the order of the points |
| Ranking.NormalizedKeysAgree | main.py:69-74 | a normalized ledger sorted by points equals it sorted by percentage |
| Ranking.ReportKeysAgree | main.py:69-74 | in any report, the points sort of main.py:69 and the percentage sort of main.py:74 give the same order |

## Left out

- The Streamlit page (main.py:1, main.py:62-90) is not modelled. This covers the
  title, the uploader, the `st.write` lines, the rendering of
  `Name (PRO) p% [IPI]` and the "Invalid file or file format" branch. These are
  display code.
- Reading the workbook (`pd.read_excel` with openpyxl, main.py:21) and the
  DataFrame mechanics (main.py:28, main.py:31) are not modelled. They are
  foreign library calls; the model starts from `Sheet(width, rows)` holding
  the `str()` of the three cells it uses.
- Floating point is not modelled. Percentages are exact reals
  (main.py:50, main.py:53). So the `OverflowError` that `points /
  total_points_possible` raises on int operands whose quotient exceeds the
  float range is not modelled either.
- PyText.DigitsValue: reads a digit run of any length. Python's `int` raises
  `ValueError` on a run longer than the interpreter's integer string
  conversion limit (`sys.get_int_max_str_digits()`, 4300 digits by default
  in CPython 3.11 and later and in the 3.7.14-3.10.7 security releases,
  configurable and absent in older versions). Such a token would abort
  `process_entry` and `process_file` (main.py:15). The model does not read
  that limit.
- Percent.FormatPercentage: takes the count of hundredths that `.2f` has
  already rounded to, so the rounding of the float itself is not modelled.
  Because `Percent.ZeroShortcut` proves that "0.00" prints as "0%", a
  non-zero float that rounds to 0.00 prints the same in both readings.
- PyText.IsDigit: only the ASCII digits 0-9. Python's `\d` also matches
  other Unicode decimal digits (main.py:13).
- The dictionaries of `process_file` are local values that the method's loops
  reassign. No other code holds references to them, so aliasing does not
  arise.
- Aggregator.ProcessFile: returns `None` in place of the tuple
  `(None, None, 0, 0)`, and a `Report` in place of the 4-tuple of two
  dictionaries and two numbers.
