# Lottery bookkeeping of the lucky-draw page

This project models the bookkeeping core of `script.js`, a browser lottery
page. The page keeps three lists: participants, prizes and winners. The
model proves properties of the operations on them:

- **Import** (`importUsers`, `importAwards`). A spreadsheet already read
  into a table of cell texts loses its header row. Its rows then become
  trimmed participant names, or prizes `{name, limit, count: 0}`, and the
  entries that are empty, or have no positive limit, are filtered out.
- **Draw** (`draw`). This is a four-branch decision, taken in strict order:
  1. a name that has already won is turned away, citing its prize;
  2. a name not on the list gets the consolation prize "一马当先" and
     nothing is recorded;
  3. when every prize is used up, the draw is refused;
  4. otherwise one prize with a slot left is picked at random. Every
     prize of that name gains one in its count, and a record is appended
     to the winners log.
- **Report** (`getRemain`, `exportWinners`). Each prize is shown with what
  remains of it. The CSV text of the winners log is its header line
  `姓名,好运,时间` followed by one unescaped `name,award,time` line per
  winner.

Module layout:

- `Text` holds JavaScript's `trim` (with the ECMAScript whitespace set),
  `join`, and a `split` that serves as the reference for reading a joined
  text back.
- `Seqs` holds `filter`.
- `Records` holds the stored record types.
- `Import` holds the row transforms.
- `Draw` holds the store and the draw engine:
  - the stored lists are the three fields of the class `Raffle`, which
    stands for the three storage keys;
  - `Draw` is a method on that class;
  - its contract gives the outcome and the new state of each branch;
  - its contract also gives the invariants that every draw keeps.
- `Report` holds `getRemain` and the export text.
- `Scenarios` holds short sessions of several calls.

Matching of the winning prize is by name (script.js:87):

- Nothing in the source makes prize names unique, so `Draw` does not
  require it.
- What uniqueness buys is stated conditionally: with unique names, every
  count stays within its limit, and one draw uses up exactly one slot.
- `Draw.DuplicateNamesBreakLimits` shows what goes wrong without it.

The export header is the literal `姓名,好运,时间` (name, prize, time) of
script.js:107.

## Model

| member | source | states |
|---|---|---|
| Text.Trim | script.js:63 | `trim` never lengthens a string, and its result has no whitespace at either end |
| Text.TrimIsInfix | script.js:63 | what `trim` removes is an all-whitespace prefix and an all-whitespace suffix, and nothing else |
| Text.TrimOfTrimmed | script.js:41 | a string with no whitespace at either end is left unchanged by `trim` |
| Text.TrimIdempotent | script.js:41 | trimming twice is the same as trimming once |
| Text.TrimPadded | script.js:63 | a trimmed name padded with a space on each side trims back to the name |
| Text.TrimEmptyIff | script.js:41 | `trim` yields the empty string exactly when the input is all whitespace |
| Text.Join | script.js:108 | joining nothing gives the empty string; otherwise the text starts with the first part |
| Text.SplitJoin | script.js:108 | for at least one part, none holding the separator, splitting the joined text gives the parts back |
| Seqs.Filter | script.js:41 | the filter result is no longer than its input, and every element kept passes the predicate and comes from the input |
| Seqs.FilterMembers | script.js:41 | an element is in the result exactly when it is in the input and passes the predicate |
| Seqs.FilterAppend | script.js:41 | the filter keeps the input order: it distributes over concatenation |
| Seqs.FilterAll | script.js:55 | when every element passes, the filter returns its input |
| Import.Body | script.js:41 | `slice(1)` drops exactly the header row; an empty table gives no rows |
| Import.UserOfRow | script.js:41 | a row's candidate name is trimmed and no longer than its first cell (a missing cell reads as empty) |
| Import.UserNames | script.js:41 | the map gives one trimmed name per row |
| Import.UserRows | script.js:41 | every imported participant name is non-empty and trimmed, and there are no more names than rows |
| Import.ImportUsers | script.js:41 | a table of at most the header gives no participants; otherwise there are fewer participants than table rows; every name is non-empty and trimmed |
| Import.ImportUsersMembers | script.js:41 | a name is imported exactly when it is non-empty and the trimmed first cell of some row after the header |
| Import.UserRowsMembers | script.js:41 | a name is imported exactly when it is non-empty and is the trimmed first cell of some row |
| Import.UserRowsAppend | script.js:41 | the user transform keeps the row order |
| Import.ImportUsersRoundTrip | script.js:38-45 | a sheet written from a stored participant list imports as that same list |
| Import.ImportUsersBlankAndPadded | script.js:41 | the rows (name, blank, space-padded name) import as the two names |
| Import.ImportUsersExample | script.js:41 | `["Header"],["Alice"],[""],[" Bob "]` imports as `["Alice","Bob"]` |
| Import.LimitOf | script.js:53 | a failed parse gives 0; the limit passes the `> 0` test exactly when the cell read as a positive number |
| Import.PrizeOfRow | script.js:51-54 | a row's candidate prize has a trimmed name and count 0; a row without a limit cell gets limit 0 (`Number(undefined)` is NaN); the limit is positive exactly when the limit cell is present and reads as a positive number |
| Import.PrizesOfRows | script.js:51-54 | the map gives one fresh prize per row, with a trimmed name and count 0 |
| Import.PrizeRows | script.js:51-55 | every imported prize has a non-empty trimmed name, a positive limit and count 0 |
| Import.ImportAwards | script.js:51-55 | a table of at most the header gives no prizes; otherwise there are fewer prizes than table rows; every prize has a non-empty trimmed name, a positive limit and count 0 |
| Import.PrizeRowsSingle | script.js:51-55 | a one-row table contributes its prize when it passes the filter, and nothing otherwise |
| Import.PrizeRowDropped | script.js:53-55 | a row whose limit reads as not a number, zero or negative is not imported |
| Import.PrizeRowMissingLimit | script.js:53-55 | a row with no limit cell is not imported, whatever the number parse does |
| Import.PrizeRowKept | script.js:51-55 | a row with a non-empty trimmed name and a limit reading as `n > 0` is imported as the prize (name, n, 0) |
| Import.PrizeRowsMembers | script.js:51-55 | a prize is imported exactly when some row describes it and it passes the name/limit filter |
| Import.PrizeRowsAppend | script.js:51-55 | the prize transform keeps the row order |
| Import.ImportAwardsRoundTrip | script.js:48-59 | a sheet written from fresh prizes imports as those prizes, when the number parse reads back what was written |
| Import.PrizesOfTrimmedRows | script.js:51-54 | three two-cell rows with trimmed names map to the three prizes they spell out |
| Import.ImportAwardsDropsNonPositive | script.js:55 | of three rows, only the one whose limit reads as positive survives |
| Import.ImportAwardsExample | script.js:51-55 | `["Gold","2"],["Bad","0"],["Silver","x"]` imports as Gold with limit 2 only |
| Draw.AlreadyWonMessage | script.js:70 | the message holds the name right after its opening bracket and ends with the award won |
| Draw.RejectionMessagesDiffer | script.js:70-79 | the already-won message is never the used-up message "所有好运已迎完" |
| Draw.FindWinner | script.js:69 | no record is found exactly when no record has the name; a record found has the name and is in the log |
| Draw.FindWinnerIsFirst | script.js:69 | `find` returns the earliest record with the name |
| Draw.FindWinnerAppend | script.js:93-97 | appending to the log leaves the lookup of a name already there unchanged |
| Draw.Available | script.js:78 | a prize is available exactly when it is on the list with `count < limit` |
| Draw.PickIndex | script.js:82 | `Math.floor(rand * n)` is a valid index for every `rand` in [0, 1) |
| Draw.PickIndexInterval | script.js:82 | index `i` is picked exactly when `rand` lies in `[i/n, (i+1)/n)`, so each choice has an interval of equal width |
| Draw.Bump | script.js:86-89 | length, order, names and limits are kept; each prize with the winning name gains one, and every other prize is unchanged |
| Draw.LedgerOfFreshImport | script.js:54 | freshly imported prizes with an empty log satisfy the ledger (each count equals its records) |
| Draw.BumpWithinLimits | script.js:86-89 | with unique names, bumping an eligible prize keeps every count within its limit |
| Draw.DuplicateNamesBreakLimits | script.js:86-89 | with two prizes named Gold, one of them full, a draw pushes the full one past its limit |
| Draw.CountAwardAppend | script.js:93-97 | appending a record adds one to the count of its award, and nothing to other awards |
| Draw.BumpKeepsLedger | script.js:86-98 | bumping an award while logging a record for it keeps every count equal to its number of records |
| Draw.CapacityZeroIffExhausted | script.js:78-79 | no slots left (total headroom 0) exactly when no prize is available |
| Draw.BumpAbsent | script.js:86-89 | bumping a name no prize carries changes nothing |
| Draw.BumpTakesOneSlot | script.js:86-89 | with unique names, a draw of an eligible prize lowers the total headroom by exactly one |
| Draw.SameShapeKeepsUniqueNames | script.js:86-89 | update in place keeps names, so it keeps their uniqueness |
| Draw.AppendNewWinner | script.js:93-97 | appending a record for a registered name not yet in the log keeps the log distinct and registered, and makes the name findable |
| Draw.BumpKeepsInvariants | script.js:86-98 | bumping an eligible prize keeps the limits, unique names and ledger, and takes one slot |
| Draw.Raffle.constructor | script.js:15 | empty storage reads as three empty lists |
| Draw.Raffle.ImportUsers | script.js:38-45 | replaces the participant list with the imported one; prizes and winners are unchanged |
| Draw.Raffle.ImportAwards | script.js:48-59 | replaces the prize list with the imported one; participants and winners are unchanged |
| Draw.Raffle.Draw | script.js:62-101 | each of the four branches in priority order, with its result and the new store (the consolation prize "一马当先" of script.js:74 and the used-up message "所有好运已迎完" of script.js:79 are the constants `ConsolationPrize` and `ExhaustedMessage`); shape is kept; unique names, distinct and registered winners and the ledger are kept when they held before; limits are kept when they and unique names held before; with unique names, a recorded win uses exactly one slot; a recorded winner is afterwards found in the log |
| Draw.Raffle.Award | script.js:86-98 | the normal-draw bookkeeping: the bumped prize list, one record appended at the end, participants untouched, and the invariants kept |
| Report.Remaining | script.js:145-150 | one entry per prize in the same order, with the same name/limit/count, and `count + remain == limit` |
| Report.RemainingBounds | script.js:149 | while counts are within limits, `0 <= remain <= limit` |
| Report.RemainingPositiveIffAvailable | script.js:149 | a prize has something remaining exactly when the draw may pick it |
| Report.RemainingAfterBump | script.js:86-89 | a draw lowers `remain` by one for each prize with the winning name, and leaves the rest alone |
| Report.CsvRow | script.js:108 | a line is the name, a comma, the award, a comma and the time, at those positions and nothing more |
| Report.CsvRows | script.js:108 | one line per winner, in log order |
| Report.ExportCsv | script.js:106-109 | an empty log exports nothing, and a non-empty one exports a text that starts with the header line and then the first winner's line; the whole text is the subject of Report.ExportCsvLines |
| Report.CsvRowIsJoin | script.js:108 | a line is name, award and time joined by commas |
| Report.CsvRowFields | script.js:108 | a line without commas in its fields reads back as exactly those three fields |
| Report.CsvRowCommaInName | script.js:108 | fields are not escaped: a name holding a comma reads back as four columns |
| Report.ExportCsvLines | script.js:107-109 | without newlines in fields, the export consists of the header line and then one line per winner, in order |
| Report.ExportCsvExample | script.js:106-109 | one winner `{Alice, Gold, T}` exports as the header and `Alice,Gold,T` |
| Scenarios.UnregisteredAlwaysConsoled | script.js:73-75 | an unlisted name drawn twice on one store gets the consolation prize both times, whatever the random values, and nothing is logged (the general one-call fact is the second branch of Draw.Raffle.Draw) |
| Scenarios.SecondDrawRejected | script.js:69-70 | after winning, the same name (even padded with spaces) is rejected with the prize it won |
| Scenarios.WinnerStaysRejected | script.js:69-70 | a draw of any name keeps a logged winner's record where `find` sees it, and a draw of that winner is rejected citing its prize, so repeated draws never change this |
| Scenarios.DrawRegistered | script.js:78-98 | with unique prize names and a slot left, a registered name without a win gets a recorded win, one slot is used and the record is appended |
| Scenarios.ExhaustTwoSingleSlots | script.js:78-98 | two one-slot prizes serve two participants, and a third gets "所有好运已迎完" |

## Left out

- `parseExcel` (script.js:22-35): reading the file with FileReader and SheetJS is foreign I/O. The model starts from the table of cell texts it returns.
- `getStorage`/`setStorage` (script.js:14-19): JSON serialisation to localStorage and the fallback to `[]` on a parse error. They are replaced by the three fields of `Raffle`.
- `Math.random` (script.js:82): the random value is a parameter `rand: real` in [0, 1). Floating-point rounding of `rand * n` is not modelled.
- `new Date().toLocaleString()` (script.js:96): the timestamp text is a parameter.
- `Number(r[1])` (script.js:53): the parse of a present limit cell is a parameter `string -> Option<int>`; a missing cell reads as a failed parse, as `Number(undefined)` is NaN. Fractional or infinite limits are not modelled.
- Numeric spreadsheet cells, on which `.trim()` would throw, are not modelled: every cell is a string, and a missing cell reads as `""`.
- The `!file` alert and every `alert` and `renderAwards` call (script.js:39, 43-44, 49, 57-58, 106): UI only.
- The Blob, object URL, anchor click and dated file name of `exportWinners` (script.js:110-116): the model stops at the CSV text.
- `setBackground`, `loadBackground` and `clearAll` (script.js:120-135), and `checkPwd` (script.js:138-140): DOM and storage plumbing, plus a literal password comparison.
