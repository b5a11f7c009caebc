# TPC MemberBot: a Dafny model of its onboarding core

TPC MemberBot reads new membership requests from a form-submission export and
classifies each submitter's e-mail address. It then drives a fixed sequence of
collaborator calls:

- ask for an institutional address;
- invite to the chat workspace;
- subscribe to the mailing lists;
- record the request in the bookkeeping spreadsheets.

This project models the three pieces of that bot that hold logic, and proves
what they promise.

- **E-mail classification and the whitelist** (`agents/domain_checker.py`,
  module `DomainChecker`, on top of `Strings`).
  - `is_valid_email` and `is_whitelisted` are predicates. They read different
    `@`-pieces: the second for validity, the last for the whitelist.
  - The whitelist is built once per run from two sources: the base list and
    the domains of the master roster's `Email` column.
  - `Strings` gives Python's `str.split`, `str.strip` and `str.lower` as
    functions on `seq<char>`. It proves the facts the rest of the model needs
    about them: pieces, round trips, and idempotence and commutation of
    strip and lower.
- **Incremental ingestion** (`agents/request_handler.py`, module
  `RequestHandler`).
  - `get_new_requests` is the method `SubmissionIngestor.GetNewRequests`. It
    loops over the rows and keeps those whose id is above the stored
    high-water mark.
  - It is proved against the function `Ingest`, which describes the same scan
    one row at a time.
  - The state file `data/state.json` is the field `state` of the ingestor.
- **Dispatch** (`main.py`, lines 58-73, module `Orchestrator`).
  - The request loop is the method `Dispatch`, which appends one `Event` per
    collaborator call to a trace.
  - It is proved against the function `Trace`. The lemmas about `Trace` say
    which calls each request gets.
  - The `lru_cache` on `_build_whitelist` is the class `WhitelistCache`: the
    first lookup builds the set, and later ones reuse it.

The files are `wrappers.dfy` (`Option`, `Result`), `strings.dfy`,
`domain_checker.dfy`, `request_handler.dfy` and `orchestrator.dfy`.

Behaviour worth noting. In each case the model follows the code as written.

- **Free-mail providers stay in the whitelist.** The docstring of
  `agents/domain_checker.py` describes the whitelist as base ∪ dynamic − free
  mail. Line 62 subtracts nothing. A free-mail domain listed in the base file is
  therefore whitelisted (`FreeMailFromBaseKept`).
- **Roster domains come from the second piece.** The domain of a roster address
  is the second `@`-piece (`split("@")[1]`, line 96), not the last one.
- **Unparsable ids fall back to the row number.** A blank or non-numeric id is
  replaced by the 1-based row number (lines 63-66), so the row is not dropped for
  its id. That number goes through the same `> last_id` test (line 68) and into
  `next_id` (line 77). The row is skipped when its number is at or below the
  stored mark; otherwise it is kept, and its number can become the new mark
  (`IdOnlyRow`, `BlankIdFallsBack`).
- **Nothing is deduplicated.** The dispatch loop processes a repeated address
  again. The ingestor keeps rows that share an id (`RepeatsHandledAgain`,
  `DuplicateIdsKept`).

## Model

| member | source | states |
|---|---|---|
| Strings.Lower | agents/domain_checker.py:47 | `str.lower()` on ASCII letters: each capital becomes its small letter and every other character is kept. Its properties are `LowerIdempotent`, `LowerKeeps` and `LowerStripCommute` |
| Strings.Strip | agents/request_handler.py:62 | `str.strip()` is `RStrip` after `LStrip`, whose contracts say exactly what each removes. Its properties are `StripIsSlice`, `StripEmptyIff` and `StripIdempotent` |
| Strings.Split | agents/domain_checker.py:47 | `str.split("@")` never returns an empty list, and returns two or more pieces exactly when the string holds an `@` |
| Strings.SplitPiecesWithoutSep | agents/domain_checker.py:47 | no piece of a split contains the separator |
| Strings.JoinSplit | agents/domain_checker.py:47 | joining the pieces with the separator gives the string back, so splitting loses nothing |
| Strings.SplitJoin | agents/domain_checker.py:47 | splitting undoes joining when no piece holds the separator |
| Strings.SplitConcat | agents/domain_checker.py:47 | the split of `a + sep + b` is the split of `a` followed by the split of `b` |
| Strings.SecondPiece | agents/domain_checker.py:47 | the text between the first `@` and the next `@` (or the end) is piece 1 |
| Strings.LastPiece | agents/domain_checker.py:51 | the text after the last `@` is the last piece |
| Strings.LStrip | agents/request_handler.py:62 | `lstrip` removes exactly the leading whitespace: the result is a suffix that does not start with whitespace, and everything removed is whitespace |
| Strings.RStrip | agents/request_handler.py:62 | `rstrip` removes exactly the trailing whitespace, symmetrically |
| Strings.StripIsSlice | agents/request_handler.py:62 | `strip()` returns a contiguous slice of its input |
| Strings.StripEmptyIff | agents/domain_checker.py:74 | `l.strip()` is empty, so the line is dropped, exactly when every character of `l` is whitespace |
| Strings.StripIdempotent | agents/domain_checker.py:62 | stripping an already stripped string changes nothing |
| Strings.LowerIdempotent | agents/domain_checker.py:62 | lowering twice is lowering once |
| Strings.LowerKeeps | agents/domain_checker.py:96-98 | lowering neither adds nor removes a non-letter character such as `@` |
| Strings.LowerStripCommute | agents/domain_checker.py:62-96 | `lower().strip()` and `strip().lower()` agree |
| DomainChecker.IsValidEmail | agents/domain_checker.py:45-47 | `is_valid_email`: the address holds an `@`, and its piece 1, lowered, is not in `FREE_MAIL`. `NoAtIsInvalid` and `ValidEmailIff` characterise it |
| DomainChecker.IsWhitelisted | agents/domain_checker.py:50-51 | `is_whitelisted`, with the whitelist as an argument: the last `@`-piece, lowered, is in it. `WhitelistedIff` and `WhitelistedWithoutAt` characterise it |
| DomainChecker.NoAtIsInvalid | agents/domain_checker.py:47 | a string without `@` is never a valid address |
| DomainChecker.ValidEmailIff | agents/domain_checker.py:47 | validity is decided exactly by the lowered text between the first `@` and the next one (or the end), not stripped; what follows is ignored |
| DomainChecker.FreeMailRejected | agents/domain_checker.py:35-47 | an address whose domain lowers to a `FREE_MAIL` entry is rejected, whatever its letter case |
| DomainChecker.UpperCaseFreeMailRejected | agents/domain_checker.py:35-47 | `u@GMAIL.com` is rejected |
| DomainChecker.FreeMailAfterSecondAtAccepted | agents/domain_checker.py:47-51 | with a second `@`, validity follows the middle piece and whitelisting the last one, so `a@x.org@gmail.com` is valid |
| DomainChecker.WhitelistedIff | agents/domain_checker.py:51 | an address is whitelisted exactly when its lowered last `@`-piece is in the whitelist |
| DomainChecker.WhitelistedWithoutAt | agents/domain_checker.py:51 | without an `@` the whole string, lowered, is looked up |
| DomainChecker.LowerStripNormalised | agents/domain_checker.py:74 | a stripped then lowered line is left unchanged by lowering and by stripping |
| DomainChecker.StripLowerNormalised | agents/domain_checker.py:96 | a lowered then stripped piece is left unchanged by lowering and by stripping |
| DomainChecker.LoadBase | agents/domain_checker.py:70-74 | `_load_base`: empty without the file, otherwise every non-blank line stripped and lowered. `BaseEntries` and `BaseLinesListed` characterise it |
| DomainChecker.BaseEntries | agents/domain_checker.py:70-74 | every base entry comes from a non-blank line of an existing file, stripped and lowered, and is non-empty and normalised |
| DomainChecker.BaseLinesListed | agents/domain_checker.py:74 | every non-blank base line, stripped and lowered, is a base entry |
| DomainChecker.CellDomain | agents/domain_checker.py:96 | the domain of a roster address is normalised and holds no `@` |
| DomainChecker.ChosenSheet | agents/domain_checker.py:79-88 | the export that is read: the CSV if it exists, else the workbook if it exists, else none |
| DomainChecker.Contributes | agents/domain_checker.py:97-98 | the comprehension's filter: a filled cell that holds an `@` and whose domain is not free mail |
| DomainChecker.SheetDomains | agents/domain_checker.py:90-104 | empty on a read error or without an `Email` column, otherwise the domains of the contributing cells. `SheetDomainsSound` and `SheetDomainsComplete` characterise it |
| DomainChecker.ExtractDomains | agents/domain_checker.py:77-104 | `_extract_domains_from_master`. `ExtractDomainsCases`, `DynamicDomainsSound` and `DynamicDomainsComplete` characterise it |
| DomainChecker.ExtractDomainsCases | agents/domain_checker.py:79-104 | the CSV export is preferred over the workbook. With neither file, an unreadable file, or no `Email` column, the dynamic part is empty |
| DomainChecker.SheetDomainsSound | agents/domain_checker.py:95-99 | every domain of an export comes from a filled cell holding `@`, is that cell's domain, and is not free mail |
| DomainChecker.DynamicDomainsSound | agents/domain_checker.py:77-101 | the same for the export that is actually read |
| DomainChecker.SheetDomainsComplete | agents/domain_checker.py:95-99 | every contributing cell of an export gives its domain |
| DomainChecker.DynamicDomainsComplete | agents/domain_checker.py:77-101 | the same for the export that is actually read |
| DomainChecker.BuildWhitelist | agents/domain_checker.py:58-62 | the body of `_build_whitelist`: the union normalised again, without the empty string. `WhitelistExact` characterises it |
| DomainChecker.WhitelistExact | agents/domain_checker.py:58-62 | the whitelist is exactly the non-empty base and dynamic domains; re-normalising changes nothing and removes nothing |
| DomainChecker.NoEmptyDomain | agents/domain_checker.py:62 | the empty string is never whitelisted |
| DomainChecker.BaseLineWhitelisted | agents/domain_checker.py:62-74 | every non-blank base line, stripped and lowered, is whitelisted |
| DomainChecker.RosterDomainWhitelisted | agents/domain_checker.py:62-99 | the non-empty domain of every contributing roster cell is whitelisted |
| DomainChecker.FreeMailFromBaseKept | agents/domain_checker.py:62 | `gmail.com` is free mail, yet a base file listing it gets it whitelisted: free mail is not subtracted |
| DomainChecker.RosterCellDomain | agents/domain_checker.py:96 | the roster address `local@domain`, with a normalised domain, gives `domain` |
| DomainChecker.RosterCellContributes | agents/domain_checker.py:97-98 | such an address contributes exactly when its domain is not free mail |
| DomainChecker.BaseAndRosterExample | agents/domain_checker.py:58-62 | a base entry and the domain of a roster address both reach the whitelist |
| DomainChecker.Resolve | agents/domain_checker.py:57-58 | the set a lookup sees under `lru_cache`: the cached set if there is one, otherwise the set built from the files |
| DomainChecker.WhitelistCache.Whitelist | agents/domain_checker.py:57-58 | the first call builds the set from the files and stores it; later calls return the stored set |
| DomainChecker.WhitelistCache.Check | agents/domain_checker.py:50-51 | `is_whitelisted` consults the cached set, building it on first use |
| DomainChecker.CheckTwice | agents/domain_checker.py:57-58 | two lookups in one run consult the same set, even if the files changed in between, and the cache then holds that set |
| RequestHandler.LoadLastId | agents/request_handler.py:26-30 | `_load_last_processed_id`. `LoadLastIdDefaults` and `SavedState` characterise it |
| RequestHandler.LoadLastIdDefaults | agents/request_handler.py:26-30 | with no state file, or no `last_id` key, the mark is 0; otherwise it is the stored value |
| RequestHandler.SavedState | agents/request_handler.py:33-35 | loading the saved document gives the saved id back |
| RequestHandler.Cell | agents/request_handler.py:62-74 | `row.get(header, "").strip()`, with an error in place of the `AttributeError` on a `None` cell. `CellMeaning` characterises it |
| RequestHandler.Field | agents/request_handler.py:72-74 | the text `Cell` gives when it does not raise |
| RequestHandler.RowId | agents/request_handler.py:62-66 | the parsed stripped id cell, or the 1-based row number when it does not parse. `BlankIdFallsBack` and `MissingIdFallsBack` state the fallback |
| RequestHandler.Admit | agents/request_handler.py:62-77 | one iteration of the loop: the error it raises, the request it appends, or nothing. `AdmitMeaning` characterises it |
| RequestHandler.Ingest | agents/request_handler.py:61-77 | the whole loop as a function of the rows, stopping at the first error. `IngestSelects`, `IngestFailsIff` and `AllAboveLastId` characterise it, and `GetNewRequests` is proved equal to it |
| RequestHandler.CellMeaning | agents/request_handler.py:62-74 | reading a cell raises exactly on a `None` cell, naming the row and header; otherwise it returns the stripped text, or `""` for a missing column |
| RequestHandler.AdmitMeaning | agents/request_handler.py:62-77 | one loop iteration raises exactly when the row breaks the scan. It skips exactly the rows at or below the mark, and otherwise appends the row's request |
| RequestHandler.HighWater | agents/request_handler.py:57-77 | `next_id` is at least the stored mark and every returned id, and equals one of them |
| RequestHandler.IngestSnoc | agents/request_handler.py:61-77 | the scan of the rows followed by one more row extends the scan so far by what that row's iteration does |
| RequestHandler.ErrorPersists | agents/request_handler.py:61-77 | once a row raises, later rows do not matter |
| RequestHandler.AllAboveLastId | agents/request_handler.py:68 | every returned request has an id above the stored mark |
| RequestHandler.IngestFailsIff | agents/request_handler.py:61-74 | the scan raises exactly when some row has a `None` id cell, or has an id above the mark and a `None` name, e-mail or institution cell |
| RequestHandler.IngestFailsAtFirst | agents/request_handler.py:61-77 | a failed scan reports the first such row |
| RequestHandler.IngestSelects | agents/request_handler.py:61-76 | the requests are exactly the rows whose id is above the mark, in row order, each made from its row |
| RequestHandler.NothingNewKeepsMark | agents/request_handler.py:79 | with nothing new, the saved mark is the old one |
| RequestHandler.RescanFindsNothing | agents/request_handler.py:57-79 | a second scan of the same rows, from the mark the first one saved, returns nothing |
| RequestHandler.NoneAboveMark | agents/request_handler.py:61-77 | if no row is above the mark and none raises, the scan returns nothing |
| RequestHandler.BlankIdFallsBack | agents/request_handler.py:63-66 | an id that does not parse is replaced by the 1-based row number |
| RequestHandler.MissingIdFallsBack | agents/request_handler.py:62-66 | a missing id column or an all-whitespace id also gets the row number, when `int("")` fails |
| RequestHandler.IdOnlyRow | agents/request_handler.py:62-77 | a row with only an id column raises when the id cell is `None`. Otherwise its id is the parsed stripped cell or the row number: the row is skipped when that id is at or below the mark, and otherwise gives a request with empty name, e-mail and institution |
| RequestHandler.DuplicateIdsKept | agents/request_handler.py:68-77 | id cells that parse, once stripped, as 1, 2, 2, 3, with mark 1, give 2, 2, 3 and the new mark 3 |
| RequestHandler.SubmissionIngestor.SaveLastId | agents/request_handler.py:33-35 | the state file then holds the id, and loading it gives the id back |
| RequestHandler.SubmissionIngestor.GetNewRequests | agents/request_handler.py:38-81 | the loop returns the scan's result. On success it saves the high-water mark, even when nothing is new. If a row raises, the state file is untouched |
| RequestHandler.IngestTwice | agents/request_handler.py:56-79 | a second call on an unchanged export returns nothing, and the state holds the mark of the first |
| Orchestrator.Actions | main.py:64-73 | the block of calls for one request: the institutional-address request and the tracker update when invalid, otherwise the invite (when whitelisted), the lists and the master update. `ActionsEvents` and `HandledActions` characterise it |
| Orchestrator.Trace | main.py:61-73 | the blocks of the requests, in order. `EventsOf`, `EachRequestOnce` and `TraceConcat` characterise it, and `Dispatch` is proved equal to it |
| Orchestrator.HandledActions | main.py:64-73 | each request's block holds exactly one `request_institutional_email` or `add_to_lists` call, and it is for that request |
| Orchestrator.EachRequestOnce | main.py:58-73 | reading back the request of every `request_institutional_email` and `add_to_lists` call in the trace gives the fetched requests, in fetch order, repeats included |
| Orchestrator.TraceConcat | main.py:61-73 | the trace of a run is the traces of its parts, one after the other |
| Orchestrator.RepeatsHandledAgain | main.py:61 | a request fetched twice gets its block twice |
| Orchestrator.ActionsEvents | main.py:64-73 | which calls one request's block holds, event by event |
| Orchestrator.EventsOf | main.py:64-73 | a request gets `request_institutional_email` and `update_tracker(False)` exactly when it is invalid. It gets `send_invite` exactly when it is valid and whitelisted, and `add_to_lists` and `update_all(True)` exactly when it is valid |
| Orchestrator.InvalidGetsNoMembership | main.py:64-67 | an invalid address never gets the invite, the lists or a master-sheet entry |
| Orchestrator.FlagsAreFixed | main.py:66-73 | `update_tracker` is always given `slack_invited=False` and `update_all` always `True`, even without an invite |
| Orchestrator.Dispatch | main.py:61-73 | the loop's calls are exactly `Trace` of the requests under the whitelist of the run. When the cache is empty on entry, the whitelist is built on the first valid address, and not at all when there is none; a filled cache is used as it is |
| Orchestrator.Run | main.py:58-73 | the requests are fetched once. A fetch error ends the run with no calls and the state unchanged; otherwise the calls are the trace of the fetched requests, the new mark is saved, and, when the cache is empty on entry, it holds the run's whitelist exactly when some fetched address was valid |

## Left out

- Unicode case mapping: `Strings.Lower` lowers the ASCII capitals only. Python's `str.lower()` also maps other letters (`Ä`, `Σ`, …) and can change a string's length.
- `int()`: the parameter `parseInt`, which may reject any string. Its exact syntax (sign, surrounding whitespace, `_` separators) is not modelled.
- File reading: the base file is given as its lines (`splitlines()`). The submissions file is given as the rows `csv.DictReader` yields. The state file is the field `SubmissionIngestor.state`.
- Opening a missing submissions file, and other I/O errors, are not modelled.
- The master exports are given as what loading them yields: which files exist, whether the read raised, whether there is an `Email` column, and the cells.
  - `pandas` and `openpyxl` themselves are left out.
  - So is `str(e)` of non-string cells; cells are given as text.
- JSON decoding of the state file: a corrupt document, or a `last_id` that is not an integer, is not modelled.
- Logging, `argparse` and `_setup_logging`: they only configure output.
- The collaborators in `agents/email_notifier.py`, `agents/mailman_agent.py`, `agents/slack_inviter.py` and `agents/spreadsheet_updater.py` only log. Each call is an `Event` in the trace.
- Short rows: `csv.DictReader` fills the missing cells of a short row with `None`. `None.strip()` then raises `AttributeError`. The model returns `Err(NoneCell(...))`; Python's exception text is not modelled.
