# Caption archiver: a Dafny model of its core

The archiver (`main.py`) reads rows from a spreadsheet ledger. Each row holds a
date (column A), a title (B), a YouTube URL (C) and a status cell (F).
For each row that is not done yet, the archiver fetches the video's caption
tracks and picks one. It downloads that track and stores the text as a
file in a Drive folder, then writes the new file's id into the row's
status cell. A run counts at most `CHECK_LIMIT = 3` rows. It also stops at
the first error whose text contains `quotaExceeded`.

This project models that core in Dafny and proves properties about it.

- `wrappers.dfy` (module `Wrappers`): `Option`, and `Call`, the outcome of a collaborator call. A call either returns a value or raises an exception with a message.
- `text.dfy` (module `Text`): Python's substring test (`in`), `str.split` with a non-empty separator and `str.join`. It proves that split and join round-trip, that no piece contains the separator, and what the first and last pieces are.
- `filename.dfy` (module `Filename`): `clean_filename` and the stored name `clean_filename(f"{date}_{title}") + ".txt"`.
- `tracks.dfy` (module `Tracks`): the caption-track choice.
- `rows.dfy` (module `Rows`): cell defaults, the "already done" test on column F, and video-id extraction.
- `archive.dfy` (module `Archive`): two pieces.
  - `ArchiveRow` models the per-row `try` block.
  - `Scan` is a recursive specification of the row loop. Lemmas about it give the properties of a whole run.
- `ledger.dfy` (module `Ledger`): three pieces.
  - The status column F as an `array<string>`.
  - `ScanLedger`, the imperative `for` loop of `main` with its `continue`s and `break`s. It is proved equal to `Scan`, so its writes to the array are exactly the writes `Scan` lists.
  - `ArchiveRun`, which adds the failed-sheet-read exit.

## How the collaborators are modelled

The network calls are fields of the `Services` datatype. Each field is a function that gives the reply to a call:

- `listCaptions(i, videoId)` gives the caption `items`.
- `download(i, trackId)` gives the decoded caption text.
- `createFile(i, request)` gives the new file id.
- `updateCell(sheetRow, value)` models the write of cell `F{sheetRow}`.

The first argument is the row being handled. For `updateCell` it is the sheet row `i + 2`. So a reply may differ from row to row, as remote state changes during a run. A reply of `Raised(message)` stands for an exception inside the `try` block. Data row `i` of the fetched range `A2:G2000` is sheet row `i + 2`. `ScanLedger` writes the status of data row `i` into `column[i]`.

## Model

| member | source | states |
|---|---|---|
| `Filename.CleanFilenameAt` | main.py:81-83 | the cleaned name has the input's length; each of the nine reserved characters (backslash, slash, colon, asterisk, question mark, double quote, less-than, greater-than, pipe) becomes `-` and every other character is kept |
| `Filename.CleanFilenameSafe` | main.py:81-83 | the cleaned name contains none of the nine reserved characters |
| `Filename.CleanFilenameIdempotent` | main.py:81-83 | cleaning twice gives the same result as cleaning once |
| `Filename.CleanFilenameFixesClean` | main.py:81-83 | a name that has no reserved character is left unchanged |
| `Filename.CleanFilenameAppend` | main.py:81-83 | cleaning works character by character, so it distributes over concatenation |
| `Filename.StoredFileNameParts` | main.py:173-174 | the stored name is the cleaned date, `_`, the cleaned title and `.txt` |
| `Filename.StoredFileNameSafe` | main.py:173-174 | the stored name is date plus title plus 5 characters long, holds no reserved character and is already clean |
| `Archive.FullRowFileName` | main.py:134-135 | for a row with date and title cells, the file name is built from those two cells |
| `Archive.DateOnlyRowFileName` | main.py:134-135 | for a one-cell row, the file name is the cleaned date, `_`, the default title `タイトルなし` and `.txt` |
| `Archive.EmptyRowFileName` | main.py:134-135 | for an empty row, the file name is `不明な日付_タイトルなし.txt` |
| `Rows.CellDefaults` | main.py:134-136 | date, title and URL are the row's own cells when it has them, and `不明な日付`, `タイトルなし` or `""` when it is too short |
| `Tracks.FirstMatch` | main.py:159 | the result of `next(...)` over a generator: the first position whose track satisfies the test, or none if no track does |
| `Tracks.SelectTrack` | main.py:157-163 | on a non-empty listing the choice is a valid position. It is the first manual `ja` track if one exists, else the first `ja` ASR track, else position 0. |
| `Text.Split` | main.py:142 | `str.split` always returns at least one piece |
| `Text.SplitJoin` | main.py:142 | joining the pieces of a split with the separator gives back the string |
| `Text.SplitPiecesSeparatorFree` | main.py:142 | no piece of a split contains the separator |
| `Text.SplitFirstPiece` | main.py:142 | the first piece (`[0]`) is the text before the first separator, or the whole string when there is none |
| `Text.SplitLastPiece` | main.py:142 | the last piece (`[-1]`) is the text after the separator at the last cut, or the whole string when there is none |
| `Rows.VideoIdSpec` | main.py:140-145 | id extraction is total and its result has no `&`. With no `v=` in the URL, the id is the URL's prefix before the first `&`. Otherwise the id is the text after the last `v=`, up to the first `&` after it. |
| `Archive.ArchivedRow` | main.py:150-193 | a stored row chains the replies in the source's order: the track is the selector's choice from a non-empty listing; the file body is the downloaded text, unchanged; the file name is the stored name; the file goes to the configured folder; the status value is the id the file store returned; the cell update returned normally |
| `Archive.ScanFromCountsEligible` | main.py:123-147 | the counted rows are exactly the rows that come before the stop, have an empty status and have a non-empty URL |
| `Archive.ScanFromRespectsLimit` | main.py:118-119 | the count never goes past `CHECK_LIMIT` |
| `Archive.ScanFromCapStop` | main.py:129-131 | a cap stop happens only when the limit is used up, at the first non-done row after the last counted row |
| `Archive.ScanFromCapForced` | main.py:129-131 | with the limit used up and no quota stop, a non-done row after the last counted row forces a cap stop |
| `Archive.ScanFromQuotaStop` | main.py:197-200 | a quota stop is at the last counted row, and that row's pipeline failed with the quota error |
| `Archive.ScanFromOnlyQuotaStops` | main.py:197-201 | a counted row that failed with the quota error is where the scan stopped, so any other error continues |
| `Archive.ScanFromWritesOrdered` | main.py:188-193 | writes are for rows inside the range, in strictly increasing row order, so each row is written at most once |
| `Archive.ScanFromWritesAreArchived` | main.py:183-193 | each write is for a counted row whose pipeline stored a file, and its value is the returned id |
| `Archive.ScanFromArchivedAreWritten` | main.py:183-193 | each counted row whose pipeline stored a file is written with that file's id |
| `Archive.EligibleMembers` | main.py:125-138 | the eligible list holds exactly the rows in the range that have an empty status and a URL |
| `Archive.EligibleIncreasing` | main.py:123 | eligible rows are listed in row order |
| `Archive.RunCountsEligible` | main.py:118-147 | over a whole run, a row is counted if and only if it comes before the stop, has an empty status and has a URL. At most 3 rows are counted, in row order. |
| `Archive.RunCapStop` | main.py:129-131 | a cap stop happens only after 3 rows are counted, at the first row after the last counted one whose status is empty, and every row in between is done. Conversely, when 3 rows were counted and the third did not hit the quota error, any later row whose status is empty makes the run stop at the cap, even if that row has no URL |
| `Archive.RunQuotaStop` | main.py:197-201 | a quota error ends the run at its row; no later row is counted or written; only that error ends the run |
| `Archive.RunWrites` | main.py:183-193 | over a whole run, writes are in row order and at most one per row. A cell is written exactly when its row was counted and the row's pipeline stored a file. |
| `Archive.RunCapEnforced` | main.py:118-147 | with no quota error and N eligible rows, the run counts `min(N, 3)` rows, and it stops at the cap when N > 3 |
| `Ledger.ApplyAt` | main.py:188-193 | a cell that no write addresses keeps its value, and a written cell holds the value written to it |
| `Ledger.LedgerAfterRun` | main.py:123-201 | after a run, a status cell holds a new id exactly when its row was counted and stored a file; every other cell is unchanged |
| `Ledger.ScanLedger` | main.py:118-201 | the loop's report equals `Scan`, and the status column afterwards is the old column with the report's writes applied |
| `Ledger.ArchiveRun` | main.py:109-201 | a failed sheet read ends the run with no cell changed; otherwise the result is the scan of the fetched rows |

## Left out

- Authentication (`authenticate_user`, main.py:35-78): token files, the OAuth flow, console input and the `code=` regex. These are credential and I/O plumbing.
- Building the API clients and every `.execute()` call. The `Services` replies stand in for these calls.
- The spreadsheet-id regex and the sheet read (main.py:109-116). The model takes the fetched rows, or a read error, as its input.
- The byte handling around the caption text: UTF-8 decoding, re-encoding and `MediaIoBaseUpload`. The model passes the decoded text through unchanged as the file body.
- All `print` output.
- The `except` branch of id extraction (main.py:143-145). It is dead code, because `split(...)[-1].split('&')[0]` cannot raise. So a URL without `v=` is counted and sent to the caption service, not skipped.
- `KeyError`s from malformed API replies, such as a track without `snippet.language`. Replies are typed values, so a malformed reply shows up only as a `Raised` call.
- `Archive.ArchiveRow`: a file created before a failing cell update still exists in Drive. The model records nothing about it, because the Drive side is abstract.
- Caption normalisation and a "no captions" marker. The code does neither: it uploads the downloaded text verbatim (main.py:169, 181), and a video with no tracks is counted and continues without a write (main.py:153-155). A URL without `v=` is counted, not skipped (see above).
