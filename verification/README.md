# GoatCounter export and import, modelled in Dafny

GoatCounter can export a site's hits as a CSV file and import such a file
back. Both directions live in `export.go`. This project models their core
and proves what the code promises.

- **The row codec** (module `Codec`). Export writes each hit as a row of
  12 cells, under a header whose first cell carries the export version "1".
  `ExportRow.Read` copies a line of exactly 12 cells into the fields of an
  `ExportRow`, by position. `ExportRow.Hit` validates the fields and builds
  a hit, or reports which fields failed. When the screen-size cell is
  non-empty, only the screen size's own parse error is reported.
- **Finding a value in a sequence** (module `Seqs`), which the codec and the
  session remap share.
- **The textual encodings** the rows rely on (module `Text`): decimal
  integers, `true`/`false`, lower-case hexadecimal, and the textual UUID form
  of section 3 of RFC 4122. The session bytes are big-endian.
- **Import** (module `Importer`). It reads the header and checks the version
  prefix of its first cell. It optionally wipes the site. It then reads every
  line, decodes and validates it, and skips a failing line after recording its
  error. Each line's session token is remapped through a table that gets a
  freshly minted ID the first time the token is seen. The lookup happens
  before the token is entered, so the first hit of every token gets the zero
  session. The model keeps this as the code has it.
- **The export loop** (module `Exporter`, class `Export`). It asks the store
  for up to 5000 hits after the checkpoint `LastHitID`, which starts at
  `StartFromHitID`. It moves the checkpoint to the page's last ID and stops on
  an empty page or a listing error. Otherwise it adds the page size to
  `NumRows`, writes one row per hit and flushes, stopping if the flush fails.

The store is a sequence of hits in strictly ascending ID order. `Hits.List`
is specified over it as "the first `limit` hits with an ID above `after`".
The library parsers and formatters the codec calls are function-valued fields
of a `Library` value: zvalidate's Boolean, Integer and Date validators,
RFC 3339 formatting, and the screen size's text form. `FaithfulFor(lib, h)`
states that these parsers read back what the formatters write for the values
of one hit `h`, and `FaithfulForAll(lib, hs)` states it for every hit of a
list. The premise is per hit because no string form can read back every
`seq<real>`, the model's stand-in for `[]float64`, while every finite list of hits has a library
that reads it back (`Codec.FaithfulLibraryExists`). The export-then-import
round trip assumes only that. Failures of the store and of the CSV writer are
inputs: `listFails(b)` and `flushFails(b)` say whether page `b` fails. The
session ID supplier is `mint`, where `mint(j)` is what its j-th call returns.

## Model

| member | source | states |
|---|---|---|
| Codec.Read | export.go:363-379 | A line of exactly 12 cells gives no error, and field i of the row is cell i. Any other length gives the wrong-field-count error, with the number found and 12, and leaves the row unchanged. |
| Codec.FromCells | export.go:348-361 | Cells of the row built from 12 cells are those cells, in field order. |
| Codec.EncodeRowCells | export.go:125-145 | A hit's row has 12 cells. Path, title, referrer, browser and location are copied. Event and first-visit are "true" or "false", matching the flags. Bot is in decimal. The session cell is SessionCell of the hit, 36 characters for a 128-bit session. The referrer-scheme cell is empty exactly when the scheme is absent or empty, and is the scheme otherwise. Screen size and date are the library's texts. |
| Codec.SessionCell | export.go:126-135 | The session cell is the legacy session in decimal when the hit has one, and otherwise the UUID text of the session's 16 bytes; SessionCellReadsBack and SessionCellDetermines show it loses nothing. |
| Codec.EncodeRow | export.go:125-145 | Every hit is written as exactly 12 cells, the header's width; EncodeRowCells states each cell. |
| Codec.SessionCellReadsBack | export.go:126-135 | With no legacy session, the session cell is 36 characters. The 16 session bytes read back from it, and they denote the session. |
| Codec.SessionCellDetermines | export.go:126-135 | Equal session cells come from hits that both do, or both do not, carry a legacy session. Their legacy sessions, or their 128-bit sessions, are then equal. |
| Codec.RowsAppend | export.go:125-146 | The rows written for two runs of hits are the rows of each run, in order. |
| Codec.Failures | export.go:391-401 | The validator records a field exactly when it is invalid. Path fails when empty. Event, bot, first-visit and date fail when they do not parse. Referrer scheme fails when it is non-empty and not one of the four codes. |
| Codec.ToHit | export.go:381-409 | With an empty screen-size cell, the row is accepted if and only if every validated field is valid. A refused row reports exactly the failing fields. With a non-empty screen-size cell, the outcome is that cell's parse result alone. An accepted hit carries the row's fields, the parsed values, the given site, and no ID or session. |
| Codec.RoundTrip | export.go:381-409 | Decoding the row export writes for a valid hit gives back that hit, moved to the importing site and without its ID and session, when the library reads back its own output for that hit. |
| Codec.FaithfulLibraryExists | export.go:381-409 | For every list of hits there is a library whose parsers read back what export wrote for each of them, so the round trip's premise can be met. |
| Text.FormatBool | export.go:142-143 | %t writes "true" or "false", and "true" exactly for true. |
| Text.FormatIntInjective | export.go:128 | Different integers are written as different decimal texts. |
| Text.UuidRoundTrip | export.go:130-133 | The 16 bytes read back from their textual UUID form. |
| Text.DecimalIsNotUuid | export.go:126-135 | No decimal text equals a UUID text, so the two session cell shapes are never confused. |
| Text.BigEndianRoundTrip | export.go:130 | A number below 256^n reads back from its n big-endian bytes. |
| Hits.SessionBytes | export.go:130 | A session's bytes are 16 and denote the session. |
| Importer.DecodeAllSnoc | export.go:276-294 | Decoding one more line appends that line's outcome to the outcomes so far. |
| Importer.DecodeLine | export.go:277-294 | A reader error is reported as such, a line of other than 12 cells gets the count error, and a line decodes exactly when it has 12 cells that ExportRow.Hit accepts; a decoded line yields that hit with the session cell (the fifth) as its token. |
| Importer.GoodAndErrorsPartition | export.go:276-294 | Every line adds either one decoded hit or one error: the two counts add up to the number of lines. |
| Importer.GoodIndices | export.go:276-304 | Each decoded hit has one source line, and that line exists. |
| Importer.GoodIndicesAscend | export.go:276-304 | Hits are appended in ascending line order. |
| Importer.GoodIndicesExact | export.go:276-304 | A line is the source of a hit exactly when it passed the CSV read, `Read` and `Hit`. |
| Importer.GoodIndicesPick | export.go:276-304 | The k-th appended hit is the one decoded from its source line. |
| Importer.AllDecoded | export.go:276-304 | When every line decodes, no error is recorded and the decoded values are the lines' values, in order. |
| Seqs.IndexOf | export.go:296-300 | The position found is the first occurrence of the token. |
| Importer.KnownTokenStep | export.go:297-301 | A token already in the table leaves the table and the minted count unchanged, and its stored ID is the one minted for it. |
| Importer.NewTokenStep | export.go:297-300 | A new token enters the table with the next minted ID, and the count of minted IDs grows by one. |
| Importer.AssignedSessionStable | export.go:296-301 | A later line never changes the session an earlier hit was given. |
| Importer.SkippedLineStep | export.go:281-294 | A line that fails to read, to fit the row or to validate adds its error and nothing else. |
| Importer.LastSession | export.go:297-301 | The newest hit gets the ID already stored for its token, or the zero session when the token is new. |
| Importer.KnownTokenHolds | export.go:296-304 | A decoded line with a known token appends its hit with the stored session, and keeps the table. |
| Importer.NewTokenHolds | export.go:296-304 | A decoded line with a new token appends its hit with the zero session, and enters the token with a fresh ID. |
| Importer.DecodedLineStep | export.go:285-304 | A decoded line adds its hit and no error. |
| Importer.IngestLines | export.go:276-310 | The loop appends one hit per decoded line, in input order, with the session the remap gives it. It records one error per other line, in order. It counts the decoded lines in n, enters every decoded token in the table once, and mints one ID per distinct token. |
| Importer.Import | export.go:241-333 | An unreadable header aborts. A first cell without the version prefix aborts with the version message. A failing wipe aborts after the wipe is attempted. Otherwise the loop runs over all lines, after the wipe when one was asked for. |
| Importer.VersionMessageAsWritten | export.go:255-260 | The version message as built, quoting `header[0][:1]`, the first byte of the first cell, which it needs; the model quotes the first character, the same for an ASCII cell. |
| Importer.PassesGate | export.go:255 | A header passes the version gate exactly when its first cell starts with "1"; a header that passes has a first character for the message to quote. |
| Importer.VersionSliceUndefinedOnRejectedHeaders | export.go:255-258 | The gate rejects the headers [""] and [], and for both the quoted slice is undefined. |
| Importer.VersionMessage | export.go:255-260 | The version message starts with the fixed text. It agrees with the message as built wherever that one is defined. |
| Importer.ExportHeaderPassesGate | export.go:101-103 | The header export writes passes the import version gate. |
| Importer.LaterHitsShareSession | export.go:296-301 | All hits of a token after its first carry the same session. |
| Importer.FirstHitOfTokenGetsZero | export.go:296-301 | The first hit of a token gets the zero session, while its later hits get the ID minted for it, which is non-zero when the supplier never yields zero. |
| Importer.DifferentTokensApart | export.go:296-301 | With a supplier whose IDs for the distinct tokens are pairwise different, later hits of different tokens carry different sessions. |
| Importer.ImportOfExport | export.go:125-145 | Importing the rows export wrote for valid hits, with a library that reads back each of them, refuses none of them. It rebuilds every hit in order, with the session cell it was written with as its token. |
| Exporter.FirstAfterSplits | export.go:114 | The hits before the position have IDs at most the checkpoint, and the hit at it (if any) a larger ID. |
| Exporter.FirstAfterUnique | export.go:114 | In an ascending store, that split position is unique. |
| Exporter.PendingExactly | export.go:114 | The hits pending after a checkpoint are exactly the stored hits with a larger ID. |
| Exporter.List | export.go:114-115 | A page has at most `limit` hits. Its last ID is that of its final hit, or the checkpoint when it is empty. It is empty exactly when the limit is 0 or nothing is pending. |
| Exporter.ListTakesPending | export.go:114 | A page is the first `limit` pending hits, or all of them when fewer remain. |
| Exporter.ListPage | export.go:114 | Every hit of a page is a stored hit above the checkpoint, and the page is ascending. |
| Exporter.PageAdvances | export.go:114-115 | A page is the next run of the store. The new checkpoint's position is right after it. A non-empty page moves the checkpoint up, and an empty one means the store is exhausted. |
| Exporter.ResumeFromCheckpoint | export.go:40-41 | After n pending hits are written, the hits pending after the last of them are the rest, so resuming from LastHitID repeats and loses nothing. |
| Exporter.PendingPrefix | export.go:105-158 | The first n pending hits are the n stored hits from the checkpoint's position on. |
| Exporter.RowsOfRuns | export.go:125-146 | Rows written for two adjacent runs of the store are the rows of the joined run. |
| Exporter.WritePage | export.go:125-146 | Writing a page appends one row per hit, in page order. |
| Exporter.PassStops | export.go:114-121 | An empty page, or a listing error, stops the loop with nothing more written. It fails exactly on a listing error. |
| Exporter.PassWrites | export.go:123-152 | A page that is listed writes its rows, adds its size to the count, and moves the checkpoint to its last hit. The loop goes on unless the flush fails. |
| Exporter.Stopped | export.go:105-158 | When the loop has stopped, its state describes a prefix of the pending hits, and all of them unless it failed. |
| Exporter.PageSize | export.go:114 | While the loop goes on, the next page holds a full batch of 5000 of the hits not yet written, or all of them when fewer are left. |
| Exporter.CountStep | export.go:114-123 | A pass that lists a non-empty page without error adds the page's size to the count; an empty page or a listing error leaves the count alone. Either way the count stays the number of full batches, or the rest, of the passes that wrote. |
| Exporter.RunEnds | export.go:109-157 | The stopped loop's errors and row count amount to Outcome: the passes before the last met no error and wrote full pages, the last one stopped the loop, and NumRows counts the pages written. |
| Exporter.OutcomeStopsAtFirst | export.go:109-157 | The last page a run tries is the first one whose listing or flush fails or that finds nothing left; no earlier page does. |
| Exporter.OutcomeUnique | export.go:109-157 | The failures of listing and flushing and the number of pending hits decide the number of pages tried, whether the run fails and NumRows: two runs over the same inputs agree on all three. |
| Exporter.Export.NextPage | export.go:110-157 | One pass moves the checkpoint to the listed page's end. An empty page or a listing error ends the loop with nothing written, failing exactly on the error. Otherwise the page's rows follow the earlier ones, NumRows grows by the page's size, and the loop goes on unless the flush fails. Each pass keeps the loop invariant and advances through the store. |
| Exporter.Export.Passes | export.go:109-157 | The loop makes passes 0, 1, ... until one stops it. It returns a stopped loop state; only the last pass may have met a listing or flush error, a listing error there fails the loop, and the loop fails only on an error of that pass. NumRows is 5000 rows for each pass before the last, capped by the pending hits, plus the last page when that pass failed on its flush. |
| Exporter.Export.Pass | export.go:110-157 | One pass, numbered by the page it lists: NextPage with that page's listing and flush errors, keeping what the loop knows of its errors and its row count. |
| Exporter.Export.Run | export.go:105-158 | Run writes the header and then the rows of the first NumRows hits pending after StartFromHitID, in ascending ID order. LastHitID never falls below StartFromHitID or below the last written ID. Without a failure, every pending hit is written and LastHitID is the last written ID, or StartFromHitID when there was none. When no listing or flush fails, the run does not fail. Outcome fixes the rest from the failures and the number of pending hits: the loop tries pages until the first one with a listing or flush error or with nothing left; a listing error there fails the run with its page unwritten, a flush error fails it with its page written, and NumRows is the pending hits capped at 5000 per written page (so 12000 pending hits with a failing second listing give 5000 rows and a failure). |

## Left out

- gzip compression, CSV tokenising and quoting, the file (create, sync,
  stat, close, remove) and its SHA-256 hash: rows are sequences of strings.
  Whether the CSV reader fails on a record is part of the input (`Line`).
- The SQL statements (`ByID`, `Create`, `Exports.List`, the `update exports`
  statements), mail (`blackmail.Send`, `importError`), logging, and the sleeps
  that only run in production: they are side effects, not behaviour of the loops.
- The work after the export loop (closing the writer, size in MiB, hash,
  storing the result): file system and floating point.
- `Memstore.Append` and `Memstore.SessionID`, a store shared between
  goroutines. The appended hits are the result of `IngestLines`, and the IDs
  are the supplier `mint`.
- Importer.IngestLines: the reader's output is a finite sequence of lines,
  and each reader error consumes one of them, so the loop always ends. The
  loop at export.go:276-283 leaves only on io.EOF, and it does not end when
  the reader keeps failing without ever reaching the end, as on a truncated
  gzip stream.
- Importer.VersionMessageAsWritten: strings are sequences of characters, so
  the message quotes the first character of the first cell where the source's
  `header[0][:1]` takes its first byte. The two differ when the cell starts
  with a multi-byte UTF-8 character, such as a byte-order mark; the source
  then quotes a lone byte of it. Whether the message can be built does not
  differ: a cell has a first byte exactly when it has a first character.
- Exporter.Export.Run: `written` is what was handed to the buffered CSV
  writer, not what reaches the file. The only flush follows a written page
  (export.go:148), and closing the gzip writer (export.go:176) does not flush
  the CSV writer, so a run that writes no page leaves even the header
  unflushed: the export file is then empty, and an import of it stops on the
  reader error of its header (export.go:249-252).
- Concurrency: both loops are modelled as running alone.
- The errors.Group cap of 50 retained errors is not modelled: every error is
  kept, in order.
- The screen size's numbers (`[]float64`) are exact reals, and their text
  form is library code (`joinSize`, `parseSize`).
- Times are whole seconds plus a zone offset: the RFC 3339 layout that
  export uses carries no fractions of a second.
- Integer widths are unbounded. IDs, the bot flag and legacy sessions are not
  limited to 64 bits, and NumRows is not limited to the width of int.
- Importer.DecodeLine: each line's cells, or its reader error, are given.
  Go's CSV reader takes the width of the first record, the header, and
  reports every later record of another width as a reader error
  (`ErrFieldCount`), so the count error of ExportRow.Read (export.go:365-366)
  is met in the source only when the header itself is not 12 cells wide.
- Exporter.List: the store is taken to list hits by ascending ID, as the
  export relies on. `Hits.List` is not part of this model, and a listing
  error is an input flag that does not change the page.
- Exporter.Export.Run: the nillable `LastHitID` and `NumRows` fields are plain
  values. Before Run they hold the values Run starts from, rather than nil.
- Codec.ToHit: zvalidate's `Required` is taken as "non-empty". zvalidate is
  not part of this model.
- The referrer-scheme codes "h", "o", "g" and "c" come from hit.go, which is
  not part of this model.
- Uint128's byte order is taken as big-endian. zint is not part of this model.

## Findings

| source | as written | input that shows it | evidently intended | confidence | as-written member | corrected member |
|---|---|---|---|---|---|---|
| export.go:255-258 | A header that fails the version gate is reported with `header[0][:1]`, the first byte of its first cell. | The header `[""]`, a first cell that is empty. It fails the gate, and slicing one byte out of "" is out of range, so the report itself panics. An empty header `[]` fails on `header[0]` the same way. | Report the wrong version for every rejected header, quoting whatever of the first byte there is. | not executed | Importer.VersionMessageAsWritten | Importer.VersionMessage |
