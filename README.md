# Language registry and Quick Reference client, in Dafny

This project models two programs that belong together.

- **The language registry service** (`Test/hello_2/src/app.py`). A Flask server keeps a
  sqlite table `languages(id INTEGER PRIMARY KEY AUTOINCREMENT, name, color)`. The table
  is created and seeded with seven languages the first time the server starts. Handlers
  list the rows, get one by id, create one, partially update one and delete one.
- **The Quick Reference client** (`Test/hello/src/hello.go`). A Fyne app fetches that
  list, or falls back to a built-in copy of the seed list. For every language whose
  colour string is exactly six bytes long it decodes the colour into an opaque RGBA
  value and adds a card.

Files and modules:

- `optional.dfy` (`Optional`): the `Option` type.
- `language_table.dfy` (`LanguageTable`): the table as a value.
  - `Db` holds the rows, the scan order, the AUTOINCREMENT counter and whether the
    database file exists.
  - `WellFormed` is the store invariant.
  - Each handler is a pure transition (`Init`, `Listing`, `Get`, `Add`, `Update`,
    `Delete`).
  - The lemmas state what the handlers promise, alone and in combination.
- `language_api.dfy` (`LanguageApi`): class `LanguageStore`.
  - Its fields are `dbExists`, `rows`, `order` and `lastId`, and the handlers update
    them in place.
  - Each handler method ensures that its new state and its response equal the matching
    transition of the old state.
  - `Session` is a client that replays the round trip create → get → update → delete →
    delete.
- `quick_reference.dfy` (`QuickReference`): the client.
  - The hex decoder with its inverse `HexPair`.
  - The card list as a function `Cards` and as the loop `BuildCards`.
  - The fallback list, and its agreement with the server's seed rows.

Modelling choices:

- A request body is `Option<map<string, string>>`. `None` means no body or JSON `null`.
  Python's `not data` is `Truthy`: the body must be present and non-empty.
- sqlite's AUTOINCREMENT gives a new row the id `lastId + 1`, where `lastId` is the
  largest id ever issued. The invariant keeps every stored id at or below `lastId`.
  No handler lowers the counter, so ids grow strictly and a deleted id is never handed
  out again, whatever requests follow (`DeletedIdNotReissued`).
- `SELECT * FROM languages` scans in rowid order. The model keeps that order in
  `order`, and the invariant keeps it strictly increasing.
- The handlers require `dbExists`. `init_db()` runs when the module is imported
  (app.py:43), before any request is served.
- The update handler checks the body before the id (app.py:98-108), so an empty body
  on an unknown id gets 400 (`UpdateNeedsData`).
- `Handle` routes an update to the corrected `Update`. The update as written leaves the
  same table on every request and differs only in its answer
  (`UpdateAsWrittenSameTable`). So the table-level results over request sequences
  (`Serve`, `RetiredIdStaysRetired`, `DeletedIdNotReissued`) hold for the program as
  written too. The answers they describe are the corrected ones.

## Model

| member | source | states |
|---|---|---|
| LanguageTable.Listing | Test/hello_2/src/app.py:47-56 | the list has one entry per stored id, in strictly increasing id order, each entry being the stored row under that id |
| LanguageTable.ListingExact | Test/hello_2/src/app.py:52-53 | a language object is in the list exactly when a row with its id, name and colour is stored |
| LanguageTable.InsertRow | Test/hello_2/src/app.py:21 | an INSERT keeps the invariant, stores the row under `lastId + 1`, which no existing row has, and advances the counter by one |
| LanguageTable.InsertAll | Test/hello_2/src/app.py:38 | `executemany` keeps the invariant and advances the counter by the number of rows inserted |
| LanguageTable.InsertRowListing | Test/hello_2/src/app.py:83-88 | after one INSERT the list is the old list with the new object appended |
| LanguageTable.InsertAllListing | Test/hello_2/src/app.py:38 | inserting rows in sequence appends them to the list, in order, under consecutive fresh ids |
| LanguageTable.Init | Test/hello_2/src/app.py:12-40 | initialisation leaves an existing store untouched; otherwise it produces a well-formed existing store; the counter never goes down |
| LanguageTable.SeedData | Test/hello_2/src/app.py:28-36 | definition, no contract: the seven (name, color) seed pairs, in order |
| LanguageTable.InitSeeds | Test/hello_2/src/app.py:14-38 | seeding a missing store lists exactly the seven seed rows in order, under ids 1 to 7, with the counter at 7 |
| LanguageTable.InitIdempotent | Test/hello_2/src/app.py:14 | a second initialisation changes nothing |
| LanguageTable.Get | Test/hello_2/src/app.py:64-71 | definition, no contract: the stored row with that id, or 404 "Language not found" |
| LanguageTable.GetAgreesWithListing | Test/hello_2/src/app.py:64-71 | get by id finds exactly the object the list holds under that id, and answers 404 exactly when no listed object has that id |
| LanguageTable.Add | Test/hello_2/src/app.py:74-92 | the create handler keeps the store invariant, never lowers the counter, and every id it adds lies above the old counter |
| LanguageTable.HasNameAndColor | Test/hello_2/src/app.py:77 | definition, no contract: the create guard, a truthy body holding both `name` and `color` |
| LanguageTable.AddRejects | Test/hello_2/src/app.py:77-78 | without a truthy body holding both `name` and `color`, create answers 400 "Name and color are required" and leaves the store unchanged |
| LanguageTable.AddCreates | Test/hello_2/src/app.py:83-92 | a valid create answers 201 with the submitted fields under an id above every id ever issued; a later get returns that object; the list gains exactly it, at its end |
| LanguageTable.Assign | Test/hello_2/src/app.py:122-127 | definition, no contract: the row after `UPDATE ... SET` with the collected columns and values, applied in order |
| LanguageTable.Merge | Test/hello_2/src/app.py:114-120 | definition, no contract: the partial merge, where each of `name` and `color` present in the body replaces the stored field |
| LanguageTable.DictOf | Test/hello_2/src/app.py:131-133 | definition, no contract: `dict(cursor.fetchone())`, the record for a named row, a TypeError (`None`) for a plain tuple |
| LanguageTable.UpdateWith | Test/hello_2/src/app.py:95-136 | the update handler, whatever the shape of the re-read row, keeps the store invariant, the counter and the set of ids |
| LanguageTable.Update | Test/hello_2/src/app.py:95-136 | the corrected update keeps the store invariant, the counter and the set of ids |
| LanguageTable.UpdateAsWritten | Test/hello_2/src/app.py:95-136 | the update as written keeps the store invariant, the counter and the set of ids |
| LanguageTable.UpdateNeedsData | Test/hello_2/src/app.py:98-99 | a missing or empty body gets 400 "No data provided" and no change, whether or not the id exists |
| LanguageTable.UpdateUnknownId | Test/hello_2/src/app.py:105-108 | a non-empty body for an unknown id gets 404 "Language not found" and no change |
| LanguageTable.UpdateMerges | Test/hello_2/src/app.py:114-136 | on an existing id only the body's `name` and `color` overwrite the row; other rows, the scan order, the key set and the counter are unchanged; the answer equals a later get |
| LanguageTable.UpdateOtherKeysOnly | Test/hello_2/src/app.py:122-136 | a body with neither `name` nor `color` changes nothing and answers with the current row |
| LanguageTable.AssignMerges | Test/hello_2/src/app.py:111-127 | the SET list built by appending the `name` and then the `color` assignment performs exactly the partial merge |
| LanguageTable.UpdateAsWrittenFails | Test/hello_2/src/app.py:101-133 | as written, every update of an existing id with a non-empty body answers 500, although the store already holds the merged row; the corrected update answers with the row |
| LanguageTable.UpdateAsWrittenSameTable | Test/hello_2/src/app.py:98-133 | on every request the update as written leaves the same table as the corrected update; only the answer differs |
| LanguageTable.UpdateAsWrittenCounterexample | Test/hello_2/src/app.py:131-133 | on the seeded store, `{"color": "000000"}` for id 1 answers 500 while id 1 now reads Python/000000 |
| LanguageTable.Without | Test/hello_2/src/app.py:149 | removing an id from the scan order keeps exactly the other ids |
| LanguageTable.WithoutIncreasing | Test/hello_2/src/app.py:149 | removing an id keeps the scan order strictly increasing |
| LanguageTable.WithoutLength | Test/hello_2/src/app.py:149 | removing an id that occurs in the order shortens it by exactly one |
| LanguageTable.WithoutAbsent | Test/hello_2/src/app.py:149 | removing an absent id leaves the order as it was |
| LanguageTable.Delete | Test/hello_2/src/app.py:139-153 | the delete handler keeps the store invariant and the counter, and removes at most the given id from the set of ids |
| LanguageTable.DeleteRemovesOne | Test/hello_2/src/app.py:144-153 | deleting an existing id answers "Language deleted successfully"; that id now gets 404, every other id answers as before, and the list loses exactly that entry |
| LanguageTable.DeleteTwice | Test/hello_2/src/app.py:144-147 | a second delete of the same id answers 404 and changes nothing |
| LanguageTable.CreateNeverReissues | Test/hello_2/src/app.py:21 | a create issues an id above every id at or below the counter |
| LanguageTable.DeleteKeepsCounter | Test/hello_2/src/app.py:149 | a deleted id is out of the table and still at or below the counter |
| LanguageTable.Handle | Test/hello_2/src/app.py:46-153 | whichever handler serves a request, the invariant holds afterwards, the counter never goes down, and any id added lies above the old counter |
| LanguageTable.Serve | Test/hello_2/src/app.py:46-153 | requests served in sequence keep the invariant, never lower the counter, and give one answer per request |
| LanguageTable.RetiredIdStaysRetired | Test/hello_2/src/app.py:21 | an id at or below the counter and absent from the table is, over any later request sequence, never answered by a create and never back in the table |
| LanguageTable.DeletedIdNotReissued | Test/hello_2/src/app.py:21 | once deleted, an id is never handed out again and never reappears, whatever requests follow |
| LanguageTable.UnknownIdNotFound | Test/hello_2/src/app.py:69-71 | get, update and delete all answer an unknown id with the same 404 "Language not found" and change nothing (for ids sqlite can bind, below 2^63; see Left out) |
| LanguageApi.LanguageStore.constructor | Test/hello_2/src/app.py:10 | a new store stands for a start without a database file |
| LanguageApi.LanguageStore.InitDb | Test/hello_2/src/app.py:12-40 | only when there is no file, create the table and insert the seed rows one by one; the new state is `Init` of the old one |
| LanguageApi.LanguageStore.Insert | Test/hello_2/src/app.py:83-88 | one INSERT in place; the new state is `InsertRow` of the old one and the new id is returned |
| LanguageApi.LanguageStore.GetLanguages | Test/hello_2/src/app.py:46-56 | the loop over the scan answers the full list, as `Listing` describes it |
| LanguageApi.LanguageStore.GetLanguage | Test/hello_2/src/app.py:58-71 | answers as `Get`, without changing the store |
| LanguageApi.LanguageStore.AddLanguage | Test/hello_2/src/app.py:73-92 | new state and answer are those of `Add` |
| LanguageApi.LanguageStore.UpdateLanguage | Test/hello_2/src/app.py:94-136 | builds the SET list step by step; new state and answer are those of the corrected `Update` |
| LanguageApi.LanguageStore.DeleteLanguage | Test/hello_2/src/app.py:138-153 | new state and answer are those of `Delete` |
| LanguageApi.Session | Test/hello_2/src/app.py:43-153 | seed, create Zig/F7A41D (id 8), get it back, set its colour to 000000 keeping its name, delete it, then a second delete answers 404 |
| QuickReference.DigitValue | Test/hello/src/hello.go:67-69 | a hex digit's value is below 16 |
| QuickReference.ParseHexByte | Test/hello/src/hello.go:67-69 | definition, no contract: `strconv.ParseUint(pair, 16, 8)` on a two-byte pair, with the error as `None` |
| QuickReference.Channel | Test/hello/src/hello.go:67-70 | definition, no contract: the parsed value, or 0 when the error is discarded |
| QuickReference.DecodeColor | Test/hello/src/hello.go:65-70 | definition, no contract: the `NRGBA` built from the three pairs with alpha 255 |
| QuickReference.ParseHexByteRoundTrip | Test/hello/src/hello.go:67-69 | the two-digit upper- or lower-case spelling of any byte parses back to that byte |
| QuickReference.ParseHexByteOnlyHexPairs | Test/hello/src/hello.go:67-69 | a pair parses only when, up to letter case, it is the two-digit spelling of the value it yields |
| QuickReference.ParseHexByteFails | Test/hello/src/hello.go:67-69 | parsing fails exactly when one of the two bytes is not a hex digit |
| QuickReference.DecodeColorRoundTrip | Test/hello/src/hello.go:65-70 | R, G and B come from the pairs at positions 0-2, 2-4 and 4-6: decoding the spelling of (r, g, b) gives (r, g, b, 255) |
| QuickReference.InvalidPairIsZero | Test/hello/src/hello.go:67-70 | for each of the three pairs, an invalid pair gives that channel 0 instead of skipping the card, and a valid pair gives its parsed value; the card keeps the name and id |
| QuickReference.HasCard | Test/hello/src/hello.go:66 | definition, no contract: a colour string of exactly six bytes |
| QuickReference.CardOf | Test/hello/src/hello.go:67-79 | definition, no contract: the card of a language, with its name, its id and its decoded colour |
| QuickReference.Cards | Test/hello/src/hello.go:63-83 | definition, no contract: the cards of the eligible languages, in input order |
| QuickReference.BuildCards | Test/hello/src/hello.go:63-83 | the loop's cards are exactly `Cards` of the language list |
| QuickReference.CardsAppend | Test/hello/src/hello.go:63 | the cards of a concatenation are the concatenation of the cards, so input order is kept |
| QuickReference.CardsSound | Test/hello/src/hello.go:66-81 | every card comes from a language with a six-byte colour and carries its name, id and decoded colour, with alpha 255 |
| QuickReference.CardsComplete | Test/hello/src/hello.go:66-81 | every language with a six-byte colour gets its card |
| QuickReference.CardsAllEligible | Test/hello/src/hello.go:63-83 | when every colour has six bytes there is one card per language, position by position |
| QuickReference.CardsSkip | Test/hello/src/hello.go:66 | a language whose colour is not six bytes long adds no card |
| QuickReference.Ascii | Test/hello/src/hello.go:45-53 | an ASCII string becomes its bytes one for one, each with its character's code |
| QuickReference.Fallback | Test/hello/src/hello.go:45-53 | definition, no contract: the seven built-in languages with ids 1 to 7 |
| QuickReference.LanguagesShown | Test/hello/src/hello.go:41-54 | definition, no contract: the fetched list, or the fallback list when the fetch failed |
| QuickReference.ShowLanguages | Test/hello/src/hello.go:41-83 | the cards shown are those of the fetched list, or of the fallback list when the fetch failed |
| QuickReference.FallbackIsSeedData | Test/hello/src/hello.go:45-53 | the fallback list is the server's seven seed rows, in order, under ids 1 to 7 |
| QuickReference.FallbackIsSeedListing | Test/hello/src/hello.go:42-53 | on a failed fetch the client shows exactly what a freshly seeded service lists |
| QuickReference.FallbackCards | Test/hello/src/hello.go:63-83 | every fallback language gets a card, in order |

## Findings

| source | as written | input that shows it | evidently intended | confidence | as-written member | corrected member |
|---|---|---|---|---|---|---|
| Test/hello_2/src/app.py:101-133 | The cursor is opened at line 102. `conn.row_factory = sqlite3.Row` is set only at line 132. A sqlite3 cursor keeps the row factory its connection had when the cursor was created, so `fetchone()` returns a plain `(id, name, color)` tuple. `dict()` of that tuple raises TypeError, and the server answers 500 after the UPDATE was already committed. | PUT /api/languages/1 with `{"color": "000000"}` on the seeded store | answer 200 with the updated row | high; not executed | LanguageTable.UpdateAsWritten (shown by UpdateAsWrittenFails, UpdateAsWrittenCounterexample) | LanguageTable.Update (UpdateMerges), used by LanguageStore.UpdateLanguage |

## Left out

- LanguageTable.Get, LanguageTable.UpdateWith, LanguageTable.Delete, LanguageTable.UnknownIdNotFound: path ids at or above 2^63 are not modelled as failures. Flask's `<int:...>` accepts any run of digits (app.py:58, 94, 138), but sqlite3 cannot bind such an int (app.py:64, 105, 144) and raises OverflowError. So get, update (after the body check) and delete answer 500 there, while the model answers 404. Modelling it would also need the store's ids bounded below 2^63, together with the AUTOINCREMENT limit below.
- Flask routing, the `<int:...>` path converter, `jsonify`, CORS and the server's port are framework plumbing. Path ids are plain `int`s. Responses are a datatype with a `Status` function.
- Request bodies with JSON values other than strings are not modelled. Neither are non-object JSON bodies (a list, a number) or Flask's own 400/415 for bodies that are not JSON. A `null` field value would break sqlite's NOT NULL constraint and give a 500; that is not modelled either.
- sqlite connections, cursors, `commit`, `close` and all I/O are replaced by the in-memory store. Errors from the store itself (file not writable, disk full, the AUTOINCREMENT limit of 2^63-1) are left out.
- `os.path.exists` is the `dbExists` field. Nothing models a file that exists but holds no table. Requests before `init_db` cannot happen (app.py:43).
- The check-then-act race between the existence SELECT and the UPDATE or DELETE is left out, because it needs concurrent requests.
- The HTTP fetch and JSON decoding in `fetchLanguages` are network I/O. They enter the model as a `Fetch` input that is either a list or a failure.
- The server's text reaches the client as ASCII bytes (`FromServer`). The client's UTF-8 encoding of other characters is not modelled.
- QuickReference.ParseHexByte: models `strconv.ParseUint(s, 16, 8)` only on the two-byte strings it receives here, where no range error can occur.
- All Fyne UI construction is left out, because it is UI and side effects: windows, labels, icons, layout, `createLanguageCard`'s widgets and the tap callback's `Printf`. A card is the name, id and colour passed to `createLanguageCard`.
