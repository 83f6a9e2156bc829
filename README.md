# ClickView video API — a Dafny model of the video store and its handlers

The service keeps a list of video metadata records in memory. The list is
loaded once from a seed file. The handlers of six HTTP routes read it and
change it, and every change is written whole to a separate snapshot file.
This project models that store (`dataBaseHandler` in `api.py`) as a Dafny
class, and the handlers' decision logic as methods that call it.

- `text.dfy`, module `Text`: the Python string behaviour the code relies on.
  This is `str.split(",")`, which keeps empty fields, `str.replace(" ", "")`,
  and the decimal rendering of an id inside a message. `Split` is proved
  inverse to `Join`, and the decimal rendering is proved to read back.
- `records.dfy`, module `Records`: the `Video` record and the pure
  specifications the store is proved against. `HasId` is id membership and
  `FirstIndex` is the first position holding an id. `RemoveFirst` and
  `ReplaceFirst` give the list after a delete or a replace. `Select` is the
  folder and tag filter. Lemmas cover order, multiplicity, emptiness and id
  uniqueness.
- `store.dfy`, module `Store`: class `VideoStore`. Its field `videos` is the
  record list, and the ghost field `persisted` is what the snapshot file
  holds. Each method is proved against the functions of `Records`. Every
  successful change leaves `Synced()` (snapshot equals list), and a failed
  delete or replace leaves both unchanged.
- `routes.dfy`, module `Routes`: the six handlers, returning a status code
  with a message or a record list.

The status codes are modelled as the handlers return them. POST answers 201
when the id already exists and 200 when it appends the record. The
`api.response` decorators at api.py:40-41 document the opposite pairing, so
the code contradicts its own documentation. The model follows the code.

Ids in the DELETE and PUT paths are `nat`: the route's `int` converter
matches only unsigned digit strings. Record ids are `int`. An abort with 404
is modelled as status 404 with a `Message` body holding the text the handler
passes to `api.abort`.

## Model

| member | source | states |
|---|---|---|
| Text.Split | api.py:177 | Python `split(",")`: the field count is one more than the number of commas, and no field contains a comma |
| Text.SplitKeepsEmptyFields | api.py:177 | the empty query splits to one empty field, and "a,,b" keeps its empty middle field |
| Text.JoinSplit | api.py:177 | joining the fields with commas gives back the query: splitting loses nothing |
| Text.SplitJoin | api.py:177 | splitting the comma-join of comma-free fields gives back exactly those fields |
| Text.SplitFieldsAvoid | api.py:177 | a character absent from the query is absent from every field |
| Text.StripSpaces | api.py:84 | `replace(" ", "")`: the result has no space, keeps every other character, and is shorter by the number of spaces |
| Text.StripSpacesFixesSpaceFree | api.py:95 | a segment without spaces is passed on unchanged, so stripping is idempotent |
| Text.StripSpacesConcat | api.py:84 | stripping distributes over concatenation |
| Text.Decimal | api.py:62 | the id in a message is a non-empty digit string with no leading zero unless the id is 0 |
| Text.DecimalRoundTrip | api.py:65 | the digits of a message's id read back to that id |
| Text.DecimalInjective | api.py:76 | different ids give different message texts |
| Records.FirstIndex | api.py:141-143 | the index both loops stop at holds the id, and no earlier record does |
| Records.RemoveFirst | api.py:137-146 | deleting removes exactly the first record with the id: one shorter, earlier records in place, later records shifted down by one, the same records minus that one; no match leaves the list as it was |
| Records.ReplaceFirst | api.py:148-157 | replacing keeps the length, puts the payload at the first match whatever its id, and keeps every other position; no match leaves the list as it was |
| Records.Select | api.py:159-184 | a filter result is no longer than the list, and every record in it matches the query |
| Records.SelectConcat | api.py:164-168 | filtering preserves list order: matches of a prefix come before matches of the rest |
| Records.SelectCount | api.py:179-184 | each record appears as often as in the list when it matches and never otherwise, so the early exit reports each position at most once |
| Records.SelectMembers | api.py:159-184 | a record is in the result exactly when it is in the list and matches |
| Records.SelectEmpty | api.py:85-96 | the result is empty exactly when no record matches |
| Records.AppendFreshKeepsUnique | api.py:48-52 | appending a record with an unused id keeps ids unique, and the id is then present |
| Records.RemoveFirstErasesId | api.py:137-146 | with unique ids, deleting removes the id entirely and keeps the rest unique |
| Records.RemoveFirstKeepsOtherIds | api.py:137-146 | deleting one id leaves the presence of every other id unchanged |
| Records.ReplaceSameIdKeepsUnique | api.py:148-157 | replacing with a payload that keeps the path's id keeps ids unique |
| Records.ReplaceForeignIdDuplicates | api.py:148-157 | for every list, a payload whose id belongs to a record other than the first match makes two records share an id |
| Records.ReplaceCanDuplicateIds | api.py:71-76 | one example of that: in [a, b], PUT on a's id with b as payload leaves [b, b] |
| Store.VideoStore.constructor | api.py:103-106 | the store starts with the seed records, and no snapshot has been written yet |
| Store.VideoStore.WriteToDb | api.py:114-117 | after the write the snapshot equals the in-memory list |
| Store.VideoStore.AddVideo | api.py:119-122 | the record is appended at the end with no uniqueness check, earlier records are unchanged, and the snapshot matches |
| Store.VideoStore.GetVideos | api.py:124-125 | returns the current list itself |
| Store.VideoStore.IdExistIn | api.py:127-135 | the scan answers true exactly when some record holds the id |
| Store.VideoStore.DeleteId | api.py:137-146 | reports success exactly when the id was present; the list becomes RemoveFirst of the old one; the snapshot matches after success and is untouched otherwise |
| Store.VideoStore.UpdateVideoFile | api.py:148-157 | reports success exactly when the id was present; the list becomes ReplaceFirst of the old one; the snapshot matches after success and is untouched otherwise |
| Store.VideoStore.ByFolder | api.py:159-169 | returns, in list order, exactly the records whose folder equals the query, leaving the store unchanged |
| Store.VideoStore.ByTags | api.py:171-184 | returns, in list order, the records sharing a tag with the split query, each position once, leaving the store unchanged |
| Routes.ListVideos | api.py:37-38 | GET answers 200 with the whole list |
| Routes.CreateVideo | api.py:44-53 | an existing id gives 201 "video has already been create" and no change; otherwise the payload is appended, synced, and 200 "Created new video"; ids stay unique and the id is present afterwards |
| Routes.DeleteVideo | api.py:60-65 | an absent id gives 404 and no change; otherwise the first match is deleted, synced, and 200 quoting the id; with unique ids the id is gone afterwards |
| Routes.ReplaceVideo | api.py:71-76 | an absent id gives 404 and no change; otherwise the first match is overwritten, synced, and 200 quoting the id; unique ids stay unique when the payload keeps the path's id |
| Routes.VideosInFolder | api.py:83-87 | the stripped segment is the folder query; 404 quoting the raw segment exactly when no record is in that folder, else 200 with the matches |
| Routes.VideosWithTag | api.py:94-98 | the stripped, comma-split segment is the tag query; 404 quoting the raw segment exactly when no record shares a tag, else 200 with the matches |
| Routes.SpacedRecordsUnreachable | api.py:84-95 | a record whose folder has a space is never found by folder, and one whose every tag has a space is never found by tag |
| Routes.TagSegmentParsed | api.py:93-95 | the segment "y, z" loses its space and splits into the tags y and z |
| Routes.TagQueryScenario | api.py:93-98 | one record tagged x and y is found once by "y, z" and not at all by "q" |

## Left out

- Flask and flask_restplus plumbing (the app, the `Api` object, route decorators, `api.response`/`api.doc` metadata, `app.run`, the global `db`) is framework code. The handlers are methods taking the store as a parameter.
- Schema validation of POST and PUT payloads (`api.model`, `validate=True`, the URL check on `thumbnail`, the RFC 822 `dateCreated` format) is library behaviour. Payloads are assumed to be complete `Video` values, and `dateCreated` and `thumbnail` are plain strings. No field of the schema at api.py:20-31 is marked required, so a payload can pass validation without `id`, `folder` or `tags`. The source then raises a KeyError at api.py:46 when a POST lacks `id`, or otherwise stores the partial record, after which folder and tag queries raise at api.py:167 and api.py:180. The model does not capture those failures.
- The framework's handling of a 404 abort is not modelled. flask_restplus may append a "did you mean" route suggestion to the message, so the body sent can be longer than the `Message` text the handlers' contracts state.
- File I/O and JSON: reading the seed file is the constructor's parameter, and writing the snapshot is the ghost assignment in `WriteToDb`. JSON encoding, a failed write and reloading the snapshot are not modelled.
- Store.VideoStore.WriteToDb: states only that the snapshot equals the list, not that the file was fully overwritten on disk, because the file system is not modelled.
- Unused imports (`requests`, `datetime`, `re`, `operator`, `pprint`) do nothing.
- Concurrent requests and the race between the existence check and the append are not modelled. Each handler runs alone.
- The handlers' messages quote the folder and tag segments as given. Python's `"{}".format` of a string is that string, so no rendering is modelled for them.
