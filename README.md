# EXIF and resize handlers: a verified model

Two serverless handlers react to images uploaded to a storage bucket. The notification
transport delivers a batch of envelopes. Each envelope carries a JSON message that holds a
batch of storage-change records.

- `exif_handler` opens each referenced image. It collects its EXIF tags into a dictionary keyed by tag name and writes that dictionary as JSON under a key derived from the image's key.
- `resize_handler` shrinks each image to fit 800 x 600. It writes the result as JPEG under `processed/resize/<file name>`.

Both handlers run the same two nested loops. They count successes and failures over every record of every envelope, and return status 200 when nothing failed and 207 otherwise.

The model has six modules:

- `Wrappers`: the `Option` and `Result` types.
- `PosixPath`: how Python's `pathlib` reads an object key on POSIX. The key is split on '/'; empty and "." pieces are dropped; a leading '/' becomes a root part. The module defines `parts`, `parts[1:]`, `name` and `'/'.join`.
- `Pipeline`: the shared batch loop, as the method `HandleBatch` with loop invariants. It is proved against the recursive specification `Outcome`. Processing one item is an oracle `ok(bucket, key)`. The loop keeps the handler's `object_key` local, which stays unbound until the first record whose key could be read. The module also holds the counts that give every record exactly one count (`IntendedOutcome`), and a corrected loop proved against them.
- `ExifTags`: the tag-renaming loop (`RenameTags`) over an insertion-ordered dictionary, as Python's `dict` behaves.
- `ExifLambda`: the EXIF destination key `ExifKey`, including the cut at the last '.' of the whole derived path. It also holds one item's processing and `ExifHandler`.
- `ResizeLambda`: the resize destination key `ResizeKey`, one item's processing and `ResizeHandler`.

The storage service, the imaging library, `json.dumps` and byte decoding are parameters of each handler: `ExifEnv` and `ResizeEnv`. Item processing is proved against those parameters. Whether an item succeeds becomes the pipeline's oracle.

In these places the model follows the code, although a reader of the handlers might expect otherwise:

- A decoded message without `Records` is an empty batch, not an envelope failure.
- An exception raised by `_getexif` fails the record. It is not treated like an image without EXIF.
- The resize upload goes through `upload_fileobj` and sets no content type, so `ResizeLambda.Write` carries none.
- Both the double count and the cut inside a directory happen as the code does them (see Findings).

## Model

| member | source | states |
|---|---|---|
| `PosixPath.Split` | lambdas/exif/handler.py:64 | the pieces of a key between separators: never empty, none holds a '/' |
| `PosixPath.JoinSplit` | lambdas/exif/handler.py:64 | joining the split pieces with '/' gives the key back |
| `PosixPath.SplitJoin` | lambdas/exif/handler.py:64 | splitting pieces joined with '/' gives the pieces back |
| `PosixPath.Clean` | lambdas/exif/handler.py:65 | pathlib keeps only proper components (no empty piece, no "."), never more than it was given |
| `PosixPath.CleanSegments` | lambdas/exif/handler.py:65 | proper components are kept as they are |
| `PosixPath.Parse` | lambdas/exif/handler.py:64-65 | `Path(key)`: all kept components are proper, and the path is rooted exactly when the key starts with '/' |
| `PosixPath.ParseJoin` | lambdas/exif/handler.py:64-65 | a key with redundant separators or "." pieces keeps its proper components in order |
| `PosixPath.ParseSegments` | lambdas/exif/handler.py:64-65 | a key written as proper segments parses to exactly those segments, unrooted |
| `PosixPath.PartCount` | lambdas/exif/handler.py:65-66 | `len(Path(key).parts)`: at least the number of components (the root counts as one more), and 0 only for a path with neither root nor component |
| `PosixPath.DropFirstPart` | lambdas/exif/handler.py:67 | `parts[1:]`: one part fewer than the path has, and those are its last components |
| `PosixPath.Name` | lambdas/exif/handler.py:69 | `Path(key).name`: the last component, "" when there is none; of a parsed key it never holds '/' and is "" exactly when there is no component |
| `Pipeline.Summarize` | lambdas/exif/handler.py:86-90 | the summary reports both counters; status is 200 exactly when `failed` is 0 and 207 exactly when it is positive |
| `Pipeline.RunRecords` | lambdas/exif/handler.py:38-80 | the inner loop raises only while `object_key` has never been bound, never unbinds it, and adds at most one count per record |
| `Pipeline.RunEnvelopes` | lambdas/exif/handler.py:34-84 | the outer loop never unbinds `object_key` and adds at most one count per envelope and one per record |
| `Pipeline.Outcome` | lambdas/exif/handler.py:31-90 | status is 200 exactly when `failed` is 0 and 207 exactly when it is positive; `processed + failed` never exceeds the envelopes plus all their records |
| `Pipeline.HandleBatch` | lambdas/exif/handler.py:31-90 | the nested loops, with `object_key` carried across records and envelopes, return exactly `Outcome(event, ok)` |
| `Pipeline.RunEnvelopesAppend` | lambdas/exif/handler.py:34-84 | processing two stretches of envelopes in turn is processing their concatenation |
| `Pipeline.RecordsShift` | lambdas/exif/handler.py:39-80 | the counters never steer the inner loop: higher starting counters end higher by as much, with the same exit |
| `Pipeline.EnvelopesShift` | lambdas/exif/handler.py:34-84 | the counters never steer the outer loop either |
| `Pipeline.BadEnvelopeIsolated` | lambdas/exif/handler.py:35-84 | an undecodable envelope anywhere adds exactly one failure, nothing to `processed`, and leaves the envelopes after it unaffected |
| `Pipeline.EmptyMessagesAddNothing` | lambdas/exif/handler.py:34-38 | messages whose `Records` is absent or empty change no counter |
| `Pipeline.NoRecordsSucceeds` | lambdas/exif/handler.py:34-38 | an event without records at either level, including one without `Records`, yields status 200 with 0 processed and 0 failed |
| `Pipeline.SuccessesPlusFailures` | lambdas/exif/handler.py:75-78 | every record is counted either as a success or as a failure |
| `Pipeline.CountsAppend` | lambdas/exif/handler.py:38-80 | success and failure counts add up over concatenated records |
| `Pipeline.LastKey` | lambdas/exif/handler.py:42 | `object_key` stays bound once bound, and is bound after any record whose key could be read |
| `Pipeline.RecordsWithBoundKey` | lambdas/exif/handler.py:39-80 | once `object_key` is bound, each record adds 1 to `processed` (success) or 1 to `failed`, and every later record of the message still runs |
| `Pipeline.UnboundMalformedAbortsMessage` | lambdas/exif/handler.py:39-84 | a record that fails before any key was bound costs two failures and skips the rest of its message; later envelopes still run |
| `Pipeline.RecordsMonotone` | lambdas/exif/handler.py:75-78 | the inner loop never lowers a counter |
| `Pipeline.FailedCoversBadEnvelopes` | lambdas/exif/handler.py:82-84 | `failed` is at least the number of undecodable envelopes |
| `Pipeline.IntendedOutcome` | lambdas/exif/handler.py:39-90 | intended counts: `processed + failed` equals all records plus undecodable envelopes, `failed` covers the undecodable envelopes, and status 200 exactly when nothing failed |
| `Pipeline.AgreesWithIntended` | lambdas/exif/handler.py:39-84 | when `object_key` is bound or the first record reached is readable, the loop counts exactly the intended successes and failures |
| `Pipeline.ReadableFirstRecord` | lambdas/exif/handler.py:39-80 | a message whose first record is readable, or that is reached with `object_key` bound, counts each record once, never raises, and leaves `object_key` bound |
| `Pipeline.OutcomeMatchesIntended` | lambdas/exif/handler.py:34-90 | the handler's summary equals the intended one unless the first record it reaches is unreadable |
| `Pipeline.AllRecordsSnoc` | lambdas/exif/handler.py:34-38 | one more envelope contributes its records and, when undecodable, one bad envelope |
| `Pipeline.CountRecords` | lambdas/exif/handler.py:75-78 | the corrected inner loop counts exactly the successful items as processed and every other record as failed |
| `Pipeline.HandleBatchIntended` | lambdas/exif/handler.py:77-80 | the corrected loop, which never raises while reporting a failure, returns exactly `IntendedOutcome` |
| `Pipeline.UnboundKeyCountsTwice` | lambdas/exif/handler.py:77-84 | a message whose unreadable record precedes a good item yields (207, 0 processed, 2 failed), where (207, 1, 1) is intended |
| `ExifTags.PutKeys` | lambdas/exif/handler.py:60 | `d[k] = v` keeps an existing key in place and appends a new one |
| `ExifTags.PutDistinct` | lambdas/exif/handler.py:60 | `d[k] = v` keeps the keys distinct |
| `ExifTags.PutLookup` | lambdas/exif/handler.py:60 | after `d[k] = v`, `d[k]` is `v` |
| `ExifTags.PutOther` | lambdas/exif/handler.py:60 | `d[k] = v` leaves every other key's value alone |
| `ExifTags.Put` | lambdas/exif/handler.py:60 | `d[k] = v` grows the dictionary by at most one entry |
| `ExifTags.TagOf` | lambdas/exif/handler.py:54 | `TAGS.get(tag_id, tag_id)`: the table's name exactly when the id is in the table, else the id itself |
| `ExifTags.Normalize` | lambdas/exif/handler.py:55-59 | no byte string is stored: bytes are decoded to text, every other value is kept unchanged |
| `ExifTags.Renamed` | lambdas/exif/handler.py:49-60 | the dictionary has at most one entry per reported pair, and at least one when any pair is reported |
| `ExifTags.RenameTags` | lambdas/exif/handler.py:49-60 | the loop builds exactly the dictionary `Renamed` of the reported pairs |
| `ExifTags.RenamedDistinct` | lambdas/exif/handler.py:53-60 | the dictionary never holds a name twice |
| `ExifTags.FirstOccurrencesHas` | lambdas/exif/handler.py:53-60 | keeping each name's first occurrence loses no name |
| `ExifTags.RenamedKeyOrder` | lambdas/exif/handler.py:53-60 | the keys are the names of the reported pairs in order, each kept at its first occurrence: a repeated name keeps its first place |
| `ExifTags.RenamedHasKey` | lambdas/exif/handler.py:53-60 | a key is present exactly when some reported tag id maps to it (its `TAGS` name, or the id itself when unknown) |
| `ExifTags.RenamedLastWins` | lambdas/exif/handler.py:53-60 | the value under a name is the normalized value of the last pair with that name |
| `ExifTags.RenamedAbsent` | lambdas/exif/handler.py:53-60 | no name is present that no reported tag carries |
| `ExifLambda.LastDot` | lambdas/exif/handler.py:67 | where `rsplit('.', 1)` cuts: no index exactly when there is no '.', otherwise a '.' with none after it |
| `ExifLambda.LastDotAt` | lambdas/exif/handler.py:67 | a '.' with none after it is the cut point |
| `ExifLambda.BeforeLastDot` | lambdas/exif/handler.py:67 | `rsplit('.', 1)[0]` is a prefix: the whole string without '.', else the part before a '.' that has none after it |
| `ExifLambda.BeforeLastDotConcat` | lambdas/exif/handler.py:67 | the cut of a concatenation falls in the second half when it holds a '.', else in the first |
| `ExifLambda.ExifPath` | lambdas/exif/handler.py:66-69 | the derived path always starts with "exif" |
| `ExifLambda.ExifKey` | lambdas/exif/handler.py:64-69 | the destination key starts with "exif" and ends with ".json" |
| `ExifLambda.ExifKeyTopLevel` | lambdas/exif/handler.py:68-69 | a one-segment key goes straight under "exif/" with its extension replaced |
| `ExifLambda.ExifKeyIgnoresFirstDirectory` | lambdas/exif/handler.py:66-67 | keys that differ only in their first directory go to the same place |
| `ExifLambda.ExifKeyReplacesExtension` | lambdas/exif/handler.py:67 | with a '.' in the file name, only its last extension is replaced and the directories after the first are kept |
| `ExifLambda.CutInName` | lambdas/exif/handler.py:67 | a '.' in the last component is where the cut falls |
| `ExifLambda.ExifKeyWithoutExtension` | lambdas/exif/handler.py:67 | with a dot-free name, ".json" is appended to the whole path, unless a kept directory has a '.', where the cut then falls |
| `ExifLambda.CutBeforeName` | lambdas/exif/handler.py:67 | with a dot-free last component the cut falls in the directories, or nowhere |
| `ExifLambda.ExifKeyExampleNested` | lambdas/exif/handler.py:64-67 | "uploads/2024/photo.jpg" goes to "exif/2024/photo.json" |
| `ExifLambda.ExifKeyExampleTopLevel` | lambdas/exif/handler.py:68-69 | "photo.jpg" goes to "exif/photo.json" |
| `ExifLambda.ExifKeyExampleDoubleExtension` | lambdas/exif/handler.py:67 | "a.b/c.tar.gz" goes to "exif/c.tar.json" |
| `ExifLambda.ExifKeyExampleNoExtension` | lambdas/exif/handler.py:67 | "x/c" goes to "exif/c.json" |
| `ExifLambda.ExifKeyIntended` | lambdas/exif/handler.py:67 | the corrected key: starts with "exif" and ends with ".json" |
| `ExifLambda.ExifKeyIntendedKeepsDirectories` | lambdas/exif/handler.py:67 | the corrected key keeps every directory after the first and replaces only the file name's extension, for every name |
| `ExifLambda.ExifKeyAsIntended` | lambdas/exif/handler.py:67 | the handler's key equals the corrected one exactly when the name has a '.' or no kept directory has one |
| `ExifLambda.DotInLastDirectory` | lambdas/exif/handler.py:67 | a dot-free name under a dotted directory loses the name: the cut falls in the directory |
| `ExifLambda.IntendedOneDirectory` | lambdas/exif/handler.py:67 | the corrected key of a dot-free name keeps the directory and the name |
| `ExifLambda.ExifKeyExampleDotInDirectory` | lambdas/exif/handler.py:67 | "x/a.b/c" goes to "exif/a.json" where "exif/a.b/c.json" is intended |
| `ExifLambda.Metadata` | lambdas/exif/handler.py:49-62 | the dictionary written: empty for an image without EXIF, otherwise at most one entry per reported pair with distinct keys |
| `ExifLambda.ProcessExif` | lambdas/exif/handler.py:46-75 | a failed download fails the item, so does a raising `_getexif`; a success writes the serialized tag dictionary as `application/json` into the same bucket at `ExifKey(key)`, and the store accepted it |
| `ExifLambda.NoExifStillUploaded` | lambdas/exif/handler.py:49-75 | an image without EXIF is a success that writes the empty dictionary |
| `ExifLambda.ProcessExifSucceeds` | lambdas/exif/handler.py:46-75 | an item succeeds exactly when the image opens, its EXIF can be read (or is absent), the dictionary serializes, and the store takes the upload |
| `ExifLambda.Succeeds` | lambdas/exif/handler.py:46-80 | the pipeline's oracle: an item counts as processed exactly when its processing completes, and never when the object cannot be fetched |
| `ExifLambda.ExifHandler` | lambdas/exif/handler.py:24-93 | `exif_handler` returns the pipeline's outcome with "item succeeds" as the oracle |
| `ExifLambda.MissingObjectIsPartialFailure` | lambdas/exif/handler.py:46-90 | a message with a good photo and a missing object yields (207, 1 processed, 1 failed) |
| `ResizeLambda.ResizeKey` | lambdas/resize/handler.py:52-53 | the destination starts with "processed/resize/", and what follows is the key's last component, holding no '/' |
| `ResizeLambda.ResizeKeySame` | lambdas/resize/handler.py:52-53 | two keys share a destination exactly when their file names agree |
| `ResizeLambda.ResizeKeyOfSegments` | lambdas/resize/handler.py:52-53 | directories are dropped and the file name, extension included, is kept |
| `ResizeLambda.ResizeKeyIgnoresDirectories` | lambdas/resize/handler.py:52-53 | the same file name in different directories maps to the same destination |
| `ResizeLambda.ProcessResize` | lambdas/resize/handler.py:47-55 | a failed download or thumbnail fails the item; a success writes the JPEG encoding of the image thumbnailed to (800, 600) into the same bucket at `ResizeKey(key)`, which the store accepted |
| `ResizeLambda.ProcessResizeSucceeds` | lambdas/resize/handler.py:47-55 | an item succeeds exactly when the image opens, thumbnails, encodes as JPEG and the store takes the write |
| `ResizeLambda.SameNameSameTarget` | lambdas/resize/handler.py:52-55 | two successful items of one bucket with the same file name write the same object |
| `ResizeLambda.Succeeds` | lambdas/resize/handler.py:47-64 | the pipeline's oracle: an item counts as processed exactly when its processing completes, and never when the object cannot be fetched |
| `ResizeLambda.ResizeHandler` | lambdas/resize/handler.py:25-81 | `resize_handler` returns the pipeline's outcome with "item succeeds" as the oracle |

## Left out

- Object storage, the imaging library, `json.dumps` and UTF-8 decoding are parameters of `ExifEnv` and `ResizeEnv`, so the model does not capture what they do. This covers `download_from_s3`, `upload_to_s3` and its type dispatch, `Image.open`, `_getexif`, `thumbnail` with LANCZOS resampling, and JPEG encoding. The model records only that `thumbnail` receives the bound (800, 600) and that the image it leaves behind is what gets encoded.
- Each environment function is deterministic. A real store can answer the same request differently at different times.
- JSON decoding of the envelope is modelled as its result: an `Envelope` is `Undecodable` or a message with an optional record list. A `Records` value that is a string or a dictionary iterates to unreadable records, which the model can represent but does not derive from JSON text.
- A `Records` value that cannot be iterated at all fails the envelope. The model represents that case as `Undecodable`.
- The top-level `len(event.get('Records', []))` in the log line raises when the event's `Records` has no length. That crash of the whole invocation is not modelled: the event's envelopes are a sequence or absent.
- A record whose key is not a string binds `object_key` and then fails when the object is fetched (`download_from_s3`, lambdas/exif/handler.py:46 and lambdas/resize/handler.py:47), before `Path` ever sees it. The model represents it as an `Item` whose download fails, not as its own case.
- The `str(value)` fallback after `bytes.decode(errors="replace")` is not modelled: that decoding cannot raise.
- Logging (`print`, `traceback`), the unused `context` argument, and per-call client construction are not modelled.
- The tag ids and values come from the image as a sequence of pairs, in the library's iteration order. Values other than byte strings are carried as opaque text or representation.

## Findings

| source | as written | input that shows it | evidently intended | confidence | as-written member | corrected member |
|---|---|---|---|---|---|---|
| lambdas/exif/handler.py:79 | the inner `except` formats `object_key`. When no record of the invocation has had a readable key yet, the name is unbound and the formatting raises. The outer `except` then counts the failure a second time and skips the rest of the message. lambdas/resize/handler.py:63 does the same. | one message with records [record without `s3`, readable item that succeeds] | every record counted once: (207, processed 1, failed 1) | not executed | `Pipeline.UnboundKeyCountsTwice` | `Pipeline.HandleBatchIntended` |
| lambdas/exif/handler.py:67 | `rsplit('.', 1)` cuts at the last '.' of the whole derived path, not of the file name | key "x/a.b/c" is written to "exif/a.json" | only the file name's extension replaced: "exif/a.b/c.json" | not executed | `ExifLambda.ExifKeyExampleDotInDirectory` | `ExifLambda.ExifKeyIntendedKeepsDirectories` |

The handler models `ExifHandler`, `ResizeHandler` and `ProcessExif` follow the code as written. The corrected definitions, `Pipeline.IntendedOutcome` with `Pipeline.HandleBatchIntended` and `ExifLambda.ExifKeyIntended`, stand beside them with their properties proved. `Pipeline.OutcomeMatchesIntended` and `ExifLambda.ExifKeyAsIntended` state exactly when the two agree.
