# QtImgur uploader: a Dafny model

This project models `QtImgur`, Lightscreen's client for the Imgur v2
upload API. The client posts each screenshot file as a form-encoded request. It
keeps an in-flight table from network reply to file name, and keeps the
per-reply byte counters. It can cancel one upload by file name or cancel all of
them. It sums the progress of all in-flight transfers into one aggregate. When a
reply finishes, it classifies the result as exactly one outcome.

Layout:

- `handles.dfy` (`Handles`): reply handles and the ordered table's key order.
  It defines the least handle, the ascending key list (`keys()`) and the first
  key holding a value (`key(v)`).
- `progress.dfy` (`Progress`): the byte counters. It also defines their sum over
  a set of handles and the sum the progress loop walks.
- `response.dfy` (`Response`): signals and error kinds, and the scan of the XML
  response as a token list. It also holds the classification of a finished reply.
- `form.dfy` (`Form`): the posted form body and how it splits into fields.
- `qtimgur.dfy` (`Imgur`): the class `QtImgur`, with the in-flight table, the
  counters and a trace of actions as fields. The actions are posts, aborts and
  emitted signals. Each abort and each emitted signal records the table as it
  stood at that moment. This makes "remove the entry, then abort" and "remove
  the entry, then emit" visible in the contracts.

Three details of `tools/qtimgur.cpp` that the model keeps as written:

- Nothing is stored for a reply at upload. A reply that never reported
  progress reads as 0, because a missing property converts to 0. The model
  keeps no entry and reads a missing one as `Counter(0, 0)` (`Stored`).
- The progress total is the sender's fresh pair plus the stored pairs of the
  table's other keys, whether or not the sender is still in the table. A
  canceled reply that still reports progress therefore counts its own pair.
- On completion, the file name is read with `mFiles[reply]`. For a reply no
  longer in the table, this inserts an empty name, which the next statement
  removes. The model reads the name as "" (`FileNameOf`) and removes the reply.

## Model

| member | source | states |
|---|---|---|
| Imgur.QtImgur.constructor | tools/qtimgur.cpp:27-32 | a new uploader has the given API key and codecs, is not in direct-URL mode, and has an empty table, no counters and no actions |
| Imgur.QtImgur.CancelAll | tools/qtimgur.cpp:34-41 | one abort per key of the old table, in key order, each recorded with the old table (re-entry is not modelled); then the table is empty; counters unchanged |
| Imgur.AbortEachOnce | tools/qtimgur.cpp:34-41 | the aborts cancelAll makes cover exactly the handles of the table, one per handle, with no handle aborted twice |
| Imgur.AbortEachDistinct | tools/qtimgur.cpp:36-38 | aborting along a list of strictly ascending keys makes one abort per key, covering exactly the listed keys, with no two aborts alike |
| Handles.AscendingSpec | tools/qtimgur.cpp:36 | the key list of the table holds each handle of the table exactly once, in strictly ascending order |
| Handles.Least | tools/qtimgur.cpp:45 | the least handle of a non-empty set is in the set and below every other element |
| Handles.KeyOf | tools/qtimgur.cpp:45-49 | the lookup by file name finds nothing exactly when no entry holds the name; otherwise it finds an entry holding the name, and that entry has the smallest such key |
| Imgur.QtImgur.Cancel | tools/qtimgur.cpp:43-53 | when no entry holds the name, nothing changes and nothing is aborted; otherwise the first such entry alone is removed, and its reply is then aborted with the entry already gone |
| Imgur.QtImgur.Upload | tools/qtimgur.cpp:55-78 | a file that does not open emits ErrorFile and changes nothing else; otherwise one post to the upload endpoint with the form content type and the form body, and the table gains exactly the new reply with the file's name, its counters reading zero |
| Form.FormBodyFields | tools/qtimgur.cpp:64-68 | when percent-encoding leaves no `&`, the body splits at `&` into exactly the `key=` field and the `image=` field, carrying the encoded key and the encoded base64 contents |
| Form.FieldsSplit | tools/qtimgur.cpp:67 | a field without `&`, followed by `&` and more bytes, splits off as the first field |
| Form.FieldsSingle | tools/qtimgur.cpp:68 | bytes without `&` form a single field |
| Imgur.QtImgur.Progress | tools/qtimgur.cpp:80-99 | stores the sender's fresh pair, changes neither the table nor anything else, and emits the fresh pair plus the sum of the pairs previously stored by every other handle of the table |
| Progress.WalkSum | tools/qtimgur.cpp:86-97 | after the sender's pair is overwritten, walking the key list and skipping the sender sums the other handles' previously stored pairs |
| Progress.SumOthersTally | tools/qtimgur.cpp:92-97 | walking the key list and skipping the sender equals the sum over the table's handles other than the sender |
| Progress.SumOthersAppend | tools/qtimgur.cpp:92-96 | one more key of the walk adds that key's stored pair, unless the key is the sender |
| Progress.TallyRemove | tools/qtimgur.cpp:92-97 | the aggregate does not depend on visiting order: any handle's pair can be taken out first |
| Progress.TallyFrame | tools/qtimgur.cpp:86-87 | storing a pair for a handle outside the summed set leaves the sum unchanged |
| Progress.TallyUnreported | tools/qtimgur.cpp:94-95 | handles that never reported progress contribute zero |
| Progress.TwoTransfersExample | tools/qtimgur.cpp:80-99 | transfers at 50/100 and 20/200, with the first reporting 60/100, give the aggregate 80/300 |
| Imgur.FileNameOf | tools/qtimgur.cpp:104 | the name the table holds for the reply, and the empty name when the reply is no longer in the table |
| Response.UrlField | tools/qtimgur.cpp:126-129 | the element holding the URL is `original` in direct-URL mode and `imgur_page` otherwise |
| Imgur.QtImgur.Reply | tools/qtimgur.cpp:102-164 | removes the reply from the table before emitting; then emits exactly one signal, the classification of the reply under the file name the table held (empty if none), with the table already without the reply |
| Response.Completion | tools/qtimgur.cpp:108-122 | the outcome is an error or an upload under the reply's file name. A canceled transfer is ErrorCancel and any other transport error is ErrorNetwork. With no transport error, a rate-limit header of "0" is ErrorCredits, and any other header value is never ErrorCredits |
| Response.UploadedExactly | tools/qtimgur.cpp:124-160 | with credits left, the outcome is Uploaded(name, url, hash) exactly when no `error` element occurs and the last URL element and the last `deletehash` element have the non-empty texts url and hash; every other outcome is ErrorUpload |
| Response.ScanResponse | tools/qtimgur.cpp:124-153 | the scan reports an error exactly when some `error` start element occurs, and returns the texts of the last URL-option element and the last `deletehash` element (empty when absent) |
| Response.LastTextLatest | tools/qtimgur.cpp:145-151 | a later occurrence of an element overwrites an earlier one: the kept text is that of the last occurrence |
| Response.LastTextAbsent | tools/qtimgur.cpp:131-132 | an element that never occurs leaves its text empty |
| Response.LastOccurrence | tools/qtimgur.cpp:137-153 | an element that occurs has a last occurrence |
| Response.LastOccurrenceText | tools/qtimgur.cpp:145-151 | a non-empty kept text comes from the last occurrence of the element |
| Response.PageResponseExample | tools/qtimgur.cpp:124-160 | a response with a `deletehash` and an `imgur_page` element and credits left is Uploaded with those texts; adding an `error` element makes it ErrorUpload |
| Imgur.CancelThenAbortCompletion | tools/qtimgur.cpp:43-53 | upload, cancel, then the canceled completion: the abort action returned is made with the table already empty, and the outcome is ErrorCancel with an empty file name |
| Imgur.UnreadableThenCancelAll | tools/qtimgur.cpp:57-62 | a file that does not open emits ErrorFile under its name and leaves nothing in flight, so a following cancelAll aborts nothing |

## Left out

- The HTTP transport is left out: the network access manager, the request object and its header setup, and the post itself. The post is recorded as an action with the endpoint URL and content type as constants. The reply handle the transport returns is a parameter of `Upload`.
- Signal/slot dispatch is left out: the `connect` calls and `sender()`. The completion and progress slots are methods that take the reply handle explicitly.
- `QXmlStreamReader` is left out. The response body is the list of tokens it yields, and each start element carries the text `readElementText` returns. Malformed XML and what `readElementText` consumes are not modelled.
- The UTF-8, percent and base64 codecs are given functions (`Codec`), not implementations. The conversion of base64 output to text before percent-encoding is taken as the identity, since base64 output is ASCII.
- File access (`QFile` open, read, close) is an input: `FileRead` says whether the file opened and, if so, gives its contents.
- `deleteLater` of a finished reply is left out. It only releases memory.
- Imgur.QtImgur.Progress: counters are unbounded integers, so 64-bit overflow of the sums is not modelled.
- The header `tools/qtimgur.h` is not part of this model. The table is taken to be an ordered map keyed by reply identity, which fixes the order of `keys()` and `key(v)` as ascending handle order.
- Imgur.QtImgur.CancelAll: an abort that completes synchronously and re-enters the completion slot during the loop is not modelled. Such a re-entry would remove each entry in turn (tools/qtimgur.cpp:104-106). In the model, every abort records the old table only because nothing re-enters; copying the key list first makes the iteration safe but does not keep the table intact.
- Response.Completion: the rate-limit header is given as its value. The case-insensitive header lookup of the transport is not modelled.
