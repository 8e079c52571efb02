# Chat relay: message log and file uploads

This project models the core of a small LAN chat relay, a Flask and Socket.IO
server in one file (`app.py`). Clients send text messages and upload files,
and every client sees the shared history. The model covers three parts of the
server:

- **The message history.** The server keeps an ordered list of records in one
  JSON file. A save reads the list, appends a record and keeps only the newest
  100. A delete drops every record whose id prints (with Python's `str`) the
  same as the requested id. A clear writes an empty list. A file that is
  missing or does not parse reads as an empty history. The file is the
  `MessageStore` class, whose field `log` is the list as the next read returns
  it.
- **Upload checks and naming.** `allowed_file` looks at the client's file name.
  The naming loop then tries the sanitized name, then `base_1.ext`,
  `base_2.ext`, ..., and keeps the first name the upload folder does not hold.
  `os.path.splitext` is modelled as POSIX `splitext`. The folder is the
  `UploadFolder` class, whose field `files` is the set of names it holds.
- **Extension tables.** These are the allow-list, the image/audio/video/file
  dispatch that labels an uploaded file, and the icon template filter.

Modules:

| file | module | contents |
|---|---|---|
| `wrappers.dfy` | `Wrappers` | `Option` |
| `text.dfy` | `Text` | ASCII `lower()`, `split('.')[-1]`, `str(n)` for integers |
| `extensions.dfy` | `Extensions` | allow-list, classification, icons |
| `message_log.dfy` | `MessageLog` | records, load, save, delete, clear |
| `upload.dfy` | `Upload` | `splitext`, the naming loop, the upload handler |

Several values are inputs to the model rather than computed by it:

- the output of `secure_filename`;
- the record id, which the server builds from the clock;
- the timestamp;
- the image preview.

## Model

| member | source | states |
|---|---|---|
| Text.Lower | app.py:95 | lower-casing keeps the length, maps each character on its own, and leaves no ASCII capital |
| Text.LastSegment | app.py:33 | `split('.')[-1]` is the longest dot-free suffix of the name, and a '.' stands right before it when it is not the whole name |
| Text.LastSegmentNoDot | app.py:33 | a name without '.' is its own last segment |
| Text.LastSegmentAfterDot | app.py:95 | the text after the last '.' (what `rsplit('.', 1)[1]` returns) is the last segment |
| Text.LastSegmentSnoc | app.py:33 | a character other than '.' put at the end of a name joins its last segment |
| Text.LastSegmentAppend | app.py:169 | text in front of a '.' does not change the last segment |
| Text.LastSegmentLower | app.py:169 | lower-casing then splitting (line 169) gives what splitting then lower-casing gives (lines 33 and 95) |
| Text.Decimal | app.py:162 | `str(n)` is a non-empty string of digits that starts with '0' only for 0 |
| Text.DecimalRoundTrip | app.py:162 | reading the printed counter back as a number gives the counter |
| Text.DecimalInjective | app.py:162 | different counters print differently |
| Extensions.AllowedFile | app.py:94-95 | an accepted name has a '.' before its last segment, and that segment has two to four characters, as every allow-list entry does |
| Extensions.AllowedFileIff | app.py:94-95 | a name is accepted exactly when some '.' in it is followed by a dot-free extension whose lower-case form is in the 29-entry allow-list; a name without '.' is always rejected |
| Extensions.Classify | app.py:169-181 | a name is labelled image, audio or video only when its lower-cased text after the last '.' is an allowed extension |
| Extensions.KindOf | app.py:170-181 | an extension is an image, audio or video exactly when it is on that list, and a plain file exactly when it is on none of them |
| Extensions.ListsDisjoint | app.py:170-176 | the three dispatch lists do not overlap and are all within the allow-list of lines 81-92 |
| Extensions.LongExtensionIsFile | app.py:170-181 | an extension longer than four characters is on none of the three lists, so the file is labelled a plain file |
| Extensions.ClassifyByExtension | app.py:169-181 | the kind depends only on the lower-cased text after the last '.' |
| Extensions.ClassifyIgnoresPrefix | app.py:169 | any text put in front of a '.' leaves the kind unchanged |
| Extensions.FileIcon | app.py:31-70 | the icon shown is always one of the table's icons, and a name without '.' gets the default page icon |
| Extensions.IconsCoverAllowList | app.py:34-69 | the icon table has an entry for exactly the allowed extensions |
| Extensions.ImageIcons | app.py:45-50 | every image extension shows the picture icon |
| Extensions.AudioIcons | app.py:52-56 | every audio extension shows the note icon |
| Extensions.VideoIcons | app.py:58-62 | every video extension shows the camera icon |
| Extensions.FileIconTable | app.py:31-70 | an allowed name shows the table icon of its lower-cased extension; every other name, including one without '.', shows the default page icon |
| Extensions.IconMatchesKind | app.py:33-70 | for a name with a '.', the icon agrees with the kind the upload handler assigns |
| MessageLog.IdString | app.py:229 | `str()` of an integer id is non-empty, starts with '-' exactly when the id is negative, and is all digits otherwise |
| MessageLog.Load | app.py:124-132 | a missing or unparsable file reads as the empty history; a readable file reads as its list |
| MessageLog.LastN | app.py:138 | for n > 0, `s[-n:]` has length min(\|s\|, n) and is the tail of `s` |
| MessageLog.Saved | app.py:136-138 | the list a save writes is never empty, holds at most 100 records and at most one more than before, ends with the new record, and is a tail of the old history followed by the record |
| MessageLog.SavedShape | app.py:134-140 | a save leaves min(\|old\|+1, 100) records; below the cap the list is the old one plus the record, and at or over the cap the oldest records are the ones dropped |
| MessageLog.SaveOnUnreadableFile | app.py:130-137 | saving over a missing or unreadable file starts a history of one record |
| MessageLog.LastNAppend | app.py:138 | for n > 0, cutting to n before an append does not change the result once the append is cut to n as well |
| MessageLog.SaveAllKeepsNewest | app.py:134-138 | any run of saves keeps exactly the newest 100 of all records seen, in arrival order |
| MessageLog.SaveAllWindow | app.py:138 | after at least 100 saves, exactly the last 100 records saved remain, whatever the history was before |
| MessageLog.Filter | app.py:229 | a list comprehension with a condition never gets longer |
| MessageLog.FilterOnlyKept | app.py:229 | every element the comprehension keeps passes its test |
| MessageLog.FilterAppend | app.py:229 | the comprehension works piece by piece, so the kept elements stay in order |
| MessageLog.FilterCounts | app.py:229 | an element that passes is kept as often as it occurs, and one that fails is gone |
| MessageLog.FilterAllKept | app.py:229 | when every element passes, the list is unchanged |
| MessageLog.Matches | app.py:229 | a record always matches its own id, since equal ids print the same |
| MessageLog.IdStringIntInjective | app.py:229 | two integer ids that print the same are equal |
| MessageLog.NegativeIdsInjective | app.py:229 | a negative integer id prints the same as another integer id only when the two are equal |
| MessageLog.MatchesIntIds | app.py:229 | between integer ids, a record matches exactly when its id equals the requested one |
| MessageLog.Without | app.py:229 | the delete's list is no longer than the history and no record in it prints its id as the requested id does |
| MessageLog.WithoutSpec | app.py:227-232 | after a delete, a record matching the id occurs zero times; every other record occurs as often as before; deleting from a concatenation deletes from each part, so the order is kept |
| MessageLog.WithoutAbsent | app.py:229 | deleting an id that no record has leaves the history unchanged |
| MessageLog.WithoutIdempotent | app.py:229 | deleting the same id twice is the same as deleting it once |
| MessageLog.MessageStore.Open | app.py:124-132 | the store holds what reading the file returns |
| MessageLog.MessageStore.Append | app.py:134-140 | the new history is the old one plus the record, cut to the newest 100; it is within the cap and ends with the record |
| MessageLog.MessageStore.DeleteById | app.py:226-232 | the new history is the filtered old one; no record matching the id remains; an absent id changes nothing; a history within the cap stays within it |
| MessageLog.MessageStore.Clear | app.py:258-260 | the history is empty afterwards, whatever it held |
| Upload.RFind | app.py:159 | `rfind` returns the last index holding the character, or -1 when there is none |
| Upload.SplitExt | app.py:159 | `splitext` splits the name into two parts that concatenate back to it; a non-empty extension starts at the last '.', which comes after the last '/'; the extension is empty or one '.' followed by dot-free text with no '/' |
| Upload.SplitExtWhen | app.py:159 | the extension is non-empty exactly when the last '.' follows the last '/' and some character between them is not a '.' |
| Upload.RFindAppend | app.py:159 | appending text without the character does not move its last index |
| Upload.SplitExtRoundTrip | app.py:159 | splitting base + "." + ext gives back base and "." + ext, when ext has no '.' or '/' and base's last component has a character other than '.' |
| Upload.JoinedLastDot | app.py:159 | the '.' put before a dot-free extension is the last '.' |
| Upload.JoinedLastSep | app.py:159 | putting "." + ext after base, with no '/' in ext, leaves the last '/' where it was |
| Upload.SplitExtAtLastDot | app.py:159 | with a non-dot character between the last '/' and the last '.', the split falls at that '.' |
| Upload.SplitExtHiddenName | app.py:159 | a name such as ".bashrc", whose only '.' leads it, has no extension |
| Upload.ExampleSplit | app.py:159 | "a.txt" splits into "a" and ".txt" |
| Upload.SplitExtNoDot | app.py:159 | a name without '.' has an empty extension |
| Upload.WithSuffix | app.py:160-162 | the candidate for counter n is the name itself exactly when n is 0, and otherwise at least two characters longer |
| Upload.WithSuffixInjective | app.py:162 | different counters produce different candidate names |
| Upload.CandidatesInjective | app.py:161-163 | the loop never tries the same name for two counters |
| Upload.NotTriedYet | app.py:161-163 | for any injective run of candidates, the one for a counter the loop has not reached is not among those tried |
| Upload.TriedSize | app.py:161-163 | for any injective run of candidates, after k rounds k distinct names have been tried |
| Upload.AddNewSize | app.py:161-163 | a name not yet tried adds one to the count of tried names |
| Upload.TriedStep | app.py:161-163 | a round on a taken name keeps the tried names inside the folder and shrinks the untried part of it, so the loop ends |
| Upload.TriedWithin | app.py:161-163 | when every name tried so far was taken, the tried names are all in the folder |
| Upload.FirstFreeName | app.py:158-163 | the counter the loop stops at names a free file; it is 0 exactly when the sanitized name is free, and otherwise the name is `base_n.ext` |
| Upload.FirstFreeUnique | app.py:161-163 | the counter the loop stops at is determined by the name and the folder |
| Upload.FirstFreeBound | app.py:161-163 | the loop runs at most once per file already in the folder |
| Upload.UniqueName | app.py:158-163 | the chosen name is not in the folder; it is the sanitized name when that is free, and otherwise `base_n.ext` for the smallest n >= 1 whose name is free, every earlier candidate being taken |
| Upload.NamingSequence | app.py:158-163 | for any name: kept in an empty folder, `base_1.ext` when only the name is taken, `base_2.ext` when both of those are taken |
| Upload.ExampleNaming | app.py:158-163 | with "a.txt" taken the next upload is stored as "a_1.txt", and with "a_1.txt" taken too, as "a_2.txt" |
| Upload.ExampleCandidates | app.py:162 | the loop's candidates for "a.txt" are "a_1.txt" and then "a_2.txt" |
| Upload.SuffixedName | app.py:159-162 | for base.ext the counter goes between the root and the '.': `base_n.ext` |
| Upload.SuffixKeepsKind | app.py:159-169 | when the sanitized name has an extension, adding the suffix does not change the kind |
| Upload.ClassifyNoDot | app.py:169 | a name without '.' is classified by the whole of it |
| Upload.PngRenamed | app.py:159-162 | the second upload named "png" is stored as "png_1" |
| Upload.PngIsImage | app.py:169-171 | "png" is classified as an image |
| Upload.RenamedPngIsFile | app.py:169-181 | "png_1" is classified as a plain file |
| Upload.SuffixChangesKind | app.py:158-181 | as written, a suffix on a name without an extension turns an image into a plain file |
| Upload.UploadFolder.constructor | app.py:73-78 | the folder has the given path and holds the given names |
| Upload.UploadFolder.PathOf | app.py:165 | the path is the folder path, then '/', then the name, and nothing else |
| Upload.UploadFolder.Save | app.py:166 | after `file.save` the folder also holds the saved name |
| Upload.UploadFolder.SaveUnique | app.py:158-166 | the file is stored under the naming loop's first free name, which the folder did not hold before; that is the sanitized name when it was free |
| Upload.Screen | app.py:150-157 | a request passes exactly when its file name is allowed; a missing file part and an empty name are rejected with their own reasons, and any other name with the unsupported-type reason (line 196) |
| Upload.UploadFile | app.py:147-200 | as written: a rejected request changes nothing; otherwise the file is stored under a fresh name from the naming loop, the sanitized name itself when that is free; a file classified as an image fails with no record saved; any other file is recorded with its kind, name and path, and the history is saved |
| Upload.UploadFileFixed | app.py:147-200 | as intended: every accepted file is stored under a fresh name and recorded; its kind is that of the sanitized name, and an image carries its preview |
| Upload.PhotoIsImage | app.py:157-171 | "photo.png" passes the checks and is classified as an image |
| Upload.ImageUploadFails | app.py:166-200 | as written, uploading any accepted name classified as an image into an empty folder stores the file under that name, answers with the failure, and leaves the history empty |
| Upload.PhotoUploadFails | app.py:166-200 | as written, uploading "photo.png" into an empty folder stores "photo.png", answers with the failure, and leaves the history empty |

## Left out

- Flask routing, templates, `send_file` downloads, and the Socket.IO broadcasts (`emit`) are not modelled. They are I/O and do not change the stored state.
- The AI request (`call_ai_api`) is left out. It is a network call.
- `handle_message` and `handle_think_request` are not modelled as handlers. Each builds one record (the `TextMessage` and `AiResponse` shapes of `MessageLog.Record`) and calls `save_message`, which is `MessageLog.MessageStore.Append`.
- JSON encoding and decoding are left out. The file is seen through what reading it returns: `None` for a missing or unparsable file, and otherwise its list of records.
- A JSON file that parses to something other than a list, or holds elements that are not objects, is left out. In the source, the later `append` or `msg.get` then raises an error.
- Record ids hold only None, strings, integers and booleans. Floats and other JSON values are left out, because their `str` form needs Python's float printing.
- `secure_filename` is not modelled. Its output is an input to the upload handler.
- The 16 MiB request limit is left out. An oversized body makes the read of `request.files` at line 150 raise inside the `try`, and lines 198-200 turn that into the 500 answer. No file is written and no record is saved, so the stored state is the same as for a rejected request.
- The clock-derived id and timestamp are inputs.
- PIL and pyperclip are left out. The image preview is an input of `Upload.UploadFileFixed`.
- Two requests that run concurrently can race between the naming loop's existence check and `file.save`. The model is sequential and leaves this out.
- Failed writes (disk full, permissions) are left out: the model's saves always succeed. In the source what happens depends on the handler:
  - in `upload_file`, a failed `file.save` or `save_message` becomes the 500 answer (lines 198-200);
  - in `handle_message` and `handle_think_request`, a failed `save_message` is not caught and escapes the handler;
  - in `handle_delete_message` and `handle_clear_messages`, the error is printed and swallowed (lines 236-237 and 262-263).
- `os.path.join` is modelled as the folder path, '/', then the name. This holds because `secure_filename` never returns an absolute path.
- Text.Lower: only ASCII letters are lower-cased. Python's `lower()` also maps non-ASCII capitals; for example, the Kelvin sign becomes 'k'. So a name like "clip.mKv" is accepted by the source but not by `Extensions.AllowedFileIff`.
- Upload.UploadFile: the failure on the image branch is modelled as the handler's 500 answer with no record saved. The Python exception text in the answer is not modelled.

## Findings

| source | as written | input that shows it | evidently intended | confidence | as-written member | corrected member |
|---|---|---|---|---|---|---|
| app.py:170-188 | The image branch never assigns `img_str`, but line 188 reads it whenever the kind is image. Every image upload raises `UnboundLocalError` after `file.save`, so the client gets a 500, no record is saved and nothing is broadcast. | upload "photo.png" into an empty folder | the image is recorded like any other file, with its preview in `image_data` | not executed | Upload.PhotoUploadFails | Upload.UploadFileFixed |
| app.py:159-169 | The kind is computed from the renamed file, not the sanitized name. When the sanitized name has no extension, the suffix lands at the end and the kind changes. For example, `secure_filename("照片.png")` is "png", and a second such upload is stored as "png_1" and labelled a plain file. | two uploads whose sanitized name is "png" | the kind of a file does not depend on how many files of that name came before | not executed | Upload.SuffixChangesKind | Upload.UploadFileFixed |
