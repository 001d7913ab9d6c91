# foo_latinize core in Dafny

The component keeps a persistent cache of "latinised" versions of two tags of a
track, the title and the album. It fills the cache by asking a chat-completion
HTTP service and shows the cached values as two title-formatting fields. This
project models the core of the component and proves properties of that model:

- **The store `latin_db`** (module `Store`, class `Store.LatinDb`). It holds two
  maps (track key to `{title, album}`, album key to album), a dirty flag, the
  file path and a loaded flag. Its methods update those fields in place:
  - lazy loading, which reloads only when the path changes;
  - write-if-different setters;
  - the sanitising external edit, deletion and clearing;
  - the snapshot for the cache page;
  - `save_if_dirty`.
- **The cache file format** (module `Codec`). It has a `FBLT` magic, version 1,
  two u32 counts, then 64-bit keys and u32-length-prefixed strings. `load_locked`
  and `save_locked` are methods with loops, each proved against a `Decode` or
  `Encode` function.
- **Text helpers** (module `Text`): `trim_ascii` and the `sanitize_latin`
  canonicaliser.
- **The reply parser**:
  - the lenient JSON string scanner with `\uXXXX` to UTF-8 (modules `Json` and
    `Utf8`);
  - the key lookups;
  - the line parser for `title_latin:` and `album_latin:` (module `Lines`);
  - the fallback chain of `parse_response_for_latin` (module `Response`).
- **The request side** (module `Request`):
  - `replace_token` for the prompt template;
  - `json_escape` and the request body;
  - `parse_status_code` and the 2xx test;
  - the error-message snippet;
  - what one request yields, given what its HTTP exchange returned.
- **The display fields** `%foo_latin_title%` and `%foo_latin_album%` (module
  `Display`).
- **The four context-menu batch workers** (module `Workers`). Latinize,
  clear-all, clear-title and clear-album are each a loop over the selected items
  that updates the store, collects the changed items, and saves once at the end
  unless it was cancelled.
- **The facades** used by the preferences pages and the menu (module `Commands`).
- **The cache page's search filter** (module `Prefs`):
  - `trim_ascii_local`;
  - `MatchesFilter`, `IsAsciiOnly`, `AsciiLower` and `ContainsAsciiCI`.

Bytes are Dafny `char`s below 256 (`Bytes.byte`), so the source's ASCII literals
read as text. C strings are byte sequences without their terminator.

The file system is a map from path to file contents. A write is described by a
`Store.WriteOutcome`:

- `Committed`: the file is written;
- `OpenFailed`: the open throws, and so does its `file://` fallback;
- `FailedAfter(n)`: the write breaks after `n` bytes.

In the following places the code does something its comments, names or
neighbouring code do not announce. The model follows the code:

- **Dirty flag after a failed save.** `save_if_dirty` clears the dirty flag even
  when `save_locked` swallowed a write error (latinize.cpp:159-164, 321-324).
  `Store.LatinDb.SaveIfDirty` promises `!dirty` after every outcome.
- **Cancelled batch.** A cancelled batch does not save. `abort.check()` throws,
  so the `save_if_dirty` after the loop (latinize.cpp:911) is skipped.
  `Workers.Ended` says that an incomplete run leaves the file alone and the
  store dirty.
- **Trailing backslash.** In `parse_json_string`, a string that ends in a
  backslash reads past the terminator in the code (latinize.cpp:373-374). The
  model treats that as a failed parse.
- **Duplicate keys.** A file that repeats a key keeps the first entry, because
  `emplace` does not overwrite (latinize.cpp:258, 264).
- **Blank value at the end.** In `json_find_string_value`, a key can be followed
  by its colon and then only blanks up to the end of the text, as in a reply
  cut off after `{"content":`. The code then sets `search` one past the
  terminator (latinize.cpp:427), and the next `strstr` reads beyond the string.
  `Json.FindFrom` ends the lookup there with no value.
- **Bytes `>= 0x80` appended with `add_char`.** pfc's `add_char` takes a code
  point. A `char` is signed, so a byte `>= 0x80` widens to a value above
  0x7FFFFFFF, which pfc's UTF-8 encoder refuses, and nothing is appended.
  `json_escape` avoids this with `add_string(p, 1)` (latinize.cpp:576-580).
  Two other places do not, and `Bytes.AddChar` models the drop in both:
  - `parse_json_string` drops such a byte, alone (latinize.cpp:402) or after a
    backslash (latinize.cpp:398). `Json.HighByteDropped` shows this. The
    `json_escape` round trip therefore holds for ASCII text only, and
    `Json.Escapable` says so. A byte dropped inside a stored value changes
    nothing, since `sanitize_latin` drops these bytes anyway
    (`Text.SanitizeDropsOther`). A byte dropped elsewhere does: an error
    `message` loses its non-ASCII text, and a line key such as `tit\xC3le:`
    reads as `title:`. See "## Findings".
  - `AsciiLower` in the cache page drops such a byte (preferences.cpp:271). This
    changes which rows the search lists; see "## Findings".

## Model

Some operations are written as functions without a contract of their own,
because the lemmas beside them state what they mean. Their rows are those
lemmas' rows:

- `Request.RequestOutcome` (the outcome of `request_latinized`): `Request.LatinizedIff` and `Request.HttpErrorReported`.
- `Display.FieldValue` (the lookup behind the two display fields): `Display.TitleField` and `Display.AlbumField`.
- `Prefs.MatchesFilter` (the row test of the cache page): `Prefs.MatchesFilterIff`.
- `Commands.TestLatinize` (the test command): `Commands.TestReportIff`.
- `Workers.LatinizeItem` (one item of the latinize worker): `Workers.LatinizeHit` and `Workers.LatinizeMiss`.
- `Workers.ClearAllItem`, `Workers.ClearTitleItem` and `Workers.ClearAlbumItem`: `Workers.ClearAllItemSpec`, `Workers.ClearTitleItemSpec` and `Workers.ClearAlbumItemSpec`.

| member | source | states |
|---|---|---|
| Bytes.ToLower | latinize.cpp:468-469 | `tolower` in the C locale: `A`-`Z` go up by 32 to `a`-`z`, every other byte is kept |
| Bytes.IndexOfFirst | latinize.cpp:413-414 | `strstr` returns the first occurrence at or after the start index, and returns none only when there is no occurrence |
| Bytes.IndexOfIs | latinize.cpp:413-414 | an occurrence with no earlier one from the start index is the one `strstr` returns |
| Bytes.ContainsIff | preferences.cpp:276-280 | `strstr(h, n) != nullptr` holds exactly when `n` occurs somewhere in `h` |
| Text.TrimLeftIsSuffix | latinize.cpp:515 | the front loop of `trim_ascii` drops exactly the leading bytes `<= 0x20` and stops at the first other byte |
| Text.TrimRightIsPrefix | latinize.cpp:516 | the back loop drops exactly the trailing bytes `<= 0x20` |
| Text.TrimIsSlice | latinize.cpp:511-521 | `trim_ascii` keeps one contiguous middle slice; all bytes before and after it are `<= 0x20`, and the slice starts and ends with bytes above 0x20 |
| Text.TrimAscii | preferences.cpp:14-24 | the two index loops of `trim_ascii_local` (and of `trim_ascii`) return exactly the trimmed string |
| Text.SanitizeLatin | latinize.cpp:523-543 | the byte loop of `sanitize_latin`, followed by the trim, computes `Sanitize` |
| Text.ScanInvariant | latinize.cpp:523-543 | the loop keeps `prev_space` equal to "the output ends in a space", keeps the output a prefix of a canonical string, and its non-space bytes are the kept input bytes |
| Text.ScanByteInvariant | latinize.cpp:527-539 | one byte of the loop keeps that invariant and appends that byte's kept part |
| Text.TrimGrowing | latinize.cpp:541 | the final trim removes at most one trailing space and makes the output canonical |
| Text.SanitizeCanonical | latinize.cpp:523-543 | the output has only `[a-z0-9 ]`, no space at either end and no two spaces in a row; it holds every letter of the input (lower-cased) and every digit, in order, and nothing else |
| Text.ScanCopiesGrowing | latinize.cpp:523-543 | the loop copies an already-canonical prefix byte for byte |
| Text.SanitizeFixesCanonical | latinize.cpp:523-543 | canonical text passes through `sanitize_latin` unchanged |
| Text.SanitizeIdempotent | latinize.cpp:523-543 | `sanitize_latin` is idempotent |
| Text.SanitizeDropsOther | latinize.cpp:528-539 | a byte that is not a letter, digit or word separator (a byte `>= 0x80` among them) is dropped without a trace |
| Text.SanitizeWordBreak | latinize.cpp:523-543 | a tab, space, `-`, `_` or `.` between two pieces that keep something separates their sanitised forms by exactly one space |
| Text.ScanAfterSpace | latinize.cpp:532-536 | once a space has been written, the rest of the input is written as a scan of its own would write it, so word breaks right after the space add nothing |
| Text.LeadingBreaks | latinize.cpp:532-536 | word breaks before anything is kept leave no trace, because the output is still empty |
| Text.SanitizeBreakRun | latinize.cpp:523-543 | any non-empty run of tab, space, `-`, `_` and `.` between two pieces that keep something becomes exactly one space |
| Codec.LeRoundTrip | latinize.cpp:304-307 | a number written as `n` little-endian bytes reads back as itself when it fits |
| Codec.Emplace | latinize.cpp:258 | `emplace` leaves a present key alone and adds a missing one |
| Codec.ReadLe | latinize.cpp:246-251 | a little-endian read succeeds exactly when enough bytes remain; its value is the little-endian number of those bytes, below 256 to the width, and the rest is what follows them |
| Codec.ReadKey | latinize.cpp:254 | a 64-bit key read succeeds exactly when 8 bytes remain; the key is their little-endian value and the rest follows them |
| Codec.ReadString | latinize.cpp:256-257 | `read_string` succeeds exactly when the 4-byte length and that many bytes are present; the string is exactly those bytes and the rest follows them |
| Codec.LeOfValue | latinize.cpp:231-251 | writing back the little-endian value of any byte string gives that string again |
| Codec.Decode | latinize.cpp:232-271 | a non-empty load had the `FBLT` magic and version 1 in its header |
| Codec.DecodeEncode | latinize.cpp:246-317 | round trip: what `save_locked` writes, in any map iteration order, `load_locked` reads back as the same two maps |
| Codec.EncodeRead | latinize.cpp:246-265 | on a written file, the header reads back as magic, version and both counts, the track loop reads exactly the track map, and the album loop reads exactly the album map and ends at the end of the file |
| Codec.HeaderFields | latinize.cpp:304-307 | the four header words read back as written |
| Codec.TrackEntryOf | latinize.cpp:253-258 | a written track entry reads back as its key and record |
| Codec.AlbumEntryOf | latinize.cpp:260-264 | a written album entry reads back as its key and album |
| Codec.ReadEntriesOf | latinize.cpp:253-265 | reading the written entries of distinct keys adds exactly those keys with their values |
| Codec.DuplicateKeepsFirst | latinize.cpp:258 | of two entries with the same key, the first one stays |
| Codec.ReadEntriesAppend | latinize.cpp:253-265 | bytes behind the entries do not change what the loops read |
| Codec.TruncatedDecode | latinize.cpp:266-270 | any proper prefix of a written file loads as two empty maps, never as part of the entries |
| Codec.DecodeShort | latinize.cpp:266-270 | a loop that runs short empties both maps |
| Codec.EnumeratesCard | latinize.cpp:306-307 | an iteration order lists as many keys as the map has, so the counts written are the map sizes |
| Codec.LoadEntries | latinize.cpp:253-265 | the read loop computes the spec loop, failing when a read runs short |
| Codec.Load | latinize.cpp:245-270 | the read code computes `Decode` of the file |
| Codec.WriteEntries | latinize.cpp:309-317 | the write loop visits every key once and writes its entry in that order |
| Codec.Save | latinize.cpp:304-317 | the write code writes the header and the entries in the maps' iteration order, and reads back as the same maps when counts and lengths fit u32 |
| Utf8.EncodeUtf8Wellformed | latinize.cpp:342-364 | for every code point up to U+10FFFF, `append_utf8` emits 1 to 4 bytes by range, with a lead byte announcing the length and continuation bytes after it, and the bytes decode back to the code point (section 3 of RFC 3629) |
| Utf8.EncodeOne | latinize.cpp:345-346 | one byte below 0x80 |
| Utf8.EncodeTwo | latinize.cpp:347-350 | two bytes up to 0x7FF |
| Utf8.EncodeThree | latinize.cpp:351-355 | three bytes up to 0xFFFF, a lone surrogate included |
| Utf8.EncodeFour | latinize.cpp:356-362 | four bytes above that |
| Utf8.EncodeUtf8NoNul | latinize.cpp:342-364 | only code point 0 gives a NUL byte |
| Json.HexValueAt | latinize.cpp:386-393 | four hex digits spell a value below 16^4 |
| Json.Unescape | latinize.cpp:375-399 | an escape letter `b f n r t` gives one control byte; any other escaped byte below 0x80 stands for itself, and an escaped byte `>= 0x80` adds nothing |
| Json.JsonString | latinize.cpp:366-406 | a successful parse starts at a quote and ends just past a closing quote |
| Json.ReadHex4 | latinize.cpp:384-393 | the `\u` branch succeeds exactly when four hex digits follow, and reads their value |
| Json.ReadEscape | latinize.cpp:373-400 | the escape `switch` computes the spec escape, dropping an escaped byte `>= 0x80` as `add_char` does |
| Json.ParseJsonString | latinize.cpp:366-406 | the scanning loop of `parse_json_string` computes `JsonString`, dropping raw bytes `>= 0x80` as `add_char` does |
| Json.JsonEscape | latinize.cpp:562-585 | the loop of `json_escape` computes `Escaped` |
| Json.EscapedHasNoControl | latinize.cpp:562-585 | `json_escape` output holds no byte below 0x20 |
| Json.EscapeRoundTrip | latinize.cpp:366-406 | the string loop reads back what `json_escape` wrote for any ASCII string whose only control bytes are LF, CR and TAB |
| Json.EscapedStringAt | latinize.cpp:366-406 | for such an ASCII string `v`, `parse_json_string` on `"` + `json_escape(v)` + `"` yields `v` and stops just past the closing quote |
| Json.EscapeRoundTripAt | latinize.cpp:562-585 | the same round trip (ASCII, no other control bytes) for a quoted escaped string at any position of a buffer |
| Json.EscapeByteDecodes | latinize.cpp:370-403 | each escapable byte (printable ASCII, LF, CR, TAB) has an escape that decodes back to that byte in one pass |
| Json.HighByteDropped | latinize.cpp:398-402 | a byte `>= 0x80` passes through `json_escape` unchanged but `parse_json_string` drops it, raw or escaped |
| Json.UnescapeKeeping | latinize.cpp:375-399 | the intended escape letters: `b f n r t` give one control byte, every other escaped byte stands for itself |
| Json.EscapeRoundTripKeeping | latinize.cpp:366-406 | the intended string loop reads back what `json_escape` wrote for any string whose only control bytes are LF, CR and TAB, bytes `>= 0x80` included |
| Json.EscapedStringKeepingAt | latinize.cpp:366-406 | the intended `parse_json_string` on a quoted `json_escape(v)` anywhere in a buffer yields `v`, bytes `>= 0x80` included, and stops just past the closing quote |
| Json.ScanToColon | latinize.cpp:416 | the colon scan stops at the first colon or at the end |
| Json.SkipSpace | latinize.cpp:422 | the blank skip after the colon |
| Json.FindStep | latinize.cpp:412-428 | one pass of the lookup loop either answers or moves on without changing the answer |
| Json.JsonFindStringValue | latinize.cpp:408-429 | the loop of `json_find_string_value` computes `FindStringValue` |
| Json.ContentStep | latinize.cpp:443-456 | one pass of the assistant-content loop either answers or moves on without changing the answer |
| Json.ExtractAssistantContent | latinize.cpp:436-457 | the loop computes `AssistantContent` |
| Json.ColonFirst | latinize.cpp:416 | no colon lies before the one the scan stops at |
| Json.ProbeSound | latinize.cpp:415-426 | a value found after a key is the string literal after the first colon past the key, past blanks |
| Json.FindValueAt | latinize.cpp:408-429 | the lookup returns the literal after the first `"key"` and a colon |
| Json.FindWrittenValue | latinize.cpp:408-429 | an ASCII value (no control bytes but LF, CR, TAB) written as `"key":"<escaped value>"` at the first occurrence of the key reads back |
| Json.FindFromValue | latinize.cpp:412-428 | the lookup stops at the first occurrence followed by a string value |
| Lines.SkipIndent | latinize.cpp:463 | the indent skip moves forward within the line |
| Lines.MatchFrom | latinize.cpp:464-473 | a match ends inside the line |
| Lines.MatchKeyCi | latinize.cpp:459-477 | the loop of `match_key_ci` computes `MatchKey` |
| Lines.MatchKeyIff | latinize.cpp:459-477 | for a key without filler bytes, `match_key_ci` matches exactly when the line's lower-cased, filler-free form starts with the key, and the consumed bytes spell exactly the key |
| Lines.MatchFromIff | latinize.cpp:464-474 | the same, from any line and key position |
| Lines.SkipSepsFirst | latinize.cpp:479-482 | `skip_separators` stops at the first byte that is not space, tab, `:` or `-` |
| Lines.SkipSeparators | latinize.cpp:479-482 | its loop computes `SkipSeps` |
| Lines.LineLenIs | latinize.cpp:490 | a line ends at the first CR or LF |
| Lines.ParseLine | latinize.cpp:491-504 | one line of the loop: a title line sets the title, otherwise an album line sets the album |
| Lines.SkipNewlines | latinize.cpp:488 | skipping line breaks leaves the same lines |
| Lines.LineEnd | latinize.cpp:489-490 | the line ends at the next CR or LF or at the end |
| Lines.CutLine | latinize.cpp:487-505 | cutting one line leaves the fold over the rest |
| Lines.ParseLatinLines | latinize.cpp:484-509 | the loop of `parse_latin_lines` computes `ParseLines` |
| Lines.LastLineWins | latinize.cpp:484-509 | the last title line and the last album line win |
| Lines.FoldLinesSnoc | latinize.cpp:487-505 | the lines are folded in order |
| Lines.ParseLinesCanonical | latinize.cpp:506-508 | a successful parse returns sanitised fields, at least one of them non-empty |
| Response.AnswerText | latinize.cpp:587-602 | the answer text is missing only when the reply has a `"choices"` marker |
| Response.ParseResponse | latinize.cpp:587-602 | a success is the line parse of the answer text, and holds canonical (sanitised) fields, at least one of them non-empty |
| Response.ParseResponseForLatin | latinize.cpp:587-602 | the chain over the loops computes `ParseResponse` |
| Response.NoContentKey | latinize.cpp:589-596 | without any `"content"` key, both lookups find nothing |
| Response.RawTextFallback | latinize.cpp:598-601 | without `"content"`, the raw text is parsed exactly when there is no `"choices"` marker, and with the marker the parse fails |
| Response.AssistantAnswerAt | latinize.cpp:589-591 | the assistant message's content, when found, is what gets parsed, whatever surrounds it |
| Response.ContentAnswerRoundTrip | latinize.cpp:593-596 | without an assistant marker, a reply whose first `"content"` is `"content":"<escaped answer>"` is parsed as that answer, for an ASCII answer with no control bytes but LF, CR, TAB |
| Request.CopyUntil | latinize.cpp:545-560 | bytes with no occurrence of the token are copied as they are |
| Request.ReplaceHit | latinize.cpp:550-557 | at the occurrence `strstr` finds, the bytes before it are copied and the value follows |
| Request.ReplaceMiss | latinize.cpp:551-553 | when there is no further occurrence, the rest is copied |
| Request.ReplaceToken | latinize.cpp:545-560 | the loop of `replace_token` computes `ReplaceAll` |
| Request.ReplaceStep | latinize.cpp:549-558 | one pass of the loop keeps output plus the remaining replacement unchanged |
| Request.ReplaceNoToken | latinize.cpp:545-560 | a source without the token comes back unchanged |
| Request.ReplaceSelf | latinize.cpp:545-560 | replacing a token by itself changes nothing |
| Request.ReplaceShift | latinize.cpp:545-560 | the replacement after a prefix does not depend on the prefix |
| Request.ReplaceFirst | latinize.cpp:545-560 | the first token is replaced and the scan goes on after it, so a value holding the token is not rescanned |
| Request.ResolvePrompt | latinize.cpp:642-644 | the two replacements compute `Prompt` |
| Request.PromptWithoutTokens | latinize.cpp:642-644 | a template without tokens is sent as it is |
| Request.PromptOfTitle | latinize.cpp:642-644 | the template `{title}` resolves to the title when the title holds no `{album}` |
| Request.AlbumTokenInTitle | latinize.cpp:643-644 | an `{album}` inside the title is replaced by the second pass |
| Request.BodyLayout | latinize.cpp:646-655 | the request body is the model field, the messages head, the quoted escaped prompt and the tail |
| Request.PromptReadsBack | latinize.cpp:651 | the user message's string reads back as the prompt when the prompt is ASCII with no control bytes but LF, CR, TAB |
| Request.ModelReadsBack | latinize.cpp:648 | `json_find_string_value(body, "model")` reads back the model when the model name is ASCII with no control bytes but LF, CR, TAB |
| Request.ModelKeyFirst | latinize.cpp:647-648 | the first `"model"` of the body is right after the opening brace |
| Request.DigitRun | latinize.cpp:610-614 | the digit loop reads only digits and at most three of them |
| Request.ParseStatusCode | latinize.cpp:604-616 | the loop of `parse_status_code` computes `StatusCode` |
| Request.StatusCodeBound | latinize.cpp:604-616 | the code is never above 999 |
| Request.StatusLineCode | latinize.cpp:604-616 | for a status line `HTTP-version SP status-code SP reason` (section 4 of RFC 9112) the code is the three-digit status code |
| Request.DecimalBound | latinize.cpp:612-614 | `n` digits spell a number below `10^n` |
| Request.SuccessIff | latinize.cpp:695-696 | a reply counts as a success exactly when the status line has `2dd` after its first space |
| Request.SnippetShape | latinize.cpp:618-626 | the snippet ends with the first `min(len, 2048)` bytes of the body, after a header that says whether it was cut, and is at most the long header plus 2048 bytes |
| Request.LatinizedIff | latinize.cpp:633-729 | a request yields a record exactly when the URL is set, a reply arrived with a 2xx status line and its body parses; the record is that parse, sanitised, with a non-empty field |
| Request.HttpErrorReported | latinize.cpp:695-708 | a non-2xx reply fails with a message starting `HTTP error. Status: ` and the status line (or `unknown`) |
| Store.NormalizedIsUrl | latinize.cpp:57-62 | the normalised path always contains `://`; it equals the input exactly when the input already contains `://`; the input is a suffix of it |
| Store.NormalizeIdempotent | latinize.cpp:57-62 | normalising twice is normalising once |
| Store.DbPath | latinize.cpp:65-69 | the effective path is the normalised configured path, or the normalised fallback when none is configured, and is always URL-like |
| Store.PutTrackFrame | latinize.cpp:143-149 | `set_track` changes nothing at all when the key already holds the record; otherwise it sets that key alone and marks the store dirty; albums never change |
| Store.PutAlbumFrame | latinize.cpp:151-157 | the same for `set_album` |
| Store.UpdateSanitizes | latinize.cpp:187-206 | `update_entry` stores the sanitised fields under the chosen key alone, reports a write exactly when the store changed, marks dirty exactly then, and repeating the edit changes nothing |
| Store.UpdateMarksDirty | latinize.cpp:187-206 | a reported write leaves the store dirty; no write leaves it as it was |
| Store.DeleteFrame | latinize.cpp:208-221 | `delete_entry` reports true exactly when the key was in the chosen map, removes that key alone, and marks dirty only then |
| Store.ClearedFrame | latinize.cpp:223-229 | `clear_all` empties both maps, and the store is dirty afterwards exactly when it was before or something was removed |
| Store.SnapshotComplete | latinize.cpp:166-185 | the snapshot has one row per cached track and album, lists every entry, and lists nothing that is not cached |
| Store.SnapshotHasAll | latinize.cpp:166-185 | every cached track and album appears as a row |
| Store.SnapshotOnlyCached | latinize.cpp:166-185 | every row is a cached entry |
| Store.RowsCover | latinize.cpp:170-184 | each of the snapshot's loops covers its map |
| Store.ListRows | latinize.cpp:170-177 | a snapshot loop lists the map's entries in its iteration order |
| Store.Reloaded | latinize.cpp:119-124 | a missing file loads as an empty, clean store |
| Store.SaveReloads | latinize.cpp:273-325 | after a committed save the file reloads as the saved store; a failed open leaves the disk as it was; a write broken midway reloads as the whole store or as empty, never as part of it; other files are untouched |
| Store.LatinDb.constructor | latinize.cpp:328-332 | a new store is unloaded, clean and empty |
| Store.LatinDb.EnsureLoaded | latinize.cpp:115-125 | the path becomes the effective path and the store is loaded; the contents are kept when it was already loaded for that path, and otherwise reloaded from the file with the dirty flag clear |
| Store.LatinDb.GetTrack | latinize.cpp:127-133 | found exactly when the key is cached, with its record |
| Store.LatinDb.GetAlbum | latinize.cpp:135-141 | found exactly when the key is cached, with its album |
| Store.LatinDb.SetTrack | latinize.cpp:143-149 | the new state is the write-if-different update |
| Store.LatinDb.SetAlbum | latinize.cpp:151-157 | the new state is the write-if-different update |
| Store.LatinDb.UpdateEntry | latinize.cpp:187-206 | the new state and the result are those of `Update` |
| Store.LatinDb.DeleteEntry | latinize.cpp:208-221 | the new state and the result are those of `Delete` |
| Store.LatinDb.ClearAll | latinize.cpp:223-229 | the new state is `Cleared` of the old one |
| Store.LatinDb.Snapshot | latinize.cpp:166-185 | the rows are a snapshot of the current maps |
| Store.LatinDb.SaveLocked | latinize.cpp:273-325 | the disk afterwards holds the encoding of the maps at the path, as far as the write got |
| Store.LatinDb.SaveIfDirty | latinize.cpp:159-164 | a clean store writes nothing; a dirty one is saved; the flag is clear afterwards whatever the write did |
| Display.FieldName | latinize.cpp:741-747 | field 0 is `foo_latin_title` and field 1 is `foo_latin_album` |
| Display.TitleField | latinize.cpp:751-764 | no field is written empty; the title field is written exactly when the track has a non-empty cached title, and it does not depend on the album cache |
| Display.AlbumField | latinize.cpp:766-778 | the album field prefers a non-empty shared album to the track's own album, and indices past 1 show nothing |
| Display.ProcessField | latinize.cpp:751-779 | nothing without valid info; otherwise the store is loaded and the field is looked up in it |
| Workers.RunFromNext | latinize.cpp:871-910 | one turn of the loop: skip an item without info, or run its body and go on, or stop when its request was cancelled |
| Workers.RunShape | latinize.cpp:866-912 | progress reports 0 and then each index in order; every changed handle is a selected item with info; a run completes exactly when nobody cancels (for the clear workers), and a cancellation before item `k` stops it after `k` reports |
| Workers.RunFromProgress | latinize.cpp:871-873 | the progress positions from any point of the loop |
| Workers.RunFromChanged | latinize.cpp:909 | the `changed` list only grows, by items with info |
| Workers.LatinizeHit | latinize.cpp:886-894 | a hit sends no request, changes no track, lists nothing, and only backfills the shared album from the track |
| Workers.LatinizeMiss | latinize.cpp:896-909 | a cancelled request stops the batch; a failed or empty reply changes nothing; otherwise the record is stored with an existing shared album taking precedence, the shared album is seeded only when it was empty, and the item is listed |
| Workers.ClearAllItemSpec | latinize.cpp:948-956 | both keys are deleted, and the item is listed exactly when one of them was there |
| Workers.ClearTitleItemSpec | latinize.cpp:993-1001 | the title of an existing record is blanked, its album is kept, and the item is listed exactly when a title was cleared |
| Workers.ClearAlbumItemSpec | latinize.cpp:1038-1056 | the record's album is blanked and the shared album deleted; the item is listed exactly when either changed something |
| Workers.ClearStepsNeverAbort | latinize.cpp:936-959 | the clear workers send no request, so only the cancellation check stops them |
| Workers.LatinizeOne | latinize.cpp:875-909 | one item of the latinize loop does what `LatinizeItem` says |
| Workers.LatinizeWorker | latinize.cpp:866-912 | the loop and the closing save end in the state `Run` describes, and the store is saved only when the run completed |
| Workers.ClearAllOne | latinize.cpp:944-956 | one item of the clear-all loop does what `ClearAllItem` says |
| Workers.ClearAllWorker | latinize.cpp:936-959 | as for latinize, with the clear-all body |
| Workers.ClearTitleOne | latinize.cpp:989-1001 | one item of the clear-title loop does what `ClearTitleItem` says |
| Workers.ClearTitleWorker | latinize.cpp:981-1004 | as for latinize, with the clear-title body |
| Workers.ClearAlbumOne | latinize.cpp:1034-1056 | one item of the clear-album loop does what `ClearAlbumItem` says |
| Workers.ClearAlbumWorker | latinize.cpp:1026-1059 | as for latinize, with the clear-album body |
| Commands.GetCacheSnapshot | latinize.cpp:806-809 | loads the store and returns a complete snapshot of it |
| Commands.UpdateCacheEntry | latinize.cpp:811-816 | loads the store and applies the sanitising edit; an edit that wrote is saved at once and leaves the store clean; one that did not write touches nothing |
| Commands.DeleteCacheEntry | latinize.cpp:818-823 | the same for a deletion |
| Commands.ClearCache | latinize.cpp:825-829 | loads, empties and saves the store when clearing (or anything before it) left it dirty |
| Commands.TestReportIff | latinize.cpp:831-853 | the test passes exactly when the request yields a record, and then shows canonical fields, one of them non-empty; a refusal always carries a message (`Request failed.` when the request gave none, `Aborted.` on cancellation) |
| Commands.RunLatinize | latinize.cpp:855-924 | nothing for an empty selection; otherwise the store is loaded and the latinize worker runs over the selection |
| Commands.ClearLatinizeAll | latinize.cpp:926-970 | the same with the clear-all worker |
| Commands.ClearLatinizeTitleOnly | latinize.cpp:972-1015 | the same with the clear-title worker |
| Commands.ClearLatinizeAlbumOnly | latinize.cpp:1017-1070 | the same with the clear-album worker |
| Prefs.IsAsciiOnly | preferences.cpp:259-265 | true exactly when no byte is `>= 0x80` |
| Prefs.AsciiPartOf | preferences.cpp:267-274 | the bytes `add_char` keeps form an ASCII-only string no longer than the input, equal to it when the input is ASCII-only |
| Prefs.AsciiLower | preferences.cpp:267-274 | the loop returns `Lower(s)`: each byte below 0x80 passed through `tolower`, each byte `>= 0x80` dropped by `add_char` |
| Prefs.LowerAt | preferences.cpp:267-274 | lowering yields the ASCII bytes of the input in order, each through `tolower`, and changes a byte exactly when it is `A`-`Z` |
| Prefs.LowerIdempotent | preferences.cpp:267-274 | lowering yields ASCII-only text, is idempotent, and keeps the length of an ASCII-only string |
| Prefs.ContainsAsciiCIIff | preferences.cpp:276-280 | `ContainsAsciiCI` holds exactly when the ASCII bytes of the needle occur, up to ASCII case, in the ASCII bytes of the haystack |
| Prefs.MatchesFilterIff | preferences.cpp:247-257 | an empty filter lists every row; an ASCII-only filter lists exactly the rows whose title or album, with bytes `>= 0x80` removed, contains it up to case; any other filter lists exactly the rows whose title or album contains it byte for byte |
| Prefs.AsciiFilterIgnoresCase | preferences.cpp:249-252 | an ASCII-only filter lists the same rows in whatever case it is typed |
| Prefs.HighByteJoinsNeighbours | preferences.cpp:267-280 | as written, filter `ab` lists a row titled `a\xC3b`, which does not contain `ab` in any case |
| Prefs.LowerKeepingAt | preferences.cpp:267-274 | the intended lowering keeps every byte and changes exactly the `A`-`Z` ones |
| Prefs.MatchesFilterIntendedIff | preferences.cpp:247-257 | with the intended lowering, an ASCII-only filter lists exactly the rows whose title or album contains it up to ASCII case |
| Prefs.CacheFilter.constructor | preferences.cpp:158 | the filter starts empty, so the page first lists every row |
| Prefs.CacheFilter.TrimLocal | preferences.cpp:14-24 | `trim_ascii_local` replaces the filter by its trimmed form in place |
| Prefs.CacheFilter.UpdateFilterFromUI | preferences.cpp:242-245 | the filter is the trimmed search text; it never starts or ends with a byte `<= 0x20`, and a box holding only such bytes gives the empty filter |

## Left out

- Key hashing: the title-formatting scripts and the MD5 hash behind track and
  album keys (latinize.cpp:86-103) are services of the host. Each item carries
  its two keys in `Workers.Tags`, and `Display.ProcessField` receives them too.
- HTTP transport:
  - Creating the request, its headers and `run_ex`, and reading the reply
    (latinize.cpp:658-693), are network I/O.
  - `Request.Transport` is what the exchange returned: a reply with its status
    line, content type and body, an I/O failure, another failure, or a
    cancellation.
  - The workers receive one such exchange per item, as the function `exchange`.
- The raw-exchange text `outRaw` of `test_latinize` (latinize.cpp:678-685) is
  diagnostic output and is not modelled.
- File system:
  - Opening, creating directories and committing are not modelled one by one;
    the whole write is summarised by `Store.WriteOutcome`.
  - The native-path fallback that rewrites `m_path` (latinize.cpp:289-303) is
    not modelled. `OpenFailed` stands for a fallback that throws, which
    `save_locked` swallows.
  - When the open throws and the native path wrapped as `file://` equals
    `m_path`, no file is opened and the header write dereferences a null
    `file::ptr` (latinize.cpp:292-305). This is the usual case, since
    `get_db_path` builds `m_path` that way (latinize.cpp:57-69). The model has
    no outcome for that crash.
  - The "not found" and "cannot open" cases of `load_locked` (latinize.cpp:236-243)
    are both a path missing from the disk map.
- Store.LatinDb.SaveLocked: stated in terms of the `unordered_map` iteration
  order, which the format does not fix, so the method promises "some
  enumeration of each map" rather than a particular order.
- Locking: every `latin_db` method takes a mutex. The model is sequential, one
  call at a time, so concurrent display lookups during a batch are not modelled.
- Threading and UI:
  - `threaded_process`, the completion callback with `dispatch_refresh`, and
    console logging are UI and threading.
  - The workers return the `changed` list and the progress positions instead.
  - Cancellation is an index `cancelAt` from which the check fails.
- Configuration: the `cfg_*` variables and their GUIDs (latinize.cpp:15-45) are
  parameters. These are the configured path and fallback, the API URL, the
  model and the prompt template.
- Shutdown: the service registrations, and the `on_quit` save
  (latinize.cpp:782-802), are not modelled.
- Strings with a NUL byte: `read_string` can hand back a string holding a NUL,
  and the C-string code would cut it there. The model treats stored strings as
  whole byte sequences and does not model that cut.
- Request.ReplaceToken: requires a non-empty token. The source always passes
  `{title}` or `{album}`, and an empty token would loop forever.
- Workers.LatinizeMiss: the latinize worker lists an item whenever a non-empty
  reply was stored, even when the stored record equals the old one. The source
  does this too (latinize.cpp:906-909), so the model keeps it.
- The preferences dialogs other than the cache page's filter state are Win32
  UI: the list view, the edit boxes and `CPrefsMain`/`CPrefsTest`.

## Findings

| source | as written | input that shows it | evidently intended | confidence | as-written member | corrected member |
|---|---|---|---|---|---|---|
| latinize.cpp:366-406 | `parse_json_string` appends a raw byte (line 402) and an escaped one (line 398) with `add_char`, which drops a byte `>= 0x80` of a signed `char`, although `json_escape` writes such a byte as it is | the string `"\xC3"` parses to the empty string; `json_escape("\xC3")` does not read back | keep every byte, so that any text whose only control bytes are LF, CR and TAB reads back from `json_escape` | medium, not executed | Json.HighByteDropped | Json.EscapedStringKeepingAt |
| preferences.cpp:267-274 | `ascii_lower` appends each lowered byte with `add_char`, which drops a byte `>= 0x80` of a signed `char`, so the lowered title loses those bytes and its neighbours become adjacent | filter `ab`, title `a\xC3b`: the row is listed although the title does not contain `ab` in any case | lower `A`-`Z` and keep every other byte, so a row is listed only when its title or album contains the filter up to ASCII case | medium, not executed | Prefs.HighByteJoinsNeighbours | Prefs.MatchesFilterIntendedIff |

The rest of the model follows the code as written. `Json.JsonString`,
`Json.ParseJsonString`, `Prefs.MatchesFilter` and `Prefs.CacheFilter` drop
these bytes. `Json.JsonStringKeeping` and `Prefs.LowerKeeping` are the
corrected definitions, and the intended properties are proved about them.
