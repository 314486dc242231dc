# blutil: a verified model of the BL600 SmartBASIC command-line driver

`blutil.py` programs Laird BL600 modules over a serial link using AT commands.
The module runs SmartBASIC. This project models in Dafny the deterministic
core of the driver and proves properties about it. The core consists of:

- **Framing.** Each command is written as `AT` + optional space + arguments + CR.
- **Reply reading.** The driver reads byte by byte until the reply ends in
  `00\r` or the deadline passes, then sorts the reply into success, no
  response, device error, or unexpected reply.
- **Derived operations.** These are built on framing and reply reading:
  - `read_param` and `detect_model`;
  - `upload`, which deletes, opens, writes 16-byte hex rows and closes;
  - `run`, which checks the link, starts the program and classifies its first output;
  - `list`, `delete`, and `format` (a fixed command sequence).
- **Path helpers.** `to_uwc`, `os.path.splitext` and the device-name normaliser `get_devicename`.
- **`do_include`.** The `#include "file"` preprocessor.
- **Operation chaining in `main`.** Running a source file uploads it, and
  uploading a source file compiles it.

## Files

| module | file | contents |
|---|---|---|
| `Outcomes` | `outcomes.dfy` | `Option`, `Result` |
| `Text` | `text.dfy` | Python's `strip`, ASCII codec, `%d`, `split`, last field |
| `Protocol` | `protocol.dfy` | frames, the reply reader, classification, and the session semantics of a sequence of commands |
| `Paths` | `paths.dfy` | `splitext`, `to_uwc`, the upload path, `get_devicename` |
| `Transfer` | `transfer.dfy` | `chunks`, hex rows and their parser, the upload command list |
| `RunOutput` | `run_output.dfy` | the classification of what `run` reads after starting a program |
| `Include` | `include.dfy` | the directive match, the leftmost search, marker removal, `do_include` |
| `Driver` | `driver.dfy` | class `Device`, whose methods are proved against the session semantics |
| `Cli` | `cli.dfy` | the run → load → compile chaining and the list of operations |

### How the serial link is modelled

A `Device` has three fields:

- `rx`: the bytes the module will send;
- `sent`: the log of frames written;
- `model`: the model identifier.

A deadline is modelled as a *window*: the number of bytes that arrive before
the deadline expires. The read loop of `writecmd` stops for one of three reasons:

- the reply ends in `00\r`;
- the window is used up;
- no more bytes are coming.

`Protocol.Perform` gives the meaning of one step:

- a command with its reply;
- a frame sent without reading;
- a read that discards bytes.

`Protocol.Script` gives the meaning of a sequence of steps that stops at the
first failure, like the Python exceptions do. Each `Device` method's
postcondition states its new `rx`, its new `sent` and its result as one of
these functions of the old state. The lemmas in `Protocol`, `Driver` and
`Transfer` then state what those sessions send and return.

### How `do_include` is modelled

`Include.Expand` takes a `Cleanup` argument that chooses the final marker
removal:

- `SinglePass` is the code as written: one `replace('#include', "")`, which is
  `Include.RemoveMarker`.
- `UntilGone` repeats the removal until no marker is left (`Include.PurgeMarker`).
  This is what the comment at blutil.py:213-214 asks for.

The properties that hold for both cleanups are stated for any `Cleanup`.
`Include.ExpandCanLeaveDirective` shows a document that the single pass leaves
with an `#include ""` directive. `Include.ExpandedIsFinal` proves that the
repeated removal never does (see "## Findings").

## Model

| member | source | states |
|---|---|---|
| Protocol.Frame | blutil.py:51 | the frame starts with "AT" and ends with the arguments and CR; it has a separating space exactly when the arguments do not start with '+', so its length is theirs plus 3 or 4 |
| Protocol.ParseFrameOfFrame | blutil.py:51 | the arguments can be recovered from their frame |
| Protocol.FrameOfParseFrame | blutil.py:51 | every text that parses as a frame is the frame of what it parses to |
| Protocol.FrameInjective | blutil.py:51 | different arguments give different frames |
| Text.EncodeAscii | blutil.py:52 | ASCII encoding keeps the length and gives bytes below 128 |
| Text.DecodeAsciiChars | blutil.py:60 | `str(b, "ascii")` succeeds exactly when every byte is below 128, and each character then has its byte's code |
| Text.DecodeEncode | blutil.py:52-60 | decoding the encoding of an ASCII text gives it back |
| Text.EncodeDecode | blutil.py:52-60 | encoding the decoding of ASCII bytes gives them back |
| Text.Strip | blutil.py:60 | `strip()` never lengthens the text (properties in `StripTrimmed`, `StripPadded`, `StripIdempotent`) |
| Text.DecodeAscii | blutil.py:60 | a successful decoding has one character per byte (properties in `DecodeAsciiChars`) |
| Text.StripTrimmed | blutil.py:60 | `strip()` leaves no whitespace at either end |
| Text.StripPadded | blutil.py:60 | stripping a trimmed text padded with whitespace on both sides gives that text |
| Text.StripAllSpace | blutil.py:60 | stripping all-whitespace text gives the empty string |
| Text.StripIdempotent | blutil.py:60 | stripping twice is stripping once |
| Protocol.StopIndex | blutil.py:57-58 | the read stops at the first prefix that ends in `00\r`, or at the limit; no shorter prefix ends in the terminator |
| Protocol.ReplyLength | blutil.py:55-58 | the reader takes no more bytes than the window allows and than arrive |
| Protocol.StopIndexAt | blutil.py:57 | the stop position is the unique one with the stopping property |
| Protocol.ReadsWholeReply | blutil.py:55-59 | a terminated reply that fits in the window is read completely, and the bytes after it are left on the link |
| Protocol.Receive | blutil.py:55-58 | the loop splits the link into what it read (extending what it had) and what is left, losing nothing |
| Protocol.ReceiveStops | blutil.py:57-58 | the read loop from any point ends at the stop index |
| Protocol.ReceiveReply | blutil.py:55-58 | from an empty response, the loop reads exactly the first `ReplyLength` bytes |
| Protocol.SuccessReply | blutil.py:59-60 | a terminated ASCII reply gives its text without the terminator, with the surrounding whitespace stripped |
| Protocol.ErrorReply | blutil.py:65-67 | `\n01\t` + code + any final byte, when the whole does not end in `00\r`, gives a device error carrying exactly `code`: the final byte is dropped whatever it is |
| Protocol.CarriageReturnErrorReply | blutil.py:65-67 | the usual error reply, ending in CR, gives the device error with its code whenever the code does not end in "00" |
| Protocol.ZeroZeroCodeReadsAsSuccess | blutil.py:57-60 | an error reply whose code ends in "00" followed by CR ends in the terminator, so it reads as success |
| Protocol.UnterminatedReply | blutil.py:61-69 | an unterminated reply gives "no response" exactly when it is empty, a device error exactly when it is longer than 4 bytes and starts with `\n01\t`, and otherwise the unexpected-reply error carrying the raw bytes |
| Protocol.Classify | blutil.py:59-69 | a reply is accepted exactly when it ends in `00\r` and is ASCII, and the accepted text has no surrounding whitespace and is shorter than the reply by at least the terminator |
| Protocol.Perform | blutil.py:50-69 | one step of a session: a command writes its frame and sorts its reply, a send writes its frame only, and a drain discards bytes (properties in `PerformLaw`, `PerformCmd`) |
| Protocol.Session | blutil.py:144-150 | a sequence of steps runs until the first failure (properties in `SessionAppend`) |
| Protocol.Script | blutil.py:144-150 | the driver's sessions, built from `Perform` (properties in `ScriptAppend`, `ScriptSendsPrefix`) |
| Protocol.PerformCmd | blutil.py:50-69 | one `writecmd` sends its frame, reads `ReplyLength` bytes and reports their classification |
| Protocol.CmdAnswer | blutil.py:50-69 | what the read loop returned is the answer, and it is the `ReplyLength` prefix |
| Protocol.SessionAppend | blutil.py:144-150 | running two sequences of commands one after the other is running their concatenation; a failure stops everything after it |
| Protocol.ScriptAppend | blutil.py:144-150 | the same composition for the driver's own step semantics |
| Protocol.ScriptSendsPrefix | blutil.py:144-150 | a sequence of commands writes a prefix of its frames, and all of them with one payload per command when nothing fails; it only consumes incoming bytes |
| Protocol.PerformLaw | blutil.py:50-69 | each single step writes its own frame or nothing and only consumes input |
| Protocol.CmdsFrames | blutil.py:144-150 | a list of commands as steps has one frame per command, in order |
| Text.Decimal | blutil.py:72 | `%d` gives a non-empty string of decimal digits whose value is the number, with no leading zero unless it is "0" |
| Text.Split | blutil.py:72 | `split("\t")` gives at least one field, none containing a tab, and joining them with tabs gives back the text |
| Text.SplitJoin | blutil.py:72 | splitting tab-joined tab-free fields gives back those fields |
| Text.LastField | blutil.py:72 | `split("\t")[-1]` is a tab-free suffix that is preceded by a tab, or is the whole text |
| Driver.ParamCommand | blutil.py:72 | the register read command is "I " followed by the decimal digits of the register, with no leading zero unless it is "I 0" |
| Driver.ParamFieldValue | blutil.py:72 | the value after the last tab of a payload is what `read_param` returns |
| Driver.Underscored | blutil.py:78 | replacing spaces by underscores keeps the length, rewrites only spaces, and leaves no space |
| Driver.ModelId | blutil.py:78 | the model identifier is the model, an underscore, and the revision with no spaces |
| Driver.ModelIdKeepsModel | blutil.py:78 | a revision without spaces appears verbatim |
| Driver.Device.constructor | blutil.py:46-48 | a new device has nothing sent and no model yet |
| Driver.Device.Write | blutil.py:51-54 | `writecmd(..., expect_response=False)` writes the frame when it is ASCII, fails without writing when it is not, and reads nothing |
| Driver.Device.ReadReply | blutil.py:55-58 | the byte-by-byte read loop returns what `Receive` reads and leaves the rest on the link |
| Driver.Device.WriteCmd | blutil.py:50-69 | `writecmd` logs its frame, consumes its reply, and returns the classification of exactly the `ReplyLength` prefix of the incoming bytes |
| Driver.Device.Read | blutil.py:158 | `port.read(n)` returns the first bytes that arrive, no more than the window and n allow, and removes them from the link |
| Driver.Device.ReadParam | blutil.py:71-72 | `read_param` sends the register read and returns the last tab-separated field of the payload, which has no tab |
| Driver.Device.DetectModel | blutil.py:74-78 | `detect_model` reads registers 0 and 13; if both succeed, the model becomes model + "_" + revision with underscores; on failure the model is unchanged |
| Driver.Device.WriteAll | blutil.py:144-150 | a list of commands is sent in order until the first failure, as `Script` says |
| Driver.Device.Upload | blutil.py:135-151 | `upload` behaves as `UploadSession` |
| Driver.UploadSession | blutil.py:135-151 | the session of `upload`: the upload commands run as a script, or the delete and open followed by the missing-file error (properties in `UploadSessionSends`, `OpenHalts`) |
| Driver.UploadSessionSends | blutil.py:139-150 | a successful upload found the `.uwc` file and wrote exactly the framed upload commands for its device name and contents |
| Driver.OpenHalts | blutil.py:144-147 | when the delete or the open fails, the upload stops there, whether or not the file exists |
| Driver.UploadScript | blutil.py:144-150 | the upload session is the open, then the hex rows, then the close |
| Driver.Device.StartProgram | blutil.py:155-157 | `run` checks the link with an empty command and then writes the start frame without reading |
| Driver.Device.Run | blutil.py:153-170 | `run` fails when its start fails, and otherwise classifies the next bytes, at most 1024 of them |
| Driver.RunResult | blutil.py:153-170 | what `run` returns: the failure of its start, or the classification of at most 1024 following bytes (properties in `RunAfterReady`) |
| Driver.RunStartRest | blutil.py:155-157 | once the empty command succeeds, the start frame consumes no bytes |
| Driver.RunAfterReady | blutil.py:153-170 | after a ready reply, `run` classifies the output that follows it |
| Driver.Device.List | blutil.py:172-175 | `list` sends "+DIR" and returns its payload, or the error that stopped the command |
| Driver.Device.Delete | blutil.py:177-181 | `delete` sends `+DEL "name"` for the device name of the path |
| Driver.Device.Format | blutil.py:183-191 | `format` erases, checks the link, factory-resets without reading, discards up to 1024 bytes and checks again, stopping at the first failure |
| Driver.FormatSteps | blutil.py:183-191 | the five steps of `format` (properties in `FormatFrames`, `FormatSends`) |
| Driver.FormatFrames | blutil.py:183-191 | the format sequence has frames for "Z", "", "&F 1", "" and three commands that are answered |
| Driver.FormatSends | blutil.py:183-191 | `format` writes a prefix of those four frames, and all of them with three payloads when nothing fails |
| RunOutput.ClassifyRun | blutil.py:159-170 | completed output is the shown text followed by `00\r`; a program error is `\n01\t`, the code and one final byte, not terminated; immediate output is the non-empty output itself; nothing is shown exactly when the output is `\n00`, and "probably running" exactly when it is empty |
| RunOutput.TerminatedRun | blutil.py:159-163 | output ending in `00\r` is a completed program, even when it starts like an error; the bytes before the terminator are shown exactly when there are any |
| RunOutput.ProgramOutputShown | blutil.py:160-162 | a program's text followed by the terminator is shown as that text |
| RunOutput.HelloRun | blutil.py:160-162 | "hello\r\n" followed by the terminator shows "hello\r\n" |
| RunOutput.ProgramErrorShown | blutil.py:164-166 | an error reply after `+RUN`, with any final byte and not ending in `00\r`, reports exactly its code |
| RunOutput.RunAgreesWithReader | blutil.py:158-168 | `run`'s sorting of its output agrees with `writecmd`'s sorting of a reply: success is completion, empty is "probably running", the device errors coincide and carry the same code, and an unexpected reply is immediate output or the ignored `\n00` |
| Paths.BaseName | blutil.py:236 | the last path component is the whole suffix after the last '/', or the whole path when it has no '/' |
| Paths.SplitExt | blutil.py:37 | `os.path.splitext` splits the path into root and extension, which join back to the path; the extension is empty, or is a dot followed by neither dots nor slashes |
| Paths.SplitExtAt | blutil.py:37 | a non-empty extension starts at the last dot, which comes after the last slash and after some non-dot character of the last component |
| Paths.SplitExtUwc | blutil.py:37 | adding ".uwc" to a root whose last component has a non-dot character splits back into that root and ".uwc" |
| Paths.ToUwc | blutil.py:36-38 | `to_uwc` ends with ".uwc" and keeps a prefix of the path |
| Paths.ToUwcIdempotent | blutil.py:36-38 | applying `to_uwc` twice is applying it once, for paths whose last component has a non-dot character |
| Paths.UploadPath | blutil.py:139-141 | the file `upload` opens is `to_uwc` of its argument, for every path |
| Paths.UpToDot | blutil.py:237 | `split('.')[0]` is the dot-free prefix that ends at the first dot |
| Paths.RemoveReserved | blutil.py:238 | removing `:*?"<>|` keeps only characters of the name that are not reserved, and changes nothing when there are none |
| Paths.DeviceName | blutil.py:234-238 | a device name has at most 24 characters and contains no reserved character, dot or slash |
| Paths.RemoveReservedAppend | blutil.py:238 | removing reserved characters from a concatenation is removing them from each part |
| Paths.RemoveReservedChar | blutil.py:238 | a single character is dropped exactly when it is one of `:*?"<>|` |
| Paths.DeviceNameOfFile | blutil.py:234-238 | a file `dir/name.ext` whose name has at most 24 characters and no reserved character, dot or slash has device name `name` |
| Paths.DeviceNameOfLongFile | blutil.py:234-238 | the same file with a name longer than 24 characters is stored under the first 24 characters of the name |
| Paths.DeviceNameIdempotent | blutil.py:234-238 | normalising a device name again changes nothing |
| Paths.DeviceNameOfUwc | blutil.py:139-142 | the `.uwc` file that `upload` sends has the device name that `run` and `delete` use for the original path |
| Transfer.ChunksOf | blutil.py:226-231 | chunks of a positive size concatenate back to the file |
| Transfer.ChunkSizes | blutil.py:226-231 | every chunk is non-empty and at most the chunk size, and all but the last are full |
| Transfer.ChunkCount | blutil.py:226-231 | a file of N bytes gives ceil(N/16) chunks |
| Transfer.Chunks | blutil.py:226-231 | the reading loop yields exactly `ChunksOf` |
| Transfer.HexRow | blutil.py:148 | a row has two hex digits per byte |
| Transfer.ParseHexRow | blutil.py:148 | parsing a row as hex gives back its bytes |
| Transfer.HexRowOfParse | blutil.py:148 | every text that parses as lower-case hex is the row of its value |
| Transfer.HexRowAppend | blutil.py:148 | the row of a concatenation is the concatenation of the rows |
| Transfer.WriteCommands | blutil.py:149 | one `+FWRH "row"` command per row, in order |
| Transfer.Hex2 | blutil.py:148 | `"%02x" % b` is two characters that parse back as `b` |
| Transfer.UploadCommands | blutil.py:144-150 | the commands `upload` sends for a device name and file contents (properties in `UploadCommandsShape`) |
| Transfer.UploadCommandsShape | blutil.py:144-150 | the upload commands are `+DEL "name" +`, `+FOW "name"`, one hex write per chunk (ceil(N/16) of them) and `+FCL` last |
| Transfer.EmptyUpload | blutil.py:144-150 | an empty file gives no hex write |
| Transfer.TwentyByteUpload | blutil.py:144-150 | a 20-byte file gives a 32-digit row and an 8-digit row |
| Transfer.RowsConcat | blutil.py:147-148 | the rows together are the row of the whole file |
| Transfer.UploadRowsCarryFile | blutil.py:146-149 | the hex rows an upload writes decode to the file's bytes |
| Include.MatchAt | blutil.py:194 | a match of `^#include\s+"(.*)"$` starts at a line start with the marker, then has at least one whitespace character and a quote, ends at the end of that quote's line with a closing quote, and names exactly the text between the two quotes, which contains no newline (with `MatchAtParts`, the match exists exactly when these parts do) |
| Include.MatchAtParts | blutil.py:194 | a marker at a line start, whitespace up to a quote and a line ending in a quote is a match naming what lies between the quotes |
| Include.DirectiveAt | blutil.py:194 | `#include "name"` occupying a whole line matches and names `name` |
| Include.DirectiveLine | blutil.py:194-195 | the same, for a directive line between other lines |
| Include.FindFrom | blutil.py:195 | the search returns a match, at or after its starting point |
| Include.FindDirective | blutil.py:195 | `search` returns a match in the document |
| Include.FindDirectiveLeftmost | blutil.py:195 | no match starts before the one `search` returns, and none at all when it returns nothing |
| Include.DirectiveHasMarker | blutil.py:195 | a document with a directive contains the marker |
| Include.Expand | blutil.py:193-216 | `do_include`, with the cleanup as a parameter (properties in `ExpandWithoutDirective`, `ExpandMissingTarget`, `ExpandSplices`, `ExpandedIsFinal`, `ExpandCanLeaveDirective`) |
| Include.ExpandAt | blutil.py:199-209 | the expansion of the leftmost directive: resolve, fail if missing, expand the target in its own directory, splice |
| Include.Rescan | blutil.py:211-215 | the spliced document is expanded again and then cleaned |
| Include.Splice | blutil.py:209 | the directive line replaced by the included text between two newlines (properties in `SpliceParts`) |
| Include.SpliceParts | blutil.py:209 | the splice keeps the text before and after the directive line and puts the included text, framed by newlines, between them |
| Include.Clean | blutil.py:213-215 | either cleanup never lengthens the text and leaves marker-free text alone; the repeated one leaves no marker |
| Include.ExpandWithoutDirective | blutil.py:195-197 | a document without a directive comes back unchanged, even if it contains the marker |
| Include.ExpandMissingTarget | blutil.py:199-203 | a directive whose resolved target is missing gives the missing-include error naming that path |
| Include.ExpandSplices | blutil.py:205-211 | the directive line is replaced by the expanded target between two newlines, and the whole result is expanded again |
| Include.ExpandedIsFinal | blutil.py:211-215 | with the corrected cleanup (`UntilGone`), a successful expansion has no directive left, and no marker at all when there was a directive |
| Include.ExpandCanLeaveDirective | blutil.py:208-216 | with the cleanup as written (`SinglePass`), a directive whose file holds `#inc#includelude ""` expands to a document that still holds the directive `#include ""`; the corrected cleanup expands it to one without a directive |
| Include.ExpandSole | blutil.py:205-215 | a document that is one directive line, whose file has no directive, expands to the file's text between two newlines after the cleanup |
| Include.LeakyPass | blutil.py:215 | one pass over `\n#inc#includelude ""\n` leaves `\n#include ""\n` |
| Include.RemoveMarkerJoin | blutil.py:215 | deleting a marker joins the text before it, where no marker starts, to the text after it, which has no '#' |
| Include.NoHashNoMarker | blutil.py:215 | text without '#' contains no marker |
| Include.OneLineNoDirective | blutil.py:194-195 | a single line that does not start with the marker holds no directive, alone or between newlines |
| Include.SoleDirective | blutil.py:194-195 | a document that is one directive line has that line as its leftmost directive |
| Include.FramedDirective | blutil.py:194-195 | a directive line between two newlines is found |
| Include.ExpandDepthMonotone | blutil.py:193-216 | an expansion that does not run out of recursion gives the same result with any larger recursion limit |
| Include.ExpandAtDepthMonotone | blutil.py:205-211 | the same for the expansion of one directive |
| Include.RescanDepthMonotone | blutil.py:211-216 | the same for the rescan of the spliced document |
| Include.RemoveMarker | blutil.py:215 | `replace('#include', "")` never lengthens the text and returns marker-free text unchanged |
| Include.RemoveMarkerShrinks | blutil.py:215 | it shortens every text that contains the marker |
| Include.RemoveMarkerSplice | blutil.py:215 | for any text before the first occurrence and any text after it, the occurrence is deleted, the text before is kept, and the pass continues on the text after |
| Include.RemoveMarkerDrops | blutil.py:215 | a leading marker is deleted |
| Include.RemoveMarkerCanLeaveMarker | blutil.py:215 | one pass over "#inc#includelude" leaves "#include" |
| Include.PurgeMarker | blutil.py:213-215 | deleting until nothing is left leaves no marker, and changes nothing when there was none |
| Cli.Ops | blutil.py:281-287 | each operation is listed exactly when its argument is given and not empty, in the order compile, load, run |
| Cli.Chain | blutil.py:270-279 | chaining never changes `-r`; the load is the one given or a `.uwc`/`.sb` run file; the compile is the one given or a `.sb` load file |
| Cli.ChainIdempotent | blutil.py:270-279 | applying the chaining rules twice changes nothing more |
| Cli.RunSource | blutil.py:270-287 | `-r x.sb` compiles, uploads and runs x.sb |
| Cli.RunCompiled | blutil.py:270-287 | `-r x.uwc` uploads and runs it without compiling |
| Cli.RunStored | blutil.py:270-287 | `-r` of any other file only runs it |
| Cli.LoadSource | blutil.py:276-287 | `-l x.sb` compiles and uploads it |

## Left out

- **Serial hardware.** Opening the port, DTR reset with its sleeps
  (blutil.py:289-293) and the 0.2 s sleep in `format` are not modelled. Wall-clock
  timeouts are replaced by byte windows, which the caller passes as parameters.
- **`listen`.** It is an endless read loop ended by Ctrl-C.
- **`compile`, `online_compile` and `test_wine`.** These run external programs
  (wine, the vendor compiler) or make HTTP requests.
- **`get_errordesc`.** It scans a CSV file with `eval`. Error replies carry the
  raw code bytes instead of the looked-up error text.
- **Path resolution.** In `do_include`, `os.path.join` followed by `abspath`
  (blutil.py:199-200) is the resolver of `Include.Disk`, `dirname`
  (blutil.py:207) is its parent function, and `os.path.exists` and `open`
  (blutil.py:202-205) are its map from path to contents.
- **Windows paths.** The path functions follow POSIX rules: '/' is the only
  separator. The source also runs on Windows (it branches on `os.name` at
  blutil.py:92 and blutil.py:264). There `os.path.split` and
  `os.path.splitext` also split at '\\' and after a drive such as `C:`, so
  `get_devicename("C:\\d\\a.sb")` is "a" on Windows. Windows separators and
  drives are not modelled.
- **`upload` path handling.** `expanduser`/`abspath` are left out there; the
  path is taken as given.
- **`upload` file access.** The local files are a map. A missing `.uwc` file
  is an error raised after the open command, as `open` would raise it.
- **`upload` order of effects.** The model treats the whole file as read before
  the first hex row is sent. The sequence of commands and the point where a
  failure stops are the same either way.
- **Argument handling in `main`.** Only the chaining rules and the operations
  list are modelled (blutil.py:270-287). `argparse`, the `--at` command, the
  `--model` option (blutil.py:295-296) and the dispatch that follows are not.
- **Program output.** `run` prints decoded output. The model returns the raw
  bytes and does not model UTF-8 decoding.
- **Include.Expand:** Python's recursion limit is modelled by a `depth`
  argument. Running out gives `TooDeep`, which stands for the `RecursionError`
  the source raises on a cyclic include. `ExpandDepthMonotone` states that the
  limit only decides whether expansion succeeds, never what it produces.
- **Include.Expand:** no lemma states that the order of two non-nested
  directives does not matter. It does not hold as text: swapping the two
  directives swaps the two included texts in the result. The source only ever
  expands the leftmost directive first (blutil.py:195), so there is no other
  order to compare it with.
- **Driver.Device.Format:** the code raises when the erase command or the first
  link check fails; only `&F 1` is sent without waiting for a reply.
- **Protocol.Classify:** the device-error code is kept as bytes
  `response[4:-1]`. The source decodes it as UTF-8 first, which is not modelled.

## Findings

| source | as written | input that shows it | evidently intended | confidence | as-written member | corrected member |
|---|---|---|---|---|---|---|
| blutil.py:215 | `file.replace('#include', "")` deletes each occurrence in one left-to-right pass, so deleting one occurrence can join its neighbours into a new one | an `#include "f"` line whose file f holds `#inc#includelude ""` expands to a document holding the directive `#include ""` (`Include.RemoveMarkerCanLeaveMarker` shows the same pass on `#inc#includelude` alone) | the comment at blutil.py:213-214 asks that `#include` appear nowhere in the text sent to the compiler, so deletion repeats until none is left | not executed | Include.ExpandCanLeaveDirective | Include.ExpandedIsFinal |
