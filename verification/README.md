# pipessh core, modelled in Dafny

pipessh is a small SSH client driven by another program over its standard
streams. This project models the parts of it that are pure byte and string
logic, and proves properties about them:

- **Known-hosts trust store** (`hostkey.go`). `findServer` scans the
  known_hosts text line by line. Its verdict is one of: a perfect match, the
  server's old key, the other hosts that share the key, or a new server. It
  also reports the byte span of the line that decided. `updateKnownHosts`
  appends a line for a new server, or splices a rewritten line over that
  span. `spareSpace` is the in-place block mover behind the splice.
  `extractHostname` picks the spelling of the server that known_hosts uses.
- **Resize interceptor** (`pipe.go`, constants in `escape.go`). `inPipe`
  forwards input to the session. It removes xterm's window-manipulation
  control sequence `ESC [ 8 ; rows ; cols t` and passes the size to a
  callback. `procWindowChangeEvent` decodes `rows;cols`.
- **Address parser** (`parse.go`). `parseServer` splits
  `[user[:password]@]host[:port]`.
- **Helpers**. `buildEvent` (`events.go`) frames an event as
  `STX name [US payload] ETX`. `arrayContains` and `p` come from `utils.go`.

Files:

| file | module | contents |
|---|---|---|
| `wrappers.dfy` | `Wrappers` | `Option` and `Result` |
| `strings.dfy` | `Strings` | the parts of Go's `strings` and `bytes` used here: `SplitN(s, sep, 2)`, `Split`, `Join`, `Index`, `LastIndex`, `TrimSpace` emptiness |
| `strconv.dfy` | `Strconv` | `Atoi` and `Itoa` |
| `constants.dfy` | `Constants` | default port, buffer size, escape prefix and suffix |
| `utils.dfy`, `events.dfy` | `Utils`, `Events` | the helpers |
| `parse.dfy` | `Parse` | `parseServer` |
| `pipe.dfy` | `Pipe` | `procWindowChangeEvent` and `inPipe` |
| `files.dfy` | `Files` | positioned `ReadAt`, `WriteAt`, `Truncate` on file contents |
| `spare.dfy` | `Spare` | `spareSpace`: as intended, and the grow loop as written |
| `hostkey.dfy` | `HostKey` | `findServer`, `updateKnownHosts`, `extractHostname`, the reply check |
| `knownhosts.dfy` | `KnownHosts` | what chaining `findServer` into `updateKnownHosts` does to the file |

Modelling choices:

- A byte is a `char` and a byte string is a `string`.
- Go's nil slices and nil references are `Option`s.
- A public key is `PublicKey(keyType, blob)`. Equal `Marshal` bytes mean equal keys.
- `ssh.ParseAuthorizedKey` is a parameter `parse` of the query.
- `json.Marshal` and the resize callback are parameters.
- `inPipe` yields a trace of effects. Each effect is a write to the session or a
  callback call, together with the callback's answer. From the trace, the
  model computes the output bytes, the calls made and the input consumed.
- `spareSpace` is two methods, `Grow` and `Shrink`, over the file contents. Each
  has loop invariants. The buffer size is a parameter; the source fixes it at
  1024 bytes.

## Model

| member | source | states |
|---|---|---|
| Utils.P | utils.go:3-5 | `p(v)` is a present value, equal to `v`. |
| Utils.ArrayContains | utils.go:7-14 | True exactly when some element equals the item, so false on an empty slice. |
| HostKey.Approves | hostkey.go:72-83 | A reply approves exactly when it has at least one byte and the first byte is `y`, `Y`, `1`, CR or LF. |
| Events.BuildEvent | events.go:29-42 | The frame starts with STX and ends with ETX, with the name right after STX. Without a payload the frame is exactly STX, the name, ETX. With a payload, US and the marshalled bytes sit between the name and ETX. It fails exactly when marshalling fails. |
| Events.BuildThenParse | events.go:29-42 | For a name without US, every frame reads back as the name and the payload bytes it was built from. |
| Strconv.Atoi | pipe.go:38-46 | `strconv.Atoi` succeeds exactly on an optional sign followed by one or more digits. |
| Strconv.AtoiItoa | parse.go:31 | `Atoi` reads back every integer `Itoa` prints, negative ones included. |
| Strings.SplitN2 | parse.go:13 | `SplitN(s, sep, 2)` gives one part, `s` itself, exactly when `sep` is absent. Otherwise the first part is free of `sep`, and the parts joined with `sep` are `s`. |
| Strings.Split | hostkey.go:137 | `Split` gives parts free of the separator, built from bytes of the input, that join back to the input. |
| Strings.SplitJoin | hostkey.go:137 | Splitting a join gives the parts back, when no part holds the separator. |
| Strings.IndexOf | pipe.go:77 | `bytes.Index` gives the first occurrence of the pattern, or -1 exactly when there is none. |
| Strings.LastIndexOf | pipe.go:116 | `bytes.LastIndex` gives the last occurrence of the pattern, or -1 exactly when there is none. |
| Parse.ParseUserInfo | parse.go:13-22 | Without `@` there is no user name and no password. With `@`, the text before the first `@` splits at its first `:` into a user name and an optional password; the password may hold `:`. |
| Parse.ParseHostPort | parse.go:25-49 | Without a leading `[`, the host is the text before the first `:` and the port is `Atoi` of the rest, or 22 when there is no `:`. With a leading `[`, the host runs up to and including the first `]`, and the port is `Atoi` of the remainder without its first byte. When nothing follows the host, the port is 22 and the host is the whole server part, with a `]` added when it has none. The only error is a port that is not a number. |
| Parse.ParseBracketed | parse.go:27-37 | A bracketed host keeps its brackets and holds no `]` before the last byte. The port is read one byte after the `]`. With nothing after the host, the host is the whole input (closed with a `]` if it lacks one) and the port is 22. It fails only when the port text is not a number. |
| Parse.ParsePlain | parse.go:38-49 | The host holds no `:`. A port is read only after the first `:`, and is 22 without one. It fails only when the text after the `:` is not a number. |
| Parse.ParseServer | parse.go:9-52 | Parsing succeeds exactly when the host-port half does. There is no range check, so signed ports pass. User, password, host and port are those its two halves read. An empty server part is excluded, because the source indexes its first byte and panics. |
| Parse.UserInfoRoundTrip | parse.go:13-22 | The `user[:password]@` text of a server reads back as its user name and password, and the server part is what follows. |
| Parse.BracketedRoundTrip | parse.go:27-37 | A bracketed literal followed by `:` and a number reads back as that literal, brackets kept, and that number. |
| Parse.BracketedNoPort | parse.go:27-37 | A bracketed literal with nothing after it reads back as itself on port 22. |
| Parse.PlainRoundTrip | parse.go:38-49 | A host free of `:`, followed by `:` and a number, reads back as that host and number. |
| Parse.ParseFormat | parse.go:9-52 | Parsing the spelling `[user[:password]@]host:port` of a server gives the same server back, negative ports included. |
| Pipe.ProcWindowChangeEvent | pipe.go:32-56 | The payload is malformed exactly when it does not split on `;` into two fields that both pass `Atoi`. Otherwise the sizes are those two numbers, and the callback is asked once; its refusal is the only other failure. |
| Pipe.WindowChangeRoundTrip | pipe.go:32-56 | Every size printed as `rows;cols` decodes to itself, applied or refused as the callback answers. |
| Pipe.WindowChangeAvoids | pipe.go:32-56 | A payload that decodes holds only digits, signs and its one `;`, so no ESC and no `t`. |
| Pipe.ProcessChunk | pipe.go:74-139 | Every byte of a chunk is accounted for, in order. It is either written, or part of a sequence whose size the callback accepted. Every size passed to the callback was decoded by `Atoi` from a `rows;cols` payload, and is marked accepted exactly when the callback accepts it. A refused size is followed by the write of its own sequence and the rest of the chunk, and that write is the chunk's last effect. |
| Pipe.ChunkRefusalWritesRest | pipe.go:127-134 | When the callback refuses a size, the next effect is one write that starts with that size's sequence and holds every byte of the chunk not consumed before it. That write is the chunk's last effect, so nothing later in the chunk is decoded. |
| Pipe.ChunkResizesFromInput | pipe.go:74-139 | Every size passed to the callback for a chunk is the decoding of a control sequence that occurs in that chunk. |
| Pipe.ProcessSequence | pipe.go:94-135 | From a prefix on, every byte is accounted for. This holds whether or not a `t` follows, and whether the size is accepted or not. Every size passed on is a decoded payload, marked as the callback answers, and a refused one is followed by the write of its own sequence, which is the last effect. |
| Pipe.HandleSequence | pipe.go:113-135 | Every byte of the stale prefixes before the last one, of the sequence and of the rest of the chunk is accounted for. Every size passed on is a decoded payload, marked as the callback answers, and a refused one is followed by the write of its own sequence, which is the last effect. |
| Pipe.Decode | pipe.go:127-138 | Whatever the outcome of decoding, every byte of the sequence and of the rest of the chunk is accounted for. A size is passed on only for a payload that decodes, and is marked accepted exactly when the callback accepts it. A refused size is followed by the write of its own sequence, then the rest of the chunk, and nothing comes after that write. |
| Pipe.NoPrefixPassesThrough | pipe.go:77-85 | A chunk without the prefix is written unchanged in one write, and no callback fires. |
| Pipe.ResizeDetected | pipe.go:86-138 | For a well-formed sequence after text holding no prefix (other escape sequences allowed), the text is written first and the size goes to the callback. If the size is accepted, the sequence is dropped and the rest of the chunk is processed. If not, the sequence and the rest of the chunk are written as they are. |
| Pipe.LastPrefixWins | pipe.go:114-125 | When several prefixes come before the first `t`, the bytes before the last prefix are written unchanged. The size after the last prefix is the one passed on. |
| Pipe.MalformedPassesThrough | pipe.go:127-134 | A payload that does not decode leaves everything from the last prefix to the end of the chunk written as it is. No callback fires, and nothing after it is decoded. |
| Pipe.RefusedPassesThrough | pipe.go:127-134 | A size the callback refuses is still passed to it once. The sequence and the rest of the chunk are written as they are, and no error is returned. |
| Pipe.IncompleteSequenceForwarded | pipe.go:104-111 | A chunk whose prefix has no `t` after it is written as it is: the text before it, then the rest of the chunk. |
| Pipe.SequenceHandled | pipe.go:74-138 | A chunk made of text holding no prefix, stale prefixes, a payload and a `t` writes the text, then the stale prefixes, then decodes the payload after the last prefix. |
| Pipe.OutputIsConsumedIffNoneAccepted | pipe.go:79-138 | The output is never longer than the input consumed. It equals that input exactly when the callback accepted no size. |
| Pipe.ChunkOutputIffNoneAccepted | pipe.go:79-138 | A chunk is written unchanged exactly when the callback accepted none of the sizes found in it. |
| Pipe.ChunkOutputIffAllRefused | pipe.go:79-138 | A chunk is written unchanged exactly when the callback refused every size it was passed for that chunk. |
| Pipe.ProjectionsAppend | pipe.go:74-138 | Output, calls and consumed input of consecutive effects are the concatenations of theirs, so calls keep input order. |
| Pipe.ResizesOccur | pipe.go:113-138 | The sequence of every size passed on occurs in the input accounted for: an accepted one as the bytes it consumes, a refused one at the start of the write after it. |
| Pipe.InPipeAppend | pipe.go:61-140 | No state crosses reads: the effects of more chunks are the effects of the earlier chunks followed by those of the later ones. |
| Pipe.InPipeConserved | pipe.go:58-143 | All input is accounted for across reads: written, or consumed by a sequence whose size the callback accepted. Every size passed on was decoded from a payload and is marked accepted as the callback answers. A refused size is followed by the write of its own sequence. |
| Pipe.InPipeResizesFromInput | pipe.go:58-143 | Across reads, every size passed to the callback is the decoding of a control sequence that occurs in the input. |
| Pipe.InPipeOutputIffAllRefused | pipe.go:58-143 | The input of all reads is written unchanged exactly when the callback refused every size it was passed. |
| Pipe.SplitSequenceForwarded | pipe.go:58-72 | A sequence torn across two reads is written as it is, and no callback fires. |
| Pipe.WholeSequenceResizes | pipe.go:86-138 | `ESC [ 8 ; 120 ; 32 t` in one read calls the callback once with (120, 32) and writes nothing. |
| Pipe.TornSequenceForwarded | pipe.go:58-72 | The same bytes in two reads are written unchanged, and no callback fires. |
| Pipe.ReadBoundaryMatters | pipe.go:58-72 | The same input gives different calls depending on where reads end. |
| HostKey.Lines | hostkey.go:116-118 | The lines the scanner yields hold no newline. |
| HostKey.LinesOfUnlines | hostkey.go:116-118 | Lines written with a newline each read back as themselves. |
| HostKey.UnlinesOfLines | hostkey.go:116-118 | Writing out the lines of a text gives it back, plus a newline when the last line lacked one. |
| HostKey.Classify | hostkey.go:130-160 | Only a line that splits at a space into hosts and a parsable key gets a verdict other than "unrelated". A sibling list holds the line's comma-separated hosts, free of spaces and commas. |
| HostKey.ClassifyRecord | hostkey.go:137-160 | A listed name with the same key type is a perfect match when the keys are equal, and a key change otherwise. Otherwise an equal key under other names gives all the line's names, in file order. Anything else, including the same host under another key type, is unrelated. |
| HostKey.FindServerNew | hostkey.go:117-165 | Without a relevant line the verdict is "new server". Both ends of the span are the sum of `len(line)+1` over the non-blank lines. |
| HostKey.FindServerFirst | hostkey.go:117-160 | The first relevant line decides, with its counted span, and no later line is examined. A perfect match reports `(true, nil, nil, 0, 0)`. |
| HostKey.FindInNone | hostkey.go:117-165 | A scan that finds no relevant line ends at the start offset plus the counted bytes. |
| HostKey.FindInFirst | hostkey.go:117-160 | A scan stops at the first relevant line, whose span starts at the bytes counted before it. |
| HostKey.FindInSkip | hostkey.go:120-150 | An irrelevant line is skipped. A blank line counts no bytes; any other line counts its length plus one. |
| HostKey.RecordLine | hostkey.go:169 | The bytes written are the siblings, if any, then the server, joined by commas, followed by a space and the key's authorized_keys form. |
| HostKey.RecordHosts | hostkey.go:169 | The host list written ends with the server, after the siblings if there are any. |
| HostKey.UpdateKnownHosts | hostkey.go:168-210 | Appending keeps every old byte and ends with the record. A newline goes in between exactly when the file is non-empty and lacks a final one; the span is ignored. Splicing, with the tail moved as `spareSpace` is meant to move it, keeps the bytes before and after the span and puts the record in between. |
| HostKey.ExtractHostname | hostkey.go:94-108 | Fails exactly when `net.SplitHostPort` does. |
| HostKey.ExtractJoined | hostkey.go:94-108 | On port 22 both spellings are the bare host. On any other port the known_hosts spelling is `[host]:port` and the display name is the input. |
| HostKey.SplitJoinHostPort | hostkey.go:96 | `net.SplitHostPort` undoes `net.JoinHostPort` for hosts without brackets and ports without `:` or brackets. |
| KnownHosts.CountedUnlines | hostkey.go:120-125 | The counted offsets never exceed the bytes of the lines. They match exactly when no line is blank. |
| KnownHosts.BlankLineShiftsSpan | hostkey.go:120-125 | A blank first line makes the span of the next line start one byte too early. |
| KnownHosts.NewServerOffset | hostkey.go:165 | Without blank lines, the "new server" offset is the file size, plus one when the last line has no newline. |
| KnownHosts.SpanOfLine | hostkey.go:117-125 | If no blank line comes before line `k`, its counted span holds exactly that line and its newline. |
| KnownHosts.RecordIsPerfect | hostkey.go:137-153 | A well-formed line listing the server with its key is a relevant line and a perfect match. |
| KnownHosts.ReportedSplice | hostkey.go:154-169 | A key change reports the old key and no siblings, so the rewritten line keeps only the server. A shared key reports the siblings, which are written back before the server. |
| KnownHosts.AppendForm | hostkey.go:169-190 | A new server's line is the old file, a newline if the file lacked a final one, then the record. |
| KnownHosts.AppendWritesLine | hostkey.go:169-190 | The appended record is one more line after the old ones. |
| KnownHosts.AppendThenFind | hostkey.go:110-210 | Appending a new server's record makes the next lookup a perfect match. |
| KnownHosts.SpliceForm | hostkey.go:192-206 | With the tail moved as intended, a splice over a span inside the file keeps the bytes before and after it, with the record in between. |
| KnownHosts.SpliceLines | hostkey.go:192-206 | With the tail moved as intended, a splice over the counted span of line `k`, with no blank line before it, rewrites exactly that line. |
| KnownHosts.SpliceFound | hostkey.go:117-160 | A non-perfect first relevant line is reported with its counted span and the hosts to write back. |
| KnownHosts.SpliceRewritesLine | hostkey.go:110-206 | After a non-perfect verdict, with no blank line before the deciding line and the tail moved as intended, the update rewrites that line alone. The new line holds the siblings followed by the server, or only the server on a key change. |
| KnownHosts.SpliceThenFind | hostkey.go:110-206 | After that rewrite, the next lookup is a perfect match. |
| KnownHosts.FindAfterReplace | hostkey.go:117-153 | Putting a perfect record in place of the first relevant line makes the server a perfect match. |
| Spare.Moved | hostkey.go:212-217 | Moving the tail by `lengthDiff` changes the file's size by exactly that amount. |
| Spare.Spared | hostkey.go:212-290 | Fails exactly when a non-empty file would be truncated to a negative size. |
| Spare.Grow | hostkey.go:234-259 | The back-to-front copy moves the tail up by `d`. This holds when every read asks only for the bytes still to move. |
| Spare.Shrink | hostkey.go:260-287 | The front-to-back copy, then truncation, moves the tail down by `-d` and cuts the file to its new size. It fails only on a negative size. |
| Spare.SpareSpace | hostkey.go:212-290 | Gives exactly the intended contents: unchanged when the size does not change or the file is empty, otherwise the tail moved by `d`. |
| Spare.SpareThenWrite | hostkey.go:192-206 | Making room and then writing the record at `keepBefore` replaces the span `[keepBefore, keepAfter)` by the record. |
| Spare.GrowStep | hostkey.go:236-259 | One round of the copy extends the moved part down to the round's start. |
| Spare.ShrinkStep | hostkey.go:262-281 | One round of the copy extends the moved part up to the round's end. |
| Spare.GrowAsWrittenFits | hostkey.go:236-259 | The loop as written moves the tail correctly when the tail fits one buffer or is a whole number of buffers. |
| Spare.GrowOverReadCorrupts | hostkey.go:236-259 | On a 10-byte tail with a 4-byte buffer, the loop as written leaves `ab\n00122456789` where `ab\n00123456789` is intended. |
| Files.ReadAt | hostkey.go:242 | A read from `off` gives up to `n` bytes of the file from `off`, fewer at the end. |
| Files.WriteAt | hostkey.go:248 | A write puts the data at `off` and keeps every other byte. The file grows as needed, and a gap reads as zeros. |
| Files.Truncate | hostkey.go:284 | Truncation gives exactly `n` bytes: the old ones, then zeros. |

## Left out

- `hostKeyHandler` (hostkey.go:16-92): home directory lookup, file opening, prompting over stdout and stdin, and address casts are I/O. Only its reply check is modelled, as `HostKey.Approves`. `DefaultSSHPort` is not defined in the source and is taken as 22.
- I/O errors: stat, seek, read, write and truncate are assumed to succeed. The model does not cover the file contents left after a failed step, or the `writeCount != readCount` check.
- `ssh.ParseAuthorizedKey`, `MarshalAuthorizedKey` and `json.Marshal` are foreign code. The first and last are parameters; the key form is `type blob\n`.
- `bufio.Scanner`: the 64 KiB token limit, `\r` stripping and Unicode white space are not modelled. Lines are `\n`-terminated ASCII.
- HostKey.SplitHostPort: its error is a plain `None`, not Go's `*net.AddrError` with its message.
- Strconv.Atoi: overflow of `int` is not modelled, because integers are unbounded.
- The offsets `findServer` reports are `int64`; the model uses unbounded naturals.
- The `pipe` copy loop (pipe.go:12-30) only forwards bytes, and main.go runs it concurrently. Reads that fail with an error other than EOF are not modelled; a chunk list stands for the reads up to EOF.
- The write errors inside `inPipe` are not modelled. Writes are assumed to succeed.
- Buffer size: `Spare.Grow`, `Spare.Shrink` and `Spare.SpareSpace` take it as a parameter, where the source fixes it at 1024 bytes.
- Spare.GrowAsWrittenFits: proved only for tails that fit one buffer or are a whole number of buffers. That is weaker than the intended all-inputs property, which the written loop does not have; see Findings.
- KnownHosts.SpliceThenFind and KnownHosts.SpliceRewritesLine: require a file that ends in a newline and has no blank line before the deciding line. Blank lines do not advance the offsets, and a last line without its newline makes the span run one byte past the end.
- HostKey.UpdateKnownHosts: the splice moves the tail with the intended `spareSpace` (`Spare.SpareSpace`), not with the grow loop as written. When the record is longer than the line it replaces, the splice result holds for the source only when the tail after the span fits one 1024-byte buffer or is a whole number of them, the condition of `Spare.GrowAsWrittenFits`. Otherwise the written loop can corrupt the tail; see Findings. The bytes before the span and the record itself are not affected.
- KnownHosts.SpliceForm: states the splice with the intended tail move, so for a longer record it holds for the source only under the condition of `Spare.GrowAsWrittenFits`.
- KnownHosts.SpliceLines: states the splice with the intended tail move, so for a longer record it holds for the source only under the condition of `Spare.GrowAsWrittenFits`.
- KnownHosts.SpliceRewritesLine: states the rewrite with the intended tail move, so for a longer record the lines after the rewritten one are as stated only under the condition of `Spare.GrowAsWrittenFits`.
- The resize callback: main.go sends a window-change request over the SSH session. The model takes it as a deterministic function `ok` of the size, which tells whether the request succeeds; a callback whose answer changes from one call to the next is not modelled.
- KnownHosts.AppendThenFind: requires the server's own record to be well formed and its key to parse back.
- Chunk boundaries: `inPipe` carries no state across reads, so its results depend on where reads end, as `Pipe.ReadBoundaryMatters` shows. A design that buffers a partial sequence across reads, so that results would not depend on chunking, is not what the code does. The model follows the code.
- The `sshStart` and host-key event names are modelled only as constants. The host-key payload types are not defined in the source.

## Findings

| source | as written | input that shows it | evidently intended | confidence | as-written member | corrected member |
|---|---|---|---|---|---|---|
| hostkey.go:236-259 | Every round of the grow loop reads a whole buffer. The last round's start is clamped to `keepAfter`, so it reads past `end` into bytes an earlier round has already moved, and writes them again `d` higher. | A 13-byte file `ab\n0123456789`: keepBefore 0, keepAfter 3, requiredSpace 4, buffer 4. The loop leaves `ab\n00122456789`. With the 1024-byte buffer, the same can happen when the tail is longer than one buffer and not a multiple of it. | Read only the `end - start` bytes still to move. The result is `ab\n00123456789`: the old head, one zero, the tail. | high; not executed | Spare.GrowOverReadCorrupts | Spare.SpareSpace |
