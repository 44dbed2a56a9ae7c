# sexpect, verified in Dafny

sexpect is an Expect for shell scripts: `sexpect spawn` starts a daemon that keeps a child process on a pty, and
every other sub-command is a short-lived client that talks to the daemon over a socket. This project models the
parts of it that have to be right for every run, and proves what they promise.

* **The server** (server.c). `ServerSpec` is one iteration of `serv_loop()` as a transition function. Everything the
  operating system and the client decide is an argument (`Env`): what `read()` returned, whether a send went through,
  which message came, when SIGCHLD arrived, whether a timer expired. `regcomp()`/`regexec()` are a `Matcher` with span
  bounds. The state carries a log of what was read, delivered, skipped, matched and answered. `ServerImpl` is the
  same server as an object with two fixed buffers that its methods change in place, each method proved against the
  transition. `ServerRuns`, `Overrun`, `Nonblock`, `Lookback`, `ExpectText` and `Peek` are the theorems, for all runs
  and all buffer sizes that pass the compile-time checks of server.c. `Verdict` says which reply ends a pass, `Replay`
  what a client is sent before it, `Messages` what every message is answered with and leaves behind, `Pty` what is read
  and what a pattern is tried on: each in terms of what was asked, not of how it is computed.
* **The session** (client.c against server.c). `ServerTalk` says what an iteration of the server sends; `Session`
  composes that server with the client's HELLO, command and DISCONN loops over two FIFO channels, in every
  interleaving; `Progress` shows that these sessions do not deadlock.
* **The wire format** (proto.c, common.c). `NetInt`, `Ttlv`, `TtlvCanon` and `TtlvImpl` are the recursive
  tag/type/length/value codec, `TtlvExact` its bytes and exactly which buffers decode, `TtlvRoom` what it stores into
  the nodes it allocates; `TtlvCut` and `Framing` are
  `readn()`, `writen()`, `msg_send()` and `msg_recv()` over a stream whose system calls may be cut short, interrupted
  or fail.
* **Text** (common.c, client.c). `Cstring` is `strunesc()` and the dump that it reads back, `Escapes` its escapes one by
  one; `Glob`, `GlobProof`, `GlobTable`, `GlobMeaning` and `GlobImpl` are `glob2re()`; `Template` and `Subst` are
  `interact -subst`.

## What the code does not promise

Nine properties one would expect are false of the code. Each is stated with an input that shows it and with the exact
condition under which it holds.

* The assert in `buf_raw2expect()` can fail (`Overrun.AssertFails`): `expect b`, then `expect -eof`, then `get`,
  against enough output. `Overrun.AssertCanFail` is the condition on the state, `Overrun.AssertHolds` a condition on
  the commands.
* `-lookback` goes on with the NULL that `strchr()` returned when a NUL precedes the first newline: a run that gets
  there from the start is `Lookback.LookbackFails`, the condition `Lookback.FaultsExactly`.
* `expect_out 0` is documented as the string that matched. It is, for all output, unless `-exact` and `-nocase` are
  given with a pattern that has a letter (`ExpectText.ExpectOutTheorem`); then it is the pattern
  (`ExpectText.NocaseExample`).
* `glob2re()` passes `[z-a]` and `[a-m-o]` on, which are no regular expressions (`GlobProof.BadRanges`). What it writes
  is one iff in all brackets ranges run upwards and no `-` follows a range except as the last member
  (`GlobProof.GlobTheorem`).
* `-subst` never ends when a pattern matches the empty string at the start of the text (`Subst.EmptyMatchLoops`). It
  ends for all texts iff no pattern that decides does that on any text (`Subst.HaltsForAll`), and for one text iff none
  does on what the loop comes to (`Subst.HaltsExactly`).
* `ttlv_decode()` means to check the length of scalars but passes tag and type together, so the check only applies to
  tag 0 (`Ttlv.ValidLen`). `ttlv_new()` allocates what the length field says, and a LONG with length 0 is stored where
  there is no room (`TtlvRoom.ShortLong`). All stores fit iff no INT or BOOL has a length below 4 and no LONG one below
  8 (`TtlvRoom.RoomTheorem`); with the check as meant they always would (`TtlvRoom.FitsAsMeant`).
* `msg_recv()` may hand on the front of a message that does not decode (`TtlvCut.TornIsHanded`): it hands on exactly
  what decodes unless the message is a scalar with a tag and a length over 8 (`TtlvCut.HandedTheorem`).
* `msg_recv()` does not notice that its last `readn()` failed, and may return the message before once more
  (`Framing.StaleMessage`). The failure is noticed, whatever is in the buffer, iff it comes within the first 12 bytes
  (`Framing.FailureNoticed`).
* The size check of `msg_recv()` is done in 32 bits and passes for eight length fields just below 2^32
  (`Framing.SizeCheck`, an iff).

Of the last four, only the unnoticed failure concerns messages that `msg_send()` writes: for these there are
`TtlvRoom.BuiltFits`, `Framing.RecvFrames` and `Framing.Exchange`.

## Model

| member | source | states |
|---|---|---|
| ServerRuns.RunInv | server.c:934-1119 | every iteration of every run keeps all invariants below and never moves the match cursor back |
| ServerRuns.WindowTheorem | server.c:504-619 | in every run `rawbuf` is exactly the stream from `rawoffset` to `ntotal`, `expbuf` a suffix of the NUL-stripped stream up to `expoffset`, both within MAX_OLD_DATA between iterations, and `rawoffset` > 0 only with MAX_OLD_DATA old bytes |
| ServerRuns.MatchTheorem | server.c:621-705 | the texts matched by successive expects are pieces of the NUL-stripped stream, disjoint and in stream order |
| ServerRuns.CursorTheorem | server.c:596-705 | however a run continues, what has been consumed stays consumed |
| ServerRuns.DeliveryTheorem | server.c:827-836 | fresh parts of all OUTPUT messages and skipped blocks, then the pending bytes, are everything read, failed sends included; skips are whole NONBLOCK_DROP_SIZE blocks made with no client connected |
| ServerRuns.EndTheorem | server.c:873-910 | EXITED is sent at most once, and when EXITED, EOF or the EOF error was sent, everything the pty produces in the whole run had been delivered or skipped |
| ServerRuns.PatternEofTheorem | server.c:851-907 | an expect with a pattern reports EOF only with the pty closed, nothing undelivered, and the pattern failing on all retained text |
| ServerRuns.ServPassInv | server.c:742-921 | a pass keeps the invariants on every path, because nothing is undelivered once it gets past the send |
| ServerRuns.ReceiveInv | server.c:283-502 | so does every message a client can send |
| ServerRuns.ReadInv | server.c:504-567 | so does reading, short or at end of file |
| ServerRuns.AgeInv | server.c:1092-1105 | so does marking a block old in nonblock mode |
| ServerRuns.DropInv | server.c:569-593 | dropping old data keeps them and restores the bounds |
| ServerRuns.DropBuf | server.c:569-593 | exactly the bytes beyond MAX_OLD_DATA are dropped from either buffer |
| ServerRuns.CopyBuf | server.c:595-619 | copying without NULs makes the expect buffer a suffix of the whole stripped stream |
| ServerRuns.WindowNotEmpty | server.c:770-772 | the byte before the end of the window exists once something was read |
| Verdict.PassDecided | server.c:840-921 | the verdict of a pass, all cases: MATCHED iff the pattern hits, else by end of file, exit or time-out exactly one reply or none, and what is left of the expect buffer |
| Verdict.EofVerdict | server.c:883-914 | at end of file, unless the pattern hits: EOF with -eof, EXITED with -exit once the child is dead, the EOF error with neither; each iff |
| Verdict.OpenVerdict | server.c:726-740 | with the pty open, unless the pattern hits, a time-out iff the time is up |
| Verdict.ReVerdict | server.c:654-724 | `expect -re` is answered with MATCHED iff the regular expression matches the text copied; the text after the match and the groups are kept, the groups of before with NOSUB |
| Verdict.LostVerdict | server.c:851-921 | a verdict that cannot be sent closes the connection, and one that is not due does not |
| Replay.ReplayTheorem | server.c:755-836 | one iteration of a pass sends one OUTPUT with all bytes not sent yet and in front of them what -lookback N asks for, by lines: the last N lines, all of them when there are too few, the rest of one line when the last N are new; nothing more without -lookback, which is used up |
| Replay.LostOutput | server.c:827-832 | an OUTPUT that cannot be sent leaves everything undelivered and closes the connection |
| Replay.FaultsInLines | server.c:786-796 | when the NULL of `strchr()` is used, by lines |
| Messages.PassStarts | server.c:336-370 | what PASS sets and what it takes from the pass before it, the default time-out, and that a pattern clears expect_out |
| Messages.InfoAnswer | server.c:473-498 | INFO carries the last bytes of the output copied, at most 4096 |
| Messages.ExpoutAnswered | server.c:372-390 | expect_out 0 to 9 answers with what is kept or nothing, any other index is a usage error |
| Messages.ExpoutLasts | server.c:372-390 | what is kept for expect_out lasts until the next pass, in every run |
| Messages.HelloAnswer | server.c:219-260 | HELLO of this version is welcomed, of another answered with an error and left |
| Messages.DisconnAnswer | server.c:262-279 | DISCONN is answered and closes the connection |
| Messages.InputAnswer | server.c:314-334 | SEND is acknowledged, INPUT and WINCH are not |
| Messages.KillAnswer | server.c:432-445 | KILL is answered by what `kill()` said |
| Messages.CloseAnswer | server.c:422-430 | CLOSE closes the pty, whether or not the answer arrives |
| Messages.SetAnswer | server.c:447-471 | SET changes what it names only |
| Messages.DefaultsLast | server.c:352-359 | the default time-out and nonblock last until the next SET, in every run |
| Messages.NewClient | server.c:1063-1084 | a new client has no pass, pattern or lookback of the one before |
| Messages.NoMessage | server.c:173-197 | a connection that breaks is closed, and only an open one is heard |
| Pty.ReadAnswer | server.c:504-567 | a read appends what it got, as far as there is room, and its end closes the pty |
| Pty.IterationReads | server.c:957-1118 | an iteration adds to the stream what its read got and nothing else; when it closes the pty and learns of the child's death, each iff |
| Pty.StaysClosed | server.c:957-1118 | a closed pty stays closed and gives nothing any more, in every run |
| Octets.StripOne | server.c:612-617 | of a single byte, only a NUL is left out |
| Pty.TriedOn | server.c:595-619 | a pattern is tried on all output after the cursor, or on all that is still in the window if more has left it |
| Pty.DropCursor | server.c:569-593 | dropping old data moves the cursor by what leaves the expect buffer |
| Pty.Ends | server.c:957-960 | once the child was reaped and the client is gone nothing happens any more |
| Pty.StillAccepts | server.c:957-960 | before that the next client is accepted |
| Pty.ReapedOnce | server.c:895-903 | the child is reaped exactly when EXITED is due |
| Overrun.AssertCanFail | server.c:596-619 | with a client and an open pty, the next iteration can fail the assert iff `rawoffset` <= `expoffset` < `rawoffset` + `expcnt` |
| Overrun.AssertCanFailClosed | server.c:596-619 | once the pty is closed it can fail iff it is violated already |
| Overrun.AssertHolds | server.c:607-608 | the assert never fails in a run with nonblock off in which every pass has a pattern or is interact or wait |
| Overrun.AssertFails | server.c:607-608 | for all sizes and matchers, six iterations that fail it |
| Overrun.SafeIteration | server.c:596-619 | outside the vulnerable states no iteration fails it, whatever is read or received |
| Nonblock.RegainsSpace | server.c:1092-1117 | a full window with no client has room after exactly (MAX_OLD_DATA - old) / NONBLOCK_DROP_SIZE + 1 completed iterations, not before |
| Nonblock.NeededIsQuotient | server.c:1096-1103 | that number is the quotient, at most 9 with the shipped sizes |
| Lookback.StartsAtLine | server.c:755-827 | a pass sends one suffix of the window with every undelivered byte, from the window's start, a line start or `rawnew` |
| Lookback.LastLines | server.c:774-805 | it is exactly the last N lines when the N-th last starts after a newline in the old part |
| Lookback.WholeStream | server.c:782-790 | with too few lines and nothing dropped, the whole output is sent |
| Lookback.RepeatsOneLine | server.c:806-822 | when the last N lines are all new, at most the rest of one old line is repeated |
| Lookback.FaultsExactly | server.c:792-796 | when the NULL result of `strchr()` is used |
| Lookback.SendStartCases | server.c:755-825 | the branches that compute `psend`, as one table over the newlines of the window |
| Lookback.LookbackFails | server.c:792-796 | for all sizes and matchers, a run of five iterations that uses it |
| ExpectText.ExactTheorem | server.c:621-645 | `expect -exact` succeeds iff its pattern occurs in the stripped output after the cursor, and consumes through the first occurrence |
| Octets.CaseFold | server.c:627-631 | when two bytes are the same without regard to case |
| ExpectText.MatchedIff | server.c:851-865 | MATCHED is sent iff the match succeeds, and the text after the match is kept |
| ExpectText.ExpectOutTheorem | server.c:638-698 | `expect_out 0` is the text that matched, for all output, iff not `-exact -nocase` with a letter in the pattern; and for one output iff the first match there is also one with case |
| ExpectText.NocaseExample | server.c:627-639 | an input where it is not |
| ExpectText.GroupsTheorem | server.c:654-705 | after a pass with a regular expression was answered with MATCHED, `expect_out` i answers with group i of the match on the text copied for 0 to 9, and with a usage error otherwise |
| ExpectText.VerdictTheorem | server.c:726-740 | a pass ends in an iteration unless it may still wait: a zero time-out is decided at once, a negative one never times out, and no pass times out after end of file |
| Peek.DumpMatches | server.c:473-496 | what `get -expbuf N` prints, given back to `expect` any number of iterations later, matches and leaves the expect buffer empty, if no output and no other pass came in between |
| Peek.CalmStep | server.c:957-1118 | an iteration without output and without a new pass leaves a copied expect buffer as it is, whatever else happens |
| Peek.DumpsTheEnd | client.c:481-486 | `get -expbuf N` prints the last N bytes of what it got |
| Peek.DumpIsArgument | client.c:481-486 | the printed text is a valid `-cstring -exact` argument and means the bytes shown |
| ServerImpl.Server.constructor | server.c:1121-1141 | the initial state |
| ServerImpl.Server.ReadPtm | server.c:504-567 | interrupted reads are retried; the new bytes are appended, or the pty closed |
| ServerImpl.Server.Age | server.c:1092-1105 | the nonblock branch, with `newcnt` never negative |
| ServerImpl.Server.DropOldData | server.c:569-593 | the two `memmove()`s |
| ServerImpl.Server.CopyStripped | server.c:612-617 | the copy loop writes the stripped bytes within the buffer |
| ServerImpl.Server.BufRaw2Expect | server.c:595-619 | copies, or fails its assert, exactly as the transition says, and terminates the buffer |
| ServerImpl.StrLen | server.c:634 | the distance to the terminator |
| ServerImpl.StrStr | server.c:627-631 | the first occurrence, with or without case |
| ServerImpl.Server.CutExp | server.c:634-636 | `strlen()` and `memmove()` keep exactly the text after the match |
| ServerImpl.Server.ExpectExact | server.c:621-645 | finds, cuts and records, or leaves all as it was |
| ServerImpl.Server.ExpectEre | server.c:654-705 | the same for a regular expression, NOSUB included |
| ServerImpl.Server.ServExpect | server.c:707-724 | dispatches on the flags; nothing matches at end of file with an empty buffer |
| ServerImpl.Server.ScanBack | server.c:774-781 | the k-th newline from the end |
| ServerImpl.Server.FirstNL | server.c:792-793 | `strchr()` stops at the first newline or NUL |
| ServerImpl.Server.Psend | server.c:755-825 | the start of what is sent |
| ServerImpl.Server.Deliver | server.c:827-836 | one OUTPUT message; a failed send changes nothing but the connection |
| ServerImpl.Server.EndPass | server.c:873-920 | end of file, exit and time-out |
| ServerImpl.Server.ServPass | server.c:742-921 | the whole pass |
| ServerImpl.Server.Info | server.c:473-498 | copies, then answers with the last bytes of the expect buffer |
| ServerImpl.Server.StartPass | server.c:336-370 | what PASS sets, what it keeps from an earlier one |
| ServerImpl.Server.ProcessMsg | server.c:283-502 | every message |
| ServerImpl.Server.Iterate | server.c:957-1118 | one iteration of the loop |
| ServerTalk.ServPassTalk | server.c:742-921 | a pass says output, then at most one final reply, which ends it |
| ServerTalk.ProcessTalk | server.c:302-499 | what each message is answered with, and what becomes of the connection |
| ServerTalk.OpenTalk | server.c:1107-1115 | an iteration with a client says the answer to one message, then what the pass says |
| ServerTalk.ClosedTalk | server.c:1063-1084 | one without says nothing and can only accept |
| Session.SessionTheorem | client.c:91-173 | in every interleaving HELLO comes first, then output, at most one final reply, DISCONN; the client never meets a message it cannot handle; both ends are done with empty channels; only a detached interact can meet a crossing final reply |
| Session.ServerKeeps | server.c:1064-1115 | the server's half of the session invariant |
| Session.ClientLoop | client.c:402-506 | the client's loop: the first message that is no output is the last one due |
| Session.ClientDisc | client.c:135-173 | the client's wait for DISCONN, skipping output and a crossing reply |
| Progress.NoDeadlock | client.c:91-173 | from every reachable state of a session of an interact or a command that is no pass, and whenever a client waits for DISCONN, there are actions that end it with DISCONN, unless the server faults or had ended before |
| Progress.Onward | client.c:402-506 | in each of these states the next action is possible, keeps the invariant and comes closer to the end |
| NetInt.Swap64Stores | proto.c:15-28 | what `_htonll()` returns is stored as the big-endian bytes |
| NetInt.Swap64Twice | proto.c:30-43 | `_ntohll()` undoes `_htonll()` |
| NetInt.SignedUnsigned | proto.c:268-283 | two's complement survives the wire |
| NetInt.PutGet32 | proto.h:15-18 | 32-bit network order, there and back |
| NetInt.GetPut64 | proto.h:16-19 | and 64-bit |
| Ttlv.SizeIsLength | proto.c:66-90 | `ttlv_calc_size()` is the encoded length, a multiple of 8 |
| Ttlv.DecodeEncode | proto.c:386-541 | decoding an encoded forest gives the forest |
| TtlvCanon.EncodeDecode | proto.c:449-541 | if a buffer decodes, encoding the result gives it back with the padding zeroed |
| TtlvCanon.ValueAgain | proto.c:312-345 | each value is reproduced up to padding, whatever its length field |
| TtlvExact.IntBytes | proto.c:400-418 | an INT and a BOOL byte by byte |
| TtlvExact.LongBytes | proto.c:400-418 | a LONG byte by byte |
| TtlvExact.DataBytes | proto.c:400-418 | a TEXT and a RAW: header, data, zeros up to a multiple of 8 |
| TtlvExact.StructBytes | proto.c:420-436 | a structure: header with the length of its children, then these |
| TtlvExact.DecodesIff | proto.c:449-541 | a buffer decodes to a forest with legal lengths iff it is its encoding, whatever the padding holds |
| TtlvImpl.ValueHton | proto.c:259-305 | a value is written in full or refused, within its buffer |
| TtlvImpl.EncodeNodeAt | proto.c:400-439 | one node, its structure length patched in afterwards |
| TtlvImpl.TtlvEncode | proto.c:386-442 | the whole forest or -1, exactly by whether it fits, nothing outside the buffer |
| TtlvImpl.DecodeNodeAt | proto.c:465-532 | one node and the position after it, refused, or a value cut short |
| TtlvImpl.TtlvDecode | proto.c:449-541 | terminates, and consumes exactly the buffer or fails and leaves the nodes before a value cut short; the closing mismatch is dead |
| TtlvImpl.EncodeBodyAt | proto.c:413-438 | length and value, the length of a structure written after its children |
| TtlvRoom.WalkDecodes | proto.c:449-541 | the values stored by a decoding are the leaves of its result, in order |
| TtlvRoom.RoomTheorem | proto.c:92-107 | all stores of a decoding fit the nodes allocated iff no scalar of the result has a length below its C width |
| TtlvRoom.StoresTheorem | proto.c:312-342 | the same for a decoding that fails: all stores up to the failure fit iff none of these scalars is too short |
| TtlvRoom.ShortLong | proto.c:312-342 | a structure with a LONG of length 0 decodes and does not fit, for every tag and value |
| TtlvRoom.FitsAsMeant | proto.c:344-368 | with the length check given the type alone, all stores of all buffers fit |
| TtlvRoom.BuiltFits | proto.c:109-183 | all stores fit for whatever is built with the constructors and encoded |
| TtlvCut.HandedTheorem | common.c:929-936 | `msg_recv()` returns exactly what decodes iff the message is no scalar with a tag and a length over 8 |
| TtlvCut.TornIsHanded | common.c:929-936 | for every such header a body that does not decode and is returned in part |
| Framing.Readn | common.c:727-750 | however reads are cut or interrupted, the next bytes of the stream; or -1, with some of them lost |
| Framing.Writen | common.c:757-779 | however writes are cut or interrupted, all bytes once; or -1, with some front of them written |
| Framing.MsgSend | common.c:944-987 | a message is framed in full, refused for its size with nothing sent, or cut off by a failing write |
| Framing.MsgRecv | common.c:881-938 | what is made of any stream, for any read failures |
| Framing.SizeCheck | common.c:916-921 | the size check is sound iff the length field is not one of eight whose rounding wraps |
| Framing.FailureNoticed | common.c:923-936 | for every message sent, a read that fails makes `msg_recv()` return NULL, whatever is in its buffer, iff it fails before the body |
| Framing.StaleMessage | common.c:923-936 | a failed last read gives the message before again |
| Framing.ShortLongReceived | common.c:929-936 | a message whose stores do not fit is received like any other |
| Framing.TornFrame | common.c:881-938 | no frame that is cut off is taken for a message |
| Framing.MagicBytes | common.c:968-975 | a frame is the magic number in network order, then the message |
| Framing.NoMessage | common.c:901-927 | another magic number, too large a length or an early end is no message, and how far each is read |
| Framing.RecvFrame | common.c:881-987 | a framed message is received as sent and the next one is not touched |
| Framing.RecvFrames | common.c:881-987 | a sequence of messages is received as the same sequence, each leaving exactly those after it |
| Framing.Exchange | common.c:727-987 | end to end, sending and receiving in any order, for all schedules of both sides |
| Framing.OutputFits | server.c:32-34 | an OUTPUT message of a whole window is never too large to send |
| Cstring.UnescDump | client.c:209-244 | `strunesc()` of a dump is the bytes dumped, for all bytes |
| Escapes.LetterEscape | common.c:406-432 | the letters, `\e` and `\E` among them |
| Escapes.ControlEscape | common.c:433-441 | `\cX` in either case, and which X are errors |
| Escapes.HexEscape | common.c:443-457 | `\xHH`, `\xH`, and the error |
| Escapes.OctalThree | common.c:459-473 | `\ooo` as long as it is a byte, else two digits and a character |
| Escapes.OctalTwo | common.c:474-478 | two octal digits |
| Escapes.OctalOne | common.c:479-483 | one |
| Escapes.OtherEscape | common.c:487-491 | a backslash before any other character is dropped |
| Escapes.BackslashAtEnd | common.c:484-486 | at the end it stands for itself |
| Escapes.PlainDump | client.c:209-244 | printable text without quotes and backslashes is dumped as it is |
| Cstring.DumpPrintable | client.c:209-244 | a dump is printable and has no single quote |
| Cstring.Unesc | common.c:382-506 | the result is no longer than the input |
| Cstring.Escape | common.c:404-491 | an escape uses at least one byte and stays within the string |
| Cstring.UnescPlain | common.c:496 | text without backslashes is unchanged |
| Cstring.EscapeAt | common.c:404-491 | every escape, with no read past the terminator |
| Cstring.StrUnesc | common.c:382-506 | the loop, within a buffer of `strlen()` + 1 bytes |
| Cstring.DumpCstring | client.c:209-244 | the printing loop |
| GlobProof.GlobTheorem | common.c:508-694 | for an accepted glob, the output is at most three times as long, is a regular expression iff in all brackets ranges run upwards and no `-` follows one except as the last member, and then matches exactly the same spans of every text, with and without case |
| GlobProof.Translates | common.c:508-694 | exactly the globs of the table are accepted; token by token the output means the same |
| GlobProof.BracketAtom | common.c:582-630 | a copied bracket is read as the same list, whatever follows |
| GlobProof.EmitPiece | common.c:560-685 | what one turn writes is read back as one piece |
| GlobProof.SameMatches | common.c:508-536 | pieces that mean the same match the same spans |
| GlobProof.BadList | common.c:606-629 | every bad list without brackets in it passes as it is and is no regular expression |
| GlobProof.BadRanges | common.c:606-629 | in particular `[z-a]` and `[a-m-o]` |
| GlobTable.RefusedTheorem | common.c:508-694 | a glob is refused iff one of its tokens is a bracket that does not close, a bracket with a class in it, or a backslash before another character, by positions in the glob |
| GlobTable.ClassesRefused | common.c:612-620 | every bracket with `[:`, `[.` or `[=` before its end, wherever |
| GlobTable.Wildcards | common.c:511-512 | `*` and `?` |
| GlobTable.Plain | common.c:682-685 | characters without a meaning of their own, `]` included |
| GlobTable.Escaped | common.c:527-531 | the five characters a backslash may precede |
| GlobTable.Anchors | common.c:519-522 | `^` and `$`, as anchors and as characters |
| GlobTable.Brackets | common.c:513-518 | brackets with their members, a first `]` among them, negated or not |
| GlobMeaning.TokenMatches | common.c:508-536 | the texts that each token stands for |
| GlobMeaning.MatchConcat | common.c:508-536 | one glob after another matches what can be cut into a match of each |
| GlobMeaning.RangeMembers | common.c:513-518 | a range has the characters from its first to its last; when it is valid |
| GlobMeaning.PlainMembers | common.c:513-518 | without a `-` the members are the characters of the list |
| GlobImpl.MemberList | common.c:606-624 | the closing bracket, or an error for classes |
| GlobImpl.Turn | common.c:560-685 | the branches of the loop |
| GlobImpl.GlobToRe | common.c:537-694 | the loop, within a buffer of 3 `strlen()` + 1 bytes |
| Template.RenderParse | client.c:544-570 | rendering a parsed template gives the template |
| Template.ParseRender | client.c:544-570 | parsing a rendered normal part list gives the list |
| Template.ParseNormal | client.c:544-570 | what is parsed is normal |
| Template.UnescKeepsGroups | client.c:572-585 | unescaping succeeds iff it does for each text; groups stay what and where they are and each text is unescaped |
| Template.EscapedParen | client.c:572-585 | `\x281)` is the text `(1)`, while unescaping first would make it group 1 |
| Subst.AnyReplacement | client.c:280-295 | for every text some -cstring template makes the substitution write exactly that text, also one that reads like a group |
| Template.ParseRepl | client.c:532-570 | the parsing loop |
| Subst.GroupReplaces | client.c:284-293 | a rule with the replacement `(n)` replaces its match by group n of the deciding match, by nothing if that took no part |
| Subst.SwapGroups | client.c:280-295 | `(2)(1)` swaps two groups that make up the match |
| Subst.FillConcat | client.c:280-293 | the parts of a replacement are written one after the other |
| Subst.TurnWrites | client.c:264-296 | one turn of the loop, by the first rule that matches |
| Subst.FirstDecides | client.c:265-271 | the first rule that matches decides |
| Subst.NothingReplaced | client.c:273-277 | a text that no rule matches is unchanged |
| Subst.PassesThrough | client.c:264-296 | text outside matches passes once and in order, and only matches are replaced |
| Subst.Identity | client.c:280-295 | with "(0)" for every pattern the text is unchanged |
| Subst.NulPasses | client.c:311-323 | a NUL passes through and separates what is substituted |
| Subst.RawIdentity | client.c:299-324 | with "(0)" raw output is unchanged, NULs included |
| Subst.HaltsForAll | client.c:264-296 | the loop ends for all texts iff no match that decides is an empty one at the start of a text |
| Subst.HaltsExactly | client.c:264-296 | the loop ends iff every match it meets ends past the start of the text left |
| Subst.EmptyMatchLoops | client.c:295 | an empty match at the start never ends |
| Subst.CliSubst | client.c:246-297 | the substitution loop |
| Subst.CliSubstRaw | client.c:299-324 | the loop over NUL-separated pieces |

## Left out

* pty.c, `daemonize()`, the set-up in `serv_main()`, sockets, termios, window sizes and log files: no state of their
  own that the properties depend on.
* main.c: option parsing; its limits appear as hypotheses (N at most 4096, a pattern that is neither empty nor holds
  a NUL).
* The exits of `serv_loop()` by autowait, ttl, idle and zombie timers: a run may stop after any iteration; clocks are
  a Boolean argument of the iteration.
* `regcomp()` and `regexec()`: matchers with span bounds, except for the regular expressions that `glob2re()` writes.
* Locales: bytes are characters, collate by value, and `strcasestr()` folds ASCII.
* `ttlv_append_child()`, `ttlv_find_child()`, `ttlv_free()` and memory: trees are values; the messages of the server
  model are already decoded.
* GlobProof.GlobTheorem: newline-sensitive matching is not modelled, as -anchor-newline is only for -re (main.c:774).
* Framing.MsgRecv: says that the size check passed a length beyond the buffer, not what happens after that.
* Framing.Exchange: the two sides take turns message by message; a reader that finds a frame incomplete waits for the
  rest of it.
* TtlvImpl.TtlvEncode: a size that would not fit an `int` is not modelled.
* Session.SessionTheorem: the client is alive, of the server's version, and the only one; dying clients are covered on
  the server's side by the theorems of `ServerRuns`, where any send may fail.
* Nonblock.RegainsSpace: an iteration interrupted by a signal does not count as completed.
* Subst.CliSubst: requires that the loop ends on its text, as does Subst.CliSubstRaw for the pieces of its buffer.
* Progress.NoDeadlock: an expect or wait in progress ends when its time comes, which ExpectText.VerdictTheorem says.
* Peek.DumpMatches: the buffer must fit into the N bytes asked for and into MAX_OLD_DATA, and the assert must hold.
