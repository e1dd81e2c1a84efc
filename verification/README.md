# Verification of OpenPegasus' privileged executor and its neighbours

The executor (`pegasus/src/Executor`) is the one process of the CIM server that keeps root
privileges. It reads fixed-size requests from a socket, checks them against a policy table, does
what they ask and answers, sometimes passing open descriptors along. This project models it from the
byte stream down to the string routines, and proves that a whole run of its loop is a function of
the byte stream and the answers of the system, and that it serves every list of requests to its end.
Around it stand the start-up protocols (launcher, executor and server; the PID file), the argument
vector handed across `exec`, the JSON library of the web console and two text routines of `cimcli`.

| file | models |
|---|---|
| `Collections`, `CStrings` | shared helpers; bounded C strings: `Strlcpy.h`, `Strlcat.h` |
| `Glob` | the recursive matcher of `Match.h`, against a declarative glob relation |
| `Macros`, `Expansion` | the linked macro list and `ExpandMacros` of `Macro.c` |
| `Messages`, `Policies` | request encoding; the static policy table and its check |
| `Kernels`, `Sockets` | descriptor table, files; the partial-transfer loops of `Socket.c` |
| `Decimals`, `LocalAuth`, `OneShot` | challenge files and tokens; what holds over every run of them |
| `Service`, `Parent`, `Sessions` | the requests as a function; handlers and loop that refine it; local authentication as the peer sees it |
| `Answering`, `Clients` | what each request gets for an answer, in the bytes of the reply; requests as clients fill them in |
| `Names`, `Confinement` | what paths stand for; which files a run can change and what the policy's patterns confine |
| `Handshake`, `Launching`, `SingleInstance` | start-up as interleaved processes; how it hangs together with the requests served |
| `Argv`, `Paths`, `Folding` | `Child` and `_extractExecutorSockOpt`; `DirName`; `_tokenize` and `foldString` |
| `JsonText`, `Json`, `JsonTokens`, `JsonGrammar`, `JsonLayout`, `JsonReading`, `JsonCheck`, `JsonSafety`, `JsonParse` | `json2.js`: printing and its layout, the four-regexp check, what it lets through, and the grammar of RFC 8259 |

## How the system is seen

System calls answer from outside. A request gets a record of answers (`Service.Answers`): did this
open, fork, `sendmsg` succeed; which random bytes and clock value came; which users it knows, and
for whom a password file vouches (functions of what is asked). A socket gets a schedule of events:
select time-outs, interruptions, readiness with so many bytes, errors, signals. A transfer is a
function of that schedule, `Sockets.Transferring`, which the two loops of `Socket.c` are proved to
compute; a run that uses up its events is still waiting. The theorems hold for every such record and
schedule. `fork` answers as in the parent. Descriptors are allocated lowest-free. Integers are in
the byte order and layout of a little-endian 64-bit machine without padding between the members
used. Long handlers are cut into helper methods at the points where the original calls the system.

A path stands for a file by a function `resolve` that is the same for every call of a run and otherwise
arbitrary (`Kernels.Kernel`, `LocalAuth.Place`): files are keyed by its results, so that two paths may
stand for one file, and all theorems but those that name `Names.Lexical` hold for every such function.
No other process changes the files that a run is about; the owner of a challenge file, and a peer with
a descriptor for writing, could.

`Parent.Executor.Parent` is the executor's main result. Whatever the fragments, interruptions and
answers, what was sent is exactly the replies of the pure function `Service.Replies` to a prefix of
the requests in the stream, followed by at most a part of one more reply, and the loop ends cleanly
only on a message boundary. It is still waiting only when select has reported readiness no more often
than there are bytes in the stream and in the replies to it; so on a schedule that is in order, has no
termination signal and more readiness than that, every request up to the first one without an agent
program is served and the end is the one that the stream decides. `Parent.Executor.ServeList` reads
this for a list of requests, and `Sessions` states one-shot authentication about the replies, whatever
other requests lie between.

## Where the code does not keep what it promises

Each is kept as the code has it, with the exact condition or a concrete run.

- A string that is used up does not match two or more remaining stars (`Match.h:76-82`), so `**`
  rejects the empty string. For patterns that end in two stars a match means: the pattern without
  them matches a proper prefix (`Glob.MatcherVersusGlob`, `Glob.TwoStarsRejectNothing`).
- The policy's patterns are patterns of paths, and nothing makes a path normal before it is compared
  (`Policy.c:236-262`). A path behind a store's directory is allowed whatever follows; read by its words
  it stands for something in the directory exactly when the rest does not climb above it, or comes down
  again the same way (`Confinement.StoreConfinesExactly`). So with a store defined the patterns allow
  some path of every file (`Confinement.NothingIsPrivate`), and what `Sessions` says of a file has the
  condition that no request of the run reaches it. `Confinement.LevelRunIsConfined` gives that for
  runs whose opens do not climb.
- An authentication removes whatever file its path stands for, and no policy is asked
  (`LocalAuth.c:255-268`, `Parent.c:803-826`): `Confinement.AuthenticationIsUnchecked`. Every other
  change has the policy's permission or is a challenge's: `Confinement.ChangesAreNamed`.
- `select` failing with EINTR is not told from readiness, so that on an idle socket the read finds
  EWOULDBLOCK and the receive fails (`Socket.c:164-195`). No input of the executor is known to bring it
  about: it catches only SIGINT and SIGTERM, which end it anyway, and ignores SIGHUP, SIGCHLD and
  SIGPIPE (`Parent.c:881-894`, `main.c:496-504`). The endings are therefore proved for schedules in
  which select is truthful, and `Sockets.TransferMeaning` says when else a transfer gives up.
- The result of `sendmsg` is ignored (`Parent.c:251`, `Parent.c:458`): status 0 comes with a
  descriptor message exactly when `sendmsg` works (`Service.ReplyIsGood`).
- Started with one of 0, 1, 2 closed, the daemonizing executor ends with more descriptors than it had;
  a launcher pipe on such a number is overwritten before it is written to, and a second daemonize
  request opens that number again: `Service.DescriptorsConservedExactly`, `Service.PipeOnStdioIsLost`,
  `Service.PipeElsewhereReaches`. When one of the three opens of `/dev/null` fails, it is 2 that stays
  closed, whichever failed (`Kernels.Kernel.RedirectTerminalIO`).
- With an unlimited descriptor limit the conversion to `int` gives -1 and `CloseUnusedDescriptors`
  closes nothing (`FileHandle.c:85-92`): `Kernels.Kernel.CloseUnusedDescriptors`.
- The result of `unlink` after an authentication is ignored, so a challenge whose file stays can be
  answered again, exactly then: `OneShot.ReplayExactly`, `Sessions.RepeatedExactly`.
- A challenge whose `fchown` fails and whose cleanup then fails too is refused, but leaves a token
  that can be answered: `OneShot.IssuedExactly`, and `OneShot.AcceptedWasIssued` for working
  cleanups.
- Long user names cut off the sequence number, so that challenges share a path: exactly when the buffer
  ends inside the number, or right behind a number of which a longer one starts with the same digits
  (`LocalAuth.CollideExactly`). While the number fits, the path tells user and number.
- A file holding the recorded parent's number is taken for stale even when another running server
  has been given that number (`ServerRunStatus.cpp:178`): `SingleInstance.ReusedParentNumber`, with
  the exact guard in `SingleInstance.GuardIsExact`. With privilege separation nothing needs assuming
  but a writable file: `SingleInstance.AtMostOneWithPrivilegeSeparation`. A PID file that cannot be
  written is not noticed (`PidFile.cpp:72-85`), and then two servers run:
  `SingleInstance.UnwritableFile`. Between removing its file and clearing its flag a stopping server
  still has the flag set (`ServerRunStatus.cpp:157-165`); such a process is not counted as running.
- A select of the launcher that fails outright, or is interrupted at the very end, ends in exit code
  1 though the start may succeed (`Handshake.LateInterruptionGivesOne`). Code 1 means exactly that, or
  an empty pipe with all write ends closed: `Handshake.CodeOneExactly`.
- An empty argument of `--executor-socket` is accepted as socket 0, and no other one without digits:
  `Argv.DigitlessIsZeroExactly`.
- A text without newline whose length is exactly the indentation, and below the fold position, is
  dropped by `foldString`: the condition `Dropped` in `Folding.FoldString`.
- The check of `JSON.parse` lets texts through that are not JSON, which evaluation then has to refuse
  (`json2.js:461-464`): `JsonSafety.NotOnlyJsonIsAccepted`. They are harmless:
  `JsonSafety.AcceptedIsHarmless`.
- `JSON.stringify` prints `null` for NaN and infinities; every other value comes back:
  `JsonParse.RoundTrip`.

## Model

| member | source | states |
|---|---|---|
| `CStrings.Strlcpy` | pegasus/src/Executor/Strlcpy.h:53-67 | the destination holds the source cut to the size, nothing behind it changes, and the result is the full length of the source |
| `CStrings.Strlcat` | pegasus/src/Executor/Strlcat.h:53-94 | the destination holds the cut concatenation, or is untouched when it has no terminator; the result is the length the whole would have had |
| `CStrings.ClipThenAppend` | pegasus/src/Executor/Strlcat.h:53-94 | truncating early and late agree, so a chain of truncating appends truncates the concatenation |
| `Glob.Match` | pegasus/src/Executor/Match.h:37-85 | terminates and returns 0 exactly when pattern and string are related by the matcher's relation |
| `Glob.ShortestMatch` | pegasus/src/Executor/Match.h:46-62 | stopping at the shortest stretch for a star loses no match |
| `Glob.MatcherVersusGlob` | pegasus/src/Executor/Match.h:37-85 | a match is always a glob match; both agree for every pattern that does not end in two stars, and for those exactly by a proper prefix |
| `Glob.TwoStarsRejectNothing` | pegasus/src/Executor/Match.h:76-82 | the pattern of two stars and the empty string are the case that fails |
| `Macros.MacroList.FindMacro` | pegasus/src/Executor/Macro.c:83-97 | finds a value exactly for the names of the map that the list stands for, and that map's value |
| `Macros.MacroList.DefineMacro` | pegasus/src/Executor/Macro.c:109-153 | appends one binding, or fails and changes nothing when the name is bound or memory is short; the list stays acyclic with distinct names |
| `Macros.MacroList.Unlink` | pegasus/src/Executor/Macro.c:172-187 | taking out a node at the head, in the middle or at the tail removes that one and keeps the others in order |
| `Macros.MacroList.UndefineMacro` | pegasus/src/Executor/Macro.c:165-194 | removes exactly the binding of the name, if there is one |
| `Macros.ListRefinesMap` | pegasus/src/Executor/Macro.c:83-194 | after any sequence of define and undefine the list has distinct names and equals the map that the same operations give |
| `Macros.DefineThenUndefine` | pegasus/src/Executor/Macro.c:109-194 | undefining a name just defined restores the list with its order |
| `Expansion.ExpandMeaning` | pegasus/src/Executor/Macro.c:206-281 | expansion succeeds with a text exactly when the input parses into literals and closed references, all defined, whose single-pass rendering is that text |
| `Expansion.ExpandOfReference` | pegasus/src/Executor/Macro.c:251-266 | a value is inserted and never scanned again |
| `Expansion.ExpandMonotone` | pegasus/src/Executor/Macro.c:206-281 | more definitions never change an expansion that succeeded |
| `Expansion.TakeName` | pegasus/src/Executor/Macro.c:236-250 | terminating the name in place reads the name and leaves the unread part of the buffer alone |
| `Expansion.ExpandReference` | pegasus/src/Executor/Macro.c:222-267 | one reference is replaced by its value, cut to the buffer, or the expansion fails because it is open or undefined |
| `Expansion.ExpandMacros` | pegasus/src/Executor/Macro.c:206-281 | returns 0 exactly when the first 4095 characters expand, with the first 4095 characters of the expansion as output |
| `Messages.CodeOfValue` | pegasus/src/Executor/Messages.h:56-69 | the request code on the wire determines the kind of request |
| `Messages.CodesAreCounted` | pegasus/src/Executor/Messages.h:56-69 | the codes are counted from 1 in the order of the header file, and these are all |
| `Messages.Uint32OfFromUint32` | pegasus/src/Executor/Messages.h:79-82 | four bytes and a 32-bit number determine each other |
| `Messages.BytesByPlace` | pegasus/src/Executor/Messages.h:79-82 | the first byte of a number counts ones and each further one 256 times as much as the one before |
| `Messages.TwosComplement` | pegasus/src/Executor/Messages.h:107-117 | a signed int differs from its unsigned reading by a multiple of 2^32 and lies in the signed range |
| `Messages.SignedOfInt32` | pegasus/src/Executor/Messages.h:107-117 | every signed 32-bit number is read back from its four bytes |
| `Messages.FrontOfEncode` | pegasus/src/Executor/Messages.h:81-281 | an encoded request in front of anything is read back as that request and that rest |
| `Messages.EncodeOfFront` | pegasus/src/Executor/Messages.h:81-281 | what is read from the front is the encoding of the request that was read |
| `Messages.RequestsOfEncodeAll` | pegasus/src/Executor/Messages.h:81-281 | a list of encoded requests in front of a stream is read back as that list, then the requests of the stream |
| `Messages.EncodeAllOfRequests` | pegasus/src/Executor/Messages.h:81-281 | every stream is the encoding of its requests and a remainder that starts with none |
| `Policies.CheckPolicy` | pegasus/src/Executor/Policy.c:215-274 | succeeds exactly when some row's expanded patterns match, with the flags of the first such row |
| `Policies.FindRow` | pegasus/src/Executor/Policy.c:230-273 | an accepted request has a first matching row, and its flags are the ones returned |
| `Policies.ExactPattern` | pegasus/src/Executor/Policy.c:236-262 | matcher, expansion and truncation composed: a named pattern admits exactly its value |
| `Policies.DirectoryPattern` | pegasus/src/Executor/Policy.c:236-262 | a directory pattern admits exactly what starts with its value and a slash |
| `Policies.RemoveMeaning` | pegasus/src/Executor/Policy.c:79-202 | removal is allowed exactly for the six named files and below the three directories |
| `Policies.RenameMeaning` | pegasus/src/Executor/Policy.c:79-202 | renaming is allowed exactly for the four listed pairs |
| `Policies.OpenMeaning` | pegasus/src/Executor/Policy.c:79-202 | opening is allowed exactly for the listed pairs of path and mode, with their flags |
| `Policies.CheckOpenFilePolicy` | pegasus/src/Executor/Policy.c:284-307 | the open check decides as the table means, flags included |
| `Policies.CheckRemoveFilePolicy` | pegasus/src/Executor/Policy.c:317-333 | the remove check decides as the table means |
| `Policies.CheckRenameFilePolicy` | pegasus/src/Executor/Policy.c:343-361 | the rename check decides as the table means |
| `Policies.DefinesExtend` | pegasus/src/Executor/Macro.c:109-153 | definitions never change an existing binding |
| `Policies.DefinitionsKeepAcceptance` | pegasus/src/Executor/Policy.c:230-273 | over any definitions an accepted request stays accepted, with the flags of the same or an earlier row |
| `Kernels.Kernel.RedirectTerminalIO` | pegasus/src/Executor/FileHandle.c:51-64 | 0, 1 and 2 are closed and the opens of /dev/null that work take the lowest of them, for every combination of the three; the open numbers stay the same exactly when the three were open, if all work; nothing above 2 moves |
| `Kernels.Kernel.CloseUnusedDescriptors` | pegasus/src/Executor/FileHandle.c:77-93 | the table afterwards is the old one without the numbers from 3 to the limit other than the two given, and the old one itself when the limit converts to a negative number |
| `Sockets.Socket.Wait` | pegasus/src/Executor/Socket.c:101-147 | one event is consumed; a signal makes the process leave |
| `Sockets.Socket.RecvNonBlock` | pegasus/src/Executor/Socket.c:150-204 | the buffer gets exactly the next bytes of the stream however they are cut; how many, with which result, and how much of the schedule is used, is the function of the schedule before the call |
| `Sockets.Socket.SendNonBlock` | pegasus/src/Executor/Socket.c:216-257 | exactly a prefix of the data goes out, with count, result and use of the schedule as the same function has them |
| `Sockets.TransferMeaning` | pegasus/src/Executor/Socket.c:150-257 | what each result means: complete exactly when all was moved, end of stream only with all of it taken, failures only on a bad schedule, signals only from a signal; and every readiness that is used moves a byte, but for a last one |
| `Sockets.TurnsMeaning` | pegasus/src/Executor/Socket.c:150-204 | a loop that goes around so, and ends so, has moved what the function of the schedule says |
| `Sockets.CalmTransfer` | pegasus/src/Executor/Socket.c:150-257 | a schedule in order with more readiness than bytes moves all that is there |
| `Sockets.OneReadinessSuffices` | pegasus/src/Executor/Socket.c:150-257 | after any number of time-outs one readiness with enough room moves everything at once |
| `Sockets.CountsMeaning` | pegasus/src/Executor/Socket.c:150-257 | both counts are the bytes moved, on every sound schedule, and -1 exactly for the failures named |
| `Sockets.Socket.SendDescriptorArray` | pegasus/src/Executor/Socket.c:269-329 | all descriptors go in one message or none does |
| `Decimals.ValueOfDecimal` | pegasus/src/Executor/LocalAuth.c:90-90 | a number printed in decimal reads back |
| `Decimals.DigitsInOrder` | pegasus/src/Executor/LocalAuth.c:90-90 | the last digit is the number modulo ten, and there is one digit exactly below ten |
| `LocalAuth.HexReadsBack` | pegasus/src/Executor/Random.c:141-162 | each byte is read back from its two digits, the high one first |
| `LocalAuth.HexInjective` | pegasus/src/Executor/Random.c:141-162 | different random bytes give different tokens |
| `LocalAuth.RandBytesToHexASCII` | pegasus/src/Executor/Random.c:141-162 | the array holds the two digits of each byte in order and a terminator |
| `LocalAuth.ChallengePathInjective` | pegasus/src/Executor/LocalAuth.c:65-92 | as long as the number fits the buffer, the path determines user and number, whatever the user is called, and the millisecond too when the whole path fits |
| `LocalAuth.CollideExactly` | pegasus/src/Executor/LocalAuth.c:65-92 | another number in the counter's range gives the same path exactly when the buffer ends inside the number, or right behind it and ten times the number, which is not 0, is in the range |
| `LocalAuth.BuildLocalAuthFilePath` | pegasus/src/Executor/LocalAuth.c:65-92 | the buffer holds the truncated path for the current number, and the number advances modulo 2^32 |
| `LocalAuth.CreateLocalAuthFile` | pegasus/src/Executor/LocalAuth.c:116-165 | the file ends with exactly the token or, on any failure, as the cleanup leaves it; no descriptor stays open |
| `LocalAuth.CheckLocalAuthToken` | pegasus/src/Executor/LocalAuth.c:178-211 | succeeds exactly when the file can be read, is long enough and its token is the response; no descriptor stays open |
| `LocalAuth.StartLocalAuthentication` | pegasus/src/Executor/LocalAuth.c:223-242 | is the challenge step of the protocol, with the issued path as result |
| `LocalAuth.FinishLocalAuthentication` | pegasus/src/Executor/LocalAuth.c:255-268 | is the authentication step of the protocol: the file goes whether or not the response was right |
| `OneShot.PendingWasLeft` | pegasus/src/Executor/LocalAuth.c:116-268 | over every run and for all answers a file that is there now was there before the run or was left by a challenge step, and nothing has used it since, by whatever path |
| `OneShot.AcceptedExactly` | pegasus/src/Executor/LocalAuth.c:178-268 | over every run, for all answers and whatever paths stand for: an authentication succeeds exactly when its reads work and the file of its path was given this token by an earlier challenge, or held it before the run, and nothing has used the file since |
| `OneShot.LeftTokenMatches` | pegasus/src/Executor/LocalAuth.c:116-211 | after a challenge on a file it holds a response exactly when that is the token of that challenge and the challenge left it whole |
| `OneShot.IssuedExactly` | pegasus/src/Executor/LocalAuth.c:116-165 | a challenge is answered with path and token exactly when it leaves the token in the path's file and its last call worked; so one that is refused can leave a token too |
| `OneShot.AcceptedWasIssued` | pegasus/src/Executor/LocalAuth.c:178-268 | when cleanups work, the challenge that is answered is one that was issued with some path of the file |
| `OneShot.SuccessesConsumeDistinctChallenges` | pegasus/src/Executor/LocalAuth.c:255-268 | of two successes on one file, by the same path or not, the second answers a challenge made after the first, if the first could remove the file; no other unlink is assumed to work |
| `OneShot.ReplayExactly` | pegasus/src/Executor/LocalAuth.c:255-268 | with nothing on the file in between, however far apart and by whatever paths, an accepted response is accepted again exactly when the first authentication could not remove the file |
| `OneShot.ChallengesHaveOwnNumbers` | pegasus/src/Executor/LocalAuth.c:69-81 | fewer than 2^32 challenges have different numbers |
| `OneShot.ChallengesHaveOwnPaths` | pegasus/src/Executor/LocalAuth.c:65-92 | so they have different paths, while numbers fit the buffer |
| `OneShot.ChallengesHaveOwnFiles` | pegasus/src/Executor/LocalAuth.c:65-92 | and different files, where the system tells apart the entries of the challenge directory and user names have no slash |
| `OneShot.ChallengeDestroysNothing` | pegasus/src/Executor/LocalAuth.c:116-165 | and none meets or changes the pending file of another |
| `Service.PipeOnStdioIsLost` | pegasus/src/Executor/Parent.c:480-492 | a launcher pipe on 0, 1 or 2 is never told when terminal I/O is redirected |
| `Service.PipeElsewhereReaches` | pegasus/src/Executor/Parent.c:480-492 | any other one is, and these are all the cases |
| `Service.TellsMeaning` | pegasus/src/Executor/Parent.c:480-492 | the byte reaches the launcher exactly when the write works, the number is the write end of a pipe, and no redirection replaces it |
| `Service.FieldReads` | pegasus/src/Executor/Messages.h:107-258 | a char member reads as the characters up to its first zero byte |
| `Service.PaddedReads` | pegasus/src/Executor/Parent.c:781-789 | a text copied into a zeroed member is read from it, cut to the member |
| `Service.DescriptorsConservedExactly` | pegasus/src/Executor/Parent.c:472-497 | over any number of requests, with /dev/null opening: the open numbers are the old ones, less the pipe once daemonized, exactly when the executor is verbose, or nothing daemonizes, or one request does with 0, 1 and 2 open or the pipe, or several do with 0, 1 and 2 open and the pipe elsewhere; every number refers to what it did, but for 0, 1 and 2 on /dev/null after a redirection |
| `Service.ReplyIsGood` | pegasus/src/Executor/Parent.c:129-865 | every request has one complete response of its own size, whose first four bytes, read as a signed number, are its status, or the magic number for a ping; a descriptor message follows exactly for status 0 of the two kinds that have one and a working sendmsg |
| `Service.RepliesAreGood` | pegasus/src/Executor/Parent.c:914-987 | a run has one good exchange for each request, in order |
| `Service.DescriptorsAfter` | pegasus/src/Executor/Parent.c:472-497 | the open numbers after any number of requests depend only on how many of them daemonize |
| `Service.ToldExactly` | pegasus/src/Executor/Parent.c:485-492 | over any number of requests the launcher is told at most once, and exactly when the write of the first daemonize request works and the pipe survives the redirection; every later one finds no pipe |
| `Service.BytesOfReplies` | pegasus/src/Executor/Parent.c:914-987 | how many bytes the replies to a list of requests have |
| `Parent.Executor.ReadExecutorRequest` | pegasus/src/Executor/Parent.c:92-101 | takes exactly the next body off the stream, moving a byte for each readiness used; or is fatal, on a sound schedule only at a short stream; or is still waiting with the schedule used up |
| `Parent.Executor.WriteExecutorResponse` | pegasus/src/Executor/Parent.c:111-120 | sends the whole response, moving a byte for each readiness used, or is fatal, never on a sound schedule |
| `Parent.Executor.HandlePingRequest` | pegasus/src/Executor/Parent.c:129-139 | refines the service on pings: the magic number |
| `Parent.Executor.OpenAsAsked` | pegasus/src/Executor/Parent.c:168-233 | status 0 exactly when policy and system allow, with one new descriptor on the file; on every failure no descriptor and the files as they must be |
| `Parent.Executor.HandleOpenFileRequest` | pegasus/src/Executor/Parent.c:151-254 | refines the service on opens and leaves the descriptor table as it was |
| `Parent.Executor.ForkAgent` | pegasus/src/Executor/Parent.c:330-440 | on success two pipe ends are left to pass on; after every failed pipe or fork, no new descriptor |
| `Parent.Executor.PrepareAgent` | pegasus/src/Executor/Parent.c:363-389 | the child's table is exactly the redirected one, if a pipe is there and the executor is not verbose, without the numbers swept; no assumption on limit or numbers |
| `Parent.Executor.RunAsAgent` | pegasus/src/Executor/Parent.c:330-389 | for any limit: from 3 to the limit an agent inherits its own two pipe ends and nothing else, from the limit on whatever was open; its ends are the reading and the writing one of two new pipes unless they lie on 0, 1 or 2 |
| `Parent.Executor.StartAgent` | pegasus/src/Executor/Parent.c:284-445 | starts an agent exactly for a known bitness and user with all calls working, and is fatal only when the program macro is missing |
| `Parent.Executor.HandleStartProviderAgentRequest` | pegasus/src/Executor/Parent.c:264-462 | refines the service on agent starts, passes the right pipe ends in order, and leaves the descriptor table as it was |
| `Parent.Executor.TellLauncher` | pegasus/src/Executor/Parent.c:485-492 | the byte goes out when the number is still the pipe's, and the number is closed |
| `Parent.Executor.HandleDaemonizeExecutorRequest` | pegasus/src/Executor/Parent.c:472-497 | refines the service on daemonizing, and the launcher is told exactly when the write works and the pipe survives the redirection |
| `Parent.Executor.HandleRenameFileRequest` | pegasus/src/Executor/Parent.c:507-550 | refines the service on renames |
| `Parent.Executor.HandleRemoveFileRequest` | pegasus/src/Executor/Parent.c:560-601 | refines the service on removals |
| `Parent.Executor.HandleAuthenticatePasswordRequest` | pegasus/src/Executor/Parent.c:611-695 | refines the service on passwords, the branch without PAM: user database, then the macro, then the password file with this user and password |
| `Parent.Executor.HandleValidateUserRequest` | pegasus/src/Executor/Parent.c:705-757 | refines the service on user validation, the branch without PAM: the macro, then the password file with this user and no password |
| `Parent.Executor.HandleChallengeLocalRequest` | pegasus/src/Executor/Parent.c:767-793 | refines the service on challenges: status 0 goes with the path in the reply |
| `Parent.Executor.HandleAuthenticateLocalRequest` | pegasus/src/Executor/Parent.c:803-826 | refines the service on authentications |
| `Parent.Executor.HandleUpdateLogLevelRequest` | pegasus/src/Executor/Parent.c:836-865 | refines the service on log levels |
| `Parent.Executor.Dispatch` | pegasus/src/Executor/Parent.c:937-985 | every kind of request goes to its handler, and the exchange and the new state are the service's |
| `Parent.Executor.ReadHeader` | pegasus/src/Executor/Parent.c:917-935 | takes the next code off the stream, or ends cleanly exactly at an empty stream, or names the defect that stands there |
| `Parent.Executor.ServeOne` | pegasus/src/Executor/Parent.c:914-987 | one turn serves the request at the front of the stream and moves a byte for each readiness used, or ends for the defect that stands there, or waits with the schedule used up |
| `Parent.Executor.TurnDone` | pegasus/src/Executor/Parent.c:914-987 | a turn extends the run by one request on stream, wire and state together |
| `Parent.Executor.Loop` | pegasus/src/Executor/Parent.c:914-987 | at its top, always: whole requests read, exactly their replies sent, state as the service leaves it, and no readiness used without a byte moved |
| `Parent.Executor.Parent` | pegasus/src/Executor/Parent.c:877-992 | for all fragments and answers the replies are the service's to a prefix of the requests in the stream; a clean end means all of them and a message boundary; it still waits only when there was no more readiness than bytes of stream and replies; so on an orderly schedule every request that can be served is, and the end is the one the stream decides; descriptors are conserved exactly under the stated condition, and the launcher is told as the service says |
| `Parent.Executor.ServeList` | pegasus/src/Executor/Parent.c:914-987 | every list of encoded requests that can be served, cut into arbitrary fragments, is consumed whole and answered one by one in order, and the loop then ends cleanly |
| `Parent.Executor.WhatWasRead` | pegasus/src/Executor/Parent.c:914-987 | requests consumed are the first ones of the stream, and the next is what the rest shows |
| `Sessions.ServiceRunsSteps` | pegasus/src/Executor/Parent.c:767-826 | the executor's files and counter move as the authentication protocol says over every run, opens and renames that change files included |
| `Sessions.PrivateExactly` | pegasus/src/Executor/Policy.c:79-202 | with plain macro values a file is out of reach of every open to write and every rename exactly when no path that the policy's rows for them name stands for it, for any meaning of paths |
| `Sessions.PrivateIsNotReached` | pegasus/src/Executor/Parent.c:151-550 | no run reaches such a file, whatever its requests |
| `Sessions.UnreachedIsUndisturbed` | pegasus/src/Executor/Parent.c:151-550 | when no allowed open to write and no allowed rename of a run uses a path of the file, only challenges, authentications and removals change it |
| `Sessions.AuthenticatedExactly` | pegasus/src/Executor/Parent.c:803-826 | over every run in which no open to write and no rename reaches the file, and for all answers: the number in the reply to an authentication is 0, and otherwise -1, exactly when its reads work and an earlier challenge left this token in the file, or it was there before, and the file was not used since, by whatever path |
| `Sessions.LeftWasAnswered` | pegasus/src/Executor/Parent.c:767-793 | a challenge left its token in a file, with its fchown working, exactly when the bytes of its reply say 0 and carry a path of that file |
| `Sessions.ChallengeReply` | pegasus/src/Executor/Parent.c:767-793 | the reply to a challenge says 0 exactly when it was issued, and then its bytes behind the status read as the path that was built |
| `Sessions.ChallengeIsAnswered` | pegasus/src/Executor/Parent.c:767-826 | end to end: an authentication made of the path bytes of such a reply and of what is then in the file is answered with 0, if nothing uses the file in between and its reads work |
| `Sessions.RepliesConsumeDistinctChallenges` | pegasus/src/Executor/Parent.c:803-826 | of two replies that say 0 for one file the later answers a challenge made after the first, if the first could remove the file |
| `Sessions.RepeatedExactly` | pegasus/src/Executor/Parent.c:803-826 | with nothing on the file in between the same response gets a second reply that says 0 exactly when the first could not remove the file |
| `Answering.PingExactly` | pegasus/src/Executor/Parent.c:129-139 | over every run a ping is answered with the four bytes of the magic number |
| `Answering.PasswordExactly` | pegasus/src/Executor/Parent.c:611-695 | over every run the reply to a password request says 0 exactly when the user is known, the password file is named and it vouches for this user with this password, and -1 otherwise |
| `Answering.ValidationExactly` | pegasus/src/Executor/Parent.c:705-757 | over every run the reply to a user validation says 0 exactly when the password file is named and vouches for the user without a password |
| `Answering.LogLevelExactly` | pegasus/src/Executor/Parent.c:836-865 | over every run the reply says 0 exactly when the level is taken |
| `Answering.DaemonizeExactly` | pegasus/src/Executor/Parent.c:472-497 | over every run the reply to a daemonize request says 0 |
| `Answering.OnlyTheSystemDecides` | pegasus/src/Executor/Parent.c:129-139 | for these five kinds the reply does not depend on the state or on what was served before, and nothing is passed |
| `Answering.RemovalExactly` | pegasus/src/Executor/Parent.c:560-601 | over every run a removal says 0 exactly when a row of the policy has the path, the file is there and the unlink works, and then and only then the file goes |
| `Answering.RenameExactly` | pegasus/src/Executor/Parent.c:507-550 | over every run a rename says 0 exactly when a row has both paths, the first file is there and the system renames it; then the second has its content and no third one changes |
| `Answering.OpenExactly` | pegasus/src/Executor/Parent.c:151-254 | over every run an open says 0 exactly when a row has path and mode and the file opens, or is missing, is to be written and can be created with its permissions; a descriptor on the file goes along exactly then, if sendmsg works |
| `Answering.OpenLeaves` | pegasus/src/Executor/Parent.c:168-233 | opening to read changes no file; opening to write leaves this one empty, be it there or created, and no other changed |
| `Answering.AgentExactly` | pegasus/src/Executor/Parent.c:264-462 | over every run an agent is started exactly for bitness 1 or 2 and a known user with all calls working; then the reply has its number, and the message the other ends of the pipes that the agent writes and reads, in this order |
| `Answering.RefusedExactly` | pegasus/src/Executor/Parent.c:293-310 | only an agent request whose program is not named ends the loop for what it asks |
| `Answering.ChallengeExactly` | pegasus/src/Executor/LocalAuth.c:116-242 | over every run a challenge says 0 exactly when the user is known, an old file in the way goes, and the new one is created, written whole and given to the user; then the reply has its path |
| `Clients.NameIsRead` | pegasus/src/Executor/Messages.h:127-239 | in requests with one name the executor reads the name that was filled in |
| `Clients.NamesAreRead` | pegasus/src/Executor/Messages.h:145-258 | in requests with two names it reads the first and the second |
| `Clients.OpenIsRead` | pegasus/src/Executor/Messages.h:107-112 | in an open request it reads path and mode |
| `Clients.AgentIsRead` | pegasus/src/Executor/Messages.h:164-169 | in an agent request it reads kind of module and user |
| `Clients.EncodedSizes` | pegasus/src/Executor/Messages.h:79-258 | how many bytes each kind of request has |
| `Clients.ReplySizes` | pegasus/src/Executor/Messages.h:92-263 | how many bytes each kind of reply has |
| `Confinement.ChangedByRequest` | pegasus/src/Executor/Parent.c:151-865 | over every run, a file that is not what it was has been met by a request that may change it: an open to write, rename or removal that the policy allows by one of its paths, a challenge that builds such a path, or an authentication |
| `Confinement.ChangesAreNamed` | pegasus/src/Executor/Policy.c:79-202 | so with plain macro values a run changes only files of which a row of the policy names a path, files of its own challenges, and files that its authentications name |
| `Confinement.PassedIsAllowed` | pegasus/src/Executor/Parent.c:151-254 | over every run, a descriptor on a file is passed only for an open request, to write by a path of the rows for that or to read by the path of the key file |
| `Confinement.AuthenticationIsUnchecked` | pegasus/src/Executor/LocalAuth.c:255-268 | whatever the policy, an authentication removes the file of its path when the unlink works |
| `Confinement.StoreConfinesExactly` | pegasus/src/Executor/Policy.c:236-262 | every path behind a store's directory may be opened to write, and read by its words it stays in the directory exactly when its rest does not climb, or comes down again through the same directories |
| `Confinement.NothingIsPrivate` | pegasus/src/Executor/Policy.c:79-202 | so with a store defined no proper name is out of reach of every open request |
| `Confinement.LevelRunIsConfined` | pegasus/src/Executor/Policy.c:79-202 | on a run whose opens do not climb no request reaches a file but the three with their backups and what is in the two stores |
| `Confinement.LexicalTellsApart` | pegasus/src/Executor/LocalAuth.c:65-92 | read by words, different entries of the challenge directory are different files |
| `Names.WalkIsNet` | pegasus/src/Executor/Policy.c:236-262 | a walk through the words of a path ends where its net ups and downs lead |
| `Names.AnyNameBehind` | pegasus/src/Executor/Policy.c:236-262 | every proper name is what some path behind a given directory stands for |
| `Paths.EditIsPosix` | pegasus/src/Executor/Path.c:59-101 | the two in-place edits compute the steps of the dirname utility of POSIX.1-2017, XCU, with a leading pair of slashes reduced to one |
| `Paths.DirnameShortens` | pegasus/src/Executor/Path.c:59-101 | the result is a fixed point or shorter than the input |
| `Paths.IterationEnds` | pegasus/src/Executor/Path.c:59-101 | iterating it reaches the root or the dot and stays there |
| `Paths.TrimSlashes` | pegasus/src/Executor/Path.c:81-98 | the backward loop stays in the buffer and stops at the last character that is no slash, or at the first |
| `Paths.RemoveTrailing` | pegasus/src/Executor/Path.c:79-85 | trailing slashes go |
| `Paths.RemoveComponent` | pegasus/src/Executor/Path.c:87-100 | the last component goes, with the slashes before it |
| `Paths.DirName` | pegasus/src/Executor/Path.c:59-101 | the buffer holds the dirname of the input, cut to the buffer |
| `Handshake.LauncherWait` | pegasus/src/Executor/main.c:448-483 | exit code by the first answer that is no interruption: 0 on a time-out, else the byte, else 1 |
| `Handshake.FirstAnswerIs` | pegasus/src/Executor/main.c:455-471 | the wait ends with the answer behind the interruptions |
| `Handshake.ForkParentWait` | pegasus/src/Service/ServerProcessUnix.cpp:119-144 | the waiting parent returns 1 exactly when a termination signal is the first to come in time |
| `Handshake.StepKeepsInv` | pegasus/src/Executor/main.c:417-483 | every step of launcher, daemon, executor and server keeps what ties pipe, holders and exit code together |
| `Handshake.LauncherCodeMeaning` | pegasus/src/Executor/main.c:448-483 | in every run exit code 0 means a time-out or a handled daemonize request, and without either the code is 1 |
| `Handshake.AllClosedGivesOne` | pegasus/src/Executor/main.c:473-483 | once all write ends are closed with the pipe empty, no run ends in anything but 1 |
| `Handshake.FailureSurfaces` | pegasus/src/Service/ServerProcessUnix.cpp:159-177 | a reported failure, a dead server or a fatal executor before daemonizing shows as 1, or the wait timed out |
| `Handshake.RunLowersRank` | pegasus/src/Executor/main.c:417-483 | every run has at most as many steps of processes other than the launcher as the rank of its first state |
| `Handshake.SomeoneGoesOn` | pegasus/src/Executor/Parent.c:914-987 | while a failed start keeps a write end open, provider agents before their exec included, some process other than the launcher can go on |
| `Handshake.FailureReachesTheLauncher` | pegasus/src/Executor/main.c:448-483 | from a failed start every run has boundedly many steps of the other processes, and in a state where none of them can go on all write ends are closed, so that the launcher has timed out or leaves with 1 and cannot time out any more |
| `Handshake.LateInterruptionGivesOne` | pegasus/src/Executor/main.c:461-483 | the run in which a failing select gives 1 while the start goes on |
| `Handshake.CodeOneExactly` | pegasus/src/Executor/main.c:448-483 | in every run the launcher has left with 1 exactly when, before any time-out, it found the pipe empty because its select failed or all write ends were closed |
| `Launching.AllMovesAgree` | pegasus/src/Executor/Parent.c:472-497 | over every interleaving of requests served with steps of the other processes, the executor holds the pipe until it has daemonized and the pipe holds what it wrote |
| `Launching.LauncherIsTold` | pegasus/src/Executor/main.c:461-483 | over every such interleaving a waiting launcher would leave with a byte and 0 exactly when the first daemonize request served has reached it, and one that has left by a byte was told |
| `SingleInstance.PidFile.SetPid` | pegasus/src/Service/PidFile.cpp:72-85 | the file holds the number, or nothing when it cannot be written |
| `SingleInstance.ServerRunStatus.IsServerRunning` | pegasus/src/Service/ServerRunStatus.cpp:167-180 | says running exactly for a number in the file that is neither its own nor its parent's and belongs to a live server process; never when there is no other such process |
| `SingleInstance.ServerRunStatus.SetServerRunning` | pegasus/src/Service/ServerRunStatus.cpp:182-187 | the process declares itself and the file holds its own number, or nothing when it cannot be written |
| `SingleInstance.ServerRunStatus.StartUp` | pegasus/src/Server/cimserver.cpp:937-1029 | the number from before the fork is recorded, and a process declares itself exactly when the file names no other running server; always when there is none |
| `SingleInstance.ServerRunStatus.SetServerNotRunning` | pegasus/src/Service/ServerRunStatus.cpp:157-165 | only a declared instance removes the file |
| `SingleInstance.ServerRunStatus.Kill` | pegasus/src/Service/ServerRunStatus.cpp:194-220 | kills exactly the running server of the file, never a process that is no server, and the file is gone |
| `SingleInstance.StopsExactly` | pegasus/src/Service/ServerRunStatus.cpp:167-180 | the check stops a process exactly when another live process has the server's name and the number in the file, and is not the recorded parent |
| `SingleInstance.AlonePasses` | pegasus/src/Server/cimserver.cpp:995-1012 | with no other live server process every check passes, whatever stale number the file holds |
| `SingleInstance.KillTakesExactly` | pegasus/src/Service/ServerRunStatus.cpp:194-220 | a kill takes away exactly the process with the server's name and the number in the file, if it is not the one that kills |
| `SingleInstance.StepKeepsInv` | pegasus/src/Server/cimserver.cpp:983-1029 | starting, running, dying, stopping and killing, by a process of any name, keep: every declared instance owns the number in the file |
| `SingleInstance.AtMostOneInstance` | pegasus/src/Service/ServerRunStatus.cpp:157-220 | over all interleavings with reuse of numbers, in which start-ups meet that exact guard, there is at most one instance and the file has its number |
| `SingleInstance.GuardIsExact` | pegasus/src/Service/ServerRunStatus.cpp:167-180 | a start-up that passes the check leaves every instance with its number in the file exactly when the file can be written and the recorded parent number is not that of another running instance |
| `SingleInstance.PrivilegeSeparationIsProper` | pegasus/src/Server/cimserver.cpp:983-1029 | without a fork before the check the guard always holds |
| `SingleInstance.AtMostOneWithPrivilegeSeparation` | pegasus/src/Server/cimserver.cpp:983-1029 | so there is at most one instance, with cimshutdown as the killer (pegasus/src/Shutdown/cimshutdown.cpp:47-82), unconditionally but for a writable file |
| `SingleInstance.ReusedParentNumber` | pegasus/src/Service/ServerRunStatus.cpp:176-179 | the run that ends with two instances |
| `SingleInstance.UnwritableFile` | pegasus/src/Service/PidFile.cpp:72-85 | the run that ends with two instances because the first could not write its file |
| `Argv.Child` | pegasus/src/Executor/Child.c:70-84 | the new vector is program name, option, socket and the original arguments with their terminator |
| `Argv.ExtractExecutorSockOpt` | pegasus/src/Server/cimserver.cpp:368-435 | takes the first option and its argument out in place, terminator included, or reports exactly the defect |
| `Argv.RemovePair` | pegasus/src/Server/cimserver.cpp:416-419 | the move closes the gap and brings the terminator along |
| `Argv.ArgvRoundTrip` | pegasus/src/Executor/Child.c:74-84 | the server gets back the socket, the count and the arguments, even when they contain the option |
| `Argv.PassSocket` | pegasus/src/Executor/Child.c:56-84 | the two methods composed on arrays do so |
| `Argv.NegativeSocketIsRefused` | pegasus/src/Server/cimserver.cpp:395-412 | a negative number is written so that the server refuses it |
| `Argv.StrtoulReads` | pegasus/src/Server/cimserver.cpp:395-412 | behind whitespace and a sign or none a numeral is read to its end, clamped to the largest value and taken modulo 2^64 behind a minus |
| `Argv.DigitlessIsZeroExactly` | pegasus/src/Server/cimserver.cpp:395-412 | for every vector whose option argument has no digit, the server takes socket 0 if the argument is empty and refuses it otherwise |
| `Folding.Tokenize` | pegasus/src/Clients/cimcli/CIMCLICommon.cpp:311-348 | the tokens joined give the input; none contains the separator, or there are at most two, split at the first |
| `Folding.SplittingIsUnique` | pegasus/src/Clients/cimcli/CIMCLICommon.cpp:311-348 | there is only one such splitting |
| `Folding.Fill` | pegasus/src/Clients/cimcli/CIMCLICommon.cpp:500-508 | as many blanks as asked for |
| `Folding.Overflow` | pegasus/src/Clients/cimcli/CIMCLICommon.cpp:523-530 | a new line is begun exactly when the word would make this one foldPos characters long or longer |
| `Folding.FoldString` | pegasus/src/Clients/cimcli/CIMCLICommon.cpp:511-580 | the output is the folding of the input: cut at every blank and newline, a new line with the indentation at each newline and before exactly the pieces with which the line would have foldPos characters or more, a last line only if it is not as long as the indentation; hence the visible characters are kept but for exactly the dropped case, every line is short or the indentation with one word, every later line is indented, and a short text is unchanged |
| `Folding.FoldingIsUnique` | pegasus/src/Clients/cimcli/CIMCLICommon.cpp:511-580 | a text has one folding, so this says where every break is |
| `Folding.UnfoldedIsSource` | pegasus/src/Clients/cimcli/CIMCLICommon.cpp:511-580 | undoing the folds and no other breaks gives the input back with its blanks and newlines |
| `Folding.FoldingKeeps` | pegasus/src/Clients/cimcli/CIMCLICommon.cpp:511-580 | what every folding keeps of visible text and lines |
| `Folding.CutIsUnique` | pegasus/src/Clients/cimcli/CIMCLICommon.cpp:511-580 | there is one way to cut a text at every blank and newline |
| `JsonText.NumberEndAppend` | pegasus/www/js/json2.js:255-259 | a number of RFC 8259 section 6 is read to its end whenever what follows cannot continue it |
| `JsonText.NumberEndIsNumber` | pegasus/www/js/json2.js:255-259 | what is read as a number is one |
| `Json.Hex4Digits` | pegasus/www/js/json2.js:220-223 | padding and cutting the hexadecimal form leaves its four digits |
| `Json.QuoteEscapes` | pegasus/www/js/json2.js:211-225 | quoting without a test for offending characters gives the same text |
| `Json.EscapeForms` | pegasus/www/js/json2.js:196-225 | a character stays, has one of the seven short escapes, or four lower-case digits |
| `Json.EscapeHasNoControls` | pegasus/www/js/json2.js:196-225 | no quoted text has control characters in it |
| `Json.Printer.Str` | pegasus/www/js/json2.js:228-354 | prints the value at the current indentation, and gap is as before the call |
| `Json.Printer.StrItems` | pegasus/www/js/json2.js:299-302 | one text for each item, gap kept |
| `Json.Printer.StrMembers` | pegasus/www/js/json2.js:333-340 | one text for each member in order, gap kept |
| `Json.Printer.Stringify` | pegasus/www/js/json2.js:359-399 | prints the value from an empty gap with the indentation that the space argument asks for |
| `JsonTokens.TokensSpellPrinted` | pegasus/www/js/json2.js:228-354 | the printed text is the spelling of the value's tokens in either layout |
| `JsonLayout.CompactExactly` | pegasus/www/js/json2.js:228-354 | without an indentation the text is the tokens and no whitespace |
| `JsonLayout.IndentedExactly` | pegasus/www/js/json2.js:272-352 | with one it is the compact text laid out by counting brackets: every line as deep as the brackets that are open, commas at line ends, a blank behind colons |
| `JsonReading.ReadsEscape` | pegasus/www/js/json2.js:196-225 | every escape that quote writes stands for the character it replaced |
| `JsonReading.ReadsQuoted` | pegasus/www/js/json2.js:211-225 | a quoted text is a string of RFC 8259 section 7 that denotes it |
| `JsonReading.ReadsValue` | pegasus/www/js/json2.js:228-354 | the grammar reads exactly the value's part of a text that goes on |
| `JsonReading.PrintedReadsBack` | pegasus/www/js/json2.js:228-354 | for every whitespace indentation the printed text reads back as the value exactly when it has no NaN and no infinity |
| `JsonCheck.SimplifiedIsShape` | pegasus/www/js/json2.js:462-463 | the first two replacements see exactly the tokens of the grammar |
| `JsonCheck.StrippedLeavesRemnants` | pegasus/www/js/json2.js:464-464 | deleting runs of open brackets leaves none where each was due |
| `JsonCheck.EveryJsonTextIsAccepted` | pegasus/www/js/json2.js:461-464 | the four-regexp check lets every JSON text of RFC 8259 through |
| `JsonSafety.AcceptedIsHarmless` | pegasus/www/js/json2.js:449-464 | whatever the text, an accepted one can be cut into strings, the three literals, numbers, brackets, braces, colons, commas and whitespace, so that nothing outside a string can call or assign |
| `JsonSafety.NotOnlyJsonIsAccepted` | pegasus/www/js/json2.js:461-464 | the check accepts a text that is no JSON text |
| `JsonParse.EveryJsonTextIsParsed` | pegasus/www/js/json2.js:439-464 | for every JSON text the escaped text passes the check and means the same value |
| `JsonParse.ArmouredHasNoCx` | pegasus/www/js/json2.js:439-446 | after the first stage no character is left that upsets JavaScript |
| `JsonParse.Prepare` | pegasus/www/js/json2.js:439-483 | what is handed to evaluation, that it is harmless and free of characters that upset JavaScript, and that a JSON text always is handed over, with its meaning kept |
| `JsonParse.RoundTrip` | pegasus/www/js/json2.js:211-464 | what stringify prints of a finite value the escaping stage leaves alone, the check accepts, and the grammar reads back as that value |

## Left out

- PAM and the password file (`PAMAuth.h`, `PasswordFile.c`): their verdict is an answer of the system.
- `SetLogLevel`, `GetUserInfo`, `syslog` and all other system calls: answers of the system, or nothing.
- Service.Answers: `fork` as seen by the child is modelled by `RunAsAgent` up to the descriptors; `exec` of the agent is not.
- Service.Field: a character array without a terminator is read up to its end; the original relies on the peer.
- `Config.c`, `Options.c`, `GetHomedPath` and `DefineConfigPathMacro`: macro values are given.
- Sessions.AuthenticatedExactly: says nothing of a file that an open request of the run reaches, since its peer can then write anything to it.
- Handshake.FailureReachesTheLauncher: that a process which can go on does so is not modelled; it bounds the steps and says what holds when none can.
- Launching.LauncherIsTold: covers the time in which the executor serves; its own end is in `Handshake`.
- SingleInstance.AtMostOneInstance: the start-up lock is a mutex, `kill` is one step, removing the PID file works; removal of the lock file is not modelled.
- Kernels.Kernel.Open: file contents and names only; owners and permissions are not modelled, nor a link as the last component, where `unlink` and `open` differ, nor renames that move a directory on the way.
- JsonCheck.Accepted: evaluation itself (`eval`) is replaced by the grammar's reading.
- Json.Printer.Str: objects are sequences of members, so `toJSON`, replacers, functions and `undefined` do not occur; the reviver of `parse` is not modelled.
- JsonParse.RoundTrip: indentations that are not whitespace are not JSON and are excluded.
- Windows, VMS and z/OS code, command-line parsing, logging and usage texts: thin or not part of these protocols.
