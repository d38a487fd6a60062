# Verified model of the RDS / SSDS client and server core

RDS (earlier SSDS) lets a client hand dependency solving to a server. The client keeps backups of two
local files, `@System.solv` and `yum.conf`, sends a file again only when it differs from its backup,
and then asks the server to solve for a list of packages and repositories. This project models five
connected pieces of that program in Dafny and proves what they keep over every input and every run.

| files | what they model |
|---|---|
| `RegistrySpec.dfy`, `Registry.dfy` | the resource registry: a doubly linked list of heap nodes, its two counters and its cleanup, refined to a sequence of entries |
| `Receive.dfy`, `Transfer.dfy` | the chunked receive with its growing buffer, the server's store loop, the client's send loop, and both on one byte stream that may be cut anywhere |
| `LocalFiles.dfy`, `Session.dfy` | comparing and copying files; the client's main program and the server's request loop as one system of steps over any number of runs |
| `CfgSpec.dfy`, `CfgReader.dfy`, `CfgLines.dfy`, `CfgWriter.dfy`, `CfgRoundTrip.dfy` | the configuration scanner, its meaning in terms of lines, the writer, and what the scanner finds in the file the writer produces |
| `JsonTree.dfy`, `JsonBuilder.dfy`, `JsonReader.dfy` | the cursor-driven builder of message trees and the readers that recover what was put in |

`Stdio.dfy` holds the file abstraction. In `dfyconfig.toml` the whole project is one Dafny project.

## How the source is read

- Answers of the operating system (the results of `malloc`, `realloc`, `socket`, `accept` and of every
  read) are parameters, so each theorem holds for all of them.
- A C `char` is signed, so byte 0xFF is taken for the end of a file by the comparing loop, the scanner and
  the writer's copying loop. The model keeps that (`Stdio.EOF`); theorems that need files without that
  byte say so.
- `ssds_gc_search` compares the union without looking at the tag of the node. A socket only writes the low
  half of the union; the unwritten half is a parameter. `NoCollision` names a condition under which this
  is harmless, `ReleaseExact`, `TrackingIff` and `TrackingIffClear` say exactly when one release and a whole run are, and
  `CollisionLosesPointer` is a run that goes wrong.
- The comment in `src/common/mem_management.h` says that the search answers 1 or 0; the code returns the
  node, and so does the model. `protocol.txt` speaks of an `update` array; the code calls it `upgrade`, and
  so does the model.
- `compare` keeps reading after a mismatch, and a blank line makes the scanner ignore the next one.
  `ScannedIsBlindFold` states this for every file without byte 0xFF, `ScannedIsFold` for the files whose
  lines are long enough, and `ShortLineHidesNext` shows a file that is not of that kind. The writer scans
  differently: behind `name=` it believes itself at the start of a line (`TargetIsBlindFold`).
- The count of an array comes from a search through the whole message, its elements from the member at the
  top. The model keeps both and proves that they agree on the messages the program builds.

## Results that are negative

Some promises do not hold of the code on all inputs. Each has its exact condition and an input or a run that
shows it fail.

- A transfer can hang exactly for an empty file and for one of at least 2000 bytes (`HangIff`), and can succeed
  exactly for one that is not empty (`CanFinishIff`). A run of the client can therefore leave client and
  server waiting for each other exactly when one of the files it has to send is empty or has at least 2000
  bytes (`CanStickIff`), and while it has not ended that is the only way for it to stop (`StuckIff`).
- A receive call that a failed read ends loses a byte, after which the server never leaves its loop by the
  equality test (`LostByteSpins`).
- A client that leaves during a transfer keeps the server in its loop for ever exactly when part of the file
  was not sent (`ClosedConnection`, `ClientGone`). In particular a transfer that hangs ends well as soon as
  the client gives up.
- The server leaves its loop exactly after runs that end with an answer and after runs in which it rejected a
  file (`ServerLeavesIff`); after any other run it has to be started again.
- In a well-formed file a written setting is read back exactly when `ReadsBack` holds of it (`WriteThenRead`): the position
  the writer aims at is that of the setting in force, or that setting already means the same and stays; for
  a key that is not found, the file ends in an empty line that is looked at, or the other key of the same
  slot already gives the value and is not touched. `EmptyValueMisleadsWriter` and `NestedKeyGrows` are files
  for which it fails.
- Under a GET request the server's copy agrees with the client's file exactly when the file was sent in this
  run, or its last transfer was followed by a whole backup copy, or what that transfer left agrees
  (`GetAgreesIff`; `GetEqualsIff` and `FaultlessEqualsIff` for the bytes). `FailedBackupGoesStale`,
  `ShortBackupGoesStale`, `BadTransferGoesStale` and `ByteFFHidesChange` are runs for which it fails.
- The registry tracks what is held throughout a run exactly when every release and move meets a node of the
  right kind first (`TrackingIff`), that is when nothing of the other kind with the same word was acquired
  later and is still held (`TrackingIffClear`, told by the calls alone; `CollisionLosesPointer` for a run that
  does not).

## Model

| member | source | states |
|---|---|---|
| `RegistrySpec.FirstMatch` | src/common/mem_management.c:67-90 | the search stops at the first entry that agrees in the union member selected by the type asked for, whatever tag the entry carries; the length of the list if none does |
| `RegistrySpec.MatchesMeans` | src/common/mem_management.c:67-90 | a block is found by its whole word; a descriptor by any word that differs from it by a multiple of 4294967296, whatever the tag |
| `RegistrySpec.AccountingFrom` | src/common/mem_management.c:172-281 | from any state, after any calls: `num_items` minus the list length grows by failed acquisitions less missed releases less adopted moves |
| `RegistrySpec.Accounting` | src/common/mem_management.c:172-281 | since init, `num_items` is the list length plus failed acquisitions, minus releases that find nothing, minus moved reallocs of untracked blocks |
| `RegistrySpec.TotalIsRequested` | src/common/mem_management.c:200-243 | `allocated` is the sum of everything ever requested; no failure and no release lowers it |
| `RegistrySpec.ReleaseExact` | src/common/mem_management.c:67-117 | releasing a held resource removes that very resource if and only if the first entry the blind search accepts has the kind asked for |
| `RegistrySpec.TracksStepIff` | src/common/mem_management.c:67-281 | one lawful call, collisions allowed, keeps the list equal to the held resources if and only if its search meets a node of the right kind first |
| `RegistrySpec.TracksStep` | src/common/mem_management.c:119-281 | without collisions one lawful call keeps the list equal to the held resources, each once; a failed realloc keeps the old pointer, an unmoved one changes nothing, a moved one replaces it |
| `RegistrySpec.Tracking` | src/common/mem_management.c:67-281 | after any lawful sequence of calls in which no release or move is masked, the list holds each outstanding resource exactly once and nothing else |
| `RegistrySpec.TrackingIff` | src/common/mem_management.c:67-281 | over any lawful calls, collisions allowed, the list is what is held before and after each call if and only if every release and move meets the right kind first |
| `RegistrySpec.TrackingIffClear` | src/common/mem_management.c:67-281 | the same condition told by the calls alone: no resource is released or moved while one of the other kind with the same word, acquired later, is still held |
| `RegistrySpec.NoCollisionClear` | src/common/mem_management.c:67-90 | it holds where no held pointer ever ends in the four bytes of a held descriptor |
| `RegistrySpec.CollisionLosesPointer` | src/common/mem_management.c:67-90 | a lawful run, with an aligned block, where closing a descriptor drops the live block from the list and keeps the closed descriptor |
| `RegistrySpec.CleanupReleasesHeld` | src/common/mem_management.c:35-65 | cleanup after any lawful run without masked releases gives back every outstanding resource, each exactly once, and nothing else |
| `RegistrySpec.ReleasesInOrder` | src/common/mem_management.c:39-59 | without null blocks cleanup releases one resource for every entry, in list order |
| `RegistrySpec.EverythingGoesBackOnce` | src/common/mem_management.c:35-281 | conservation: over a lawful run without masked releases and its cleanup each resource goes back as often as it was handed out, less the addresses a move had vacated |
| `RegistrySpec.ExitGivesBack` | src/common/mem_management.c:125-131 | when there is no memory for a node, the cleanup before the exit gives back everything held, each once, except the resource just handed out |
| `Registry.Acyclic` | src/common/mem_management.h:45-51 | in a well-linked list no node is met twice |
| `Registry.BypassedDrop` | src/common/mem_management.c:97-114 | stepping over one node in both directions leaves a well-linked list of the others |
| `Registry.Gc.Init` | src/common/mem_management.c:246-255 | the registry is ready with an empty list and the counters stay; a second call forgets what the list held |
| `Registry.Gc.Search` | src/common/mem_management.c:67-90 | the walk along `next` returns the node of the first match, or null |
| `Registry.Gc.Bypass` | src/common/mem_management.c:97-114 | in each of the four cases exactly one node is stepped over, whatever its place, and every other link stays |
| `Registry.Gc.Remove` | src/common/mem_management.c:92-117 | the first match leaves the list, its node is freed once, everything else stays; nothing happens without a match |
| `Registry.Gc.Push` | src/common/mem_management.c:119-156 | with memory for the node: a new node in front of an unchanged, still well-linked list; without it: the registry is cleaned up and the program ends |
| `Registry.Gc.Malloc` | src/common/mem_management.c:217-229 | counters go up even on failure; the list grows only on success; the program ends when there is no memory for the node |
| `Registry.Gc.Calloc` | src/common/mem_management.c:231-243 | the same, for a product of sizes |
| `Registry.Gc.Realloc` | src/common/mem_management.c:200-215 | the three outcomes of the allocator on the linked list |
| `Registry.Gc.Free` | src/common/mem_management.c:172-177 | the counter goes down and the block is freed whether or not the list knew it |
| `Registry.Gc.OpenSocket` | src/common/mem_management.c:257-268 | tracked when the descriptor is not negative, otherwise -1 and only the counter changes |
| `Registry.Gc.Accept` | src/common/mem_management.c:270-281 | the same for an accepted connection |
| `Registry.Gc.Close` | src/common/mem_management.c:179-184 | the counter goes down and the descriptor is closed whether or not the list knew it |
| `Registry.Gc.PerformAll` | src/common/mem_management.c:67-281 | any sequence of calls on the linked list refines the same calls on the sequence of entries |
| `Registry.Gc.GiveBack` | src/common/mem_management.c:42-55 | a socket is closed, a block that is not null is freed |
| `Registry.Gc.Cleanup` | src/common/mem_management.c:35-65 | terminates; every resource is given back once in list order, every node is read while live and freed once; null header and zero counters at the end |
| `Registry.Lifetime` | src/common/mem_management.c:35-281 | init, any calls and cleanup on real nodes: the system sees exactly the releases of the calls followed by one per entry left |
| `Receive.GrowthTest` | src/common/network_util.c:50-51 | for every chunk size and every positive multiple of it as buffer step, the next chunk fits whether or not the test grew the buffer, and it grows exactly when full |
| `Receive.Socket.Read` | src/common/network_security.c:33-68 | at most the buffer's length is put at its front and counted; -1 leaves the buffer as it was |
| `Receive.NextChunk` | src/common/network_util.c:89-101 | one turn of the loop: the copy stays in bounds, and the buffer holds all chunks followed by zeros; with equal constants the size in steps is the chunk count |
| `Receive.Turn` | src/common/network_util.c:89-101 | a turn and its test: a full read keeps the gathering invariant, any other ends the loop with the total of all counts |
| `Receive.Drain` | src/common/network_util.c:79-101 | the loop ends at the first read that is not full, with all chunks gathered, zeros behind them and the sum of all counts |
| `Receive.ReceivedMeans` | src/common/network_util.c:36-108 | a receiver gets exactly the concatenation of the reads followed by at least one zero byte; the count is its length, or one less when the last read failed |
| `Receive.SockSolvRecv` | src/common/network_util.c:66-108 | ends exactly when some read is not full, taking the reads up to it, with that count and buffer; exactly after a failed first read the buffer handed back was freed |
| `Receive.RecvAsConfigured` | src/common/network_util.h:37-43 | with the constants of the source: reads of at most 2000 bytes, and a buffer of 2000 bytes for each read |
| `Receive.SockRecv` | src/common/network_util.c:23-64 | the same buffer; null exactly when the first read fails |
| `Transfer.OneReceive` | src/common/network_util.c:66-108 | one receive call stores the concatenation of its reads, less one byte when a failed read ends it, and leaves the loop exactly when the announced size is met |
| `Transfer.StoreOnce` | src/server/server.c:136-143 | one receive and one write append exactly what the call returned, and its length is the count; or the call never returns, hands back a freed buffer, or the disk takes only a part |
| `Transfer.StoreFile` | src/server/server.c:132-160 | the loop over a real socket and file, failing reads and writes included, does what the server automaton does on the reads it consumed; each of its endings says what the file holds |
| `Transfer.StoreOneRead` | src/server/server.c:134-156 | a file that arrives in one read of less than 2000 bytes is stored and the loop left; one of 2000 bytes is held back and the server waits |
| `Transfer.LostByteSpins` | src/common/network_util.c:97-101 | after a receive call that a failed read ended, the count stays below the announced size for ever: the loop is not left by the equality test |
| `Transfer.ClosedConnection` | src/server/server.c:134-156 | once the client has gone, from any state, the server has left its loop after any number of further reads if and only if what it stored and held makes up the announced size, and its file is exactly that |
| `Transfer.Fread` | src/client/client.c:83-87 | the next 131072 bytes, or what is left of the file |
| `Transfer.SendFile` | src/client/client.c:83-91 | the writes concatenate to the whole file; all but the last have 131072 bytes, and none is empty |
| `Transfer.StepKeeps` | src/server/server.c:134-160 | every step of client, server or stream keeps the invariant: bytes stored, held and on the wire make up exactly what was sent |
| `Transfer.Safety` | src/server/server.c:134-160 | in every interleaving and fragmentation the stored bytes are a prefix of the client's file and never more than announced; leaving the loop means the file is stored exactly |
| `Transfer.StuckIff` | src/common/network_util.c:79-101 | no step is possible before the end if and only if all is delivered and the file is empty or the last read was full |
| `Transfer.StepDecreases` | src/server/server.c:134-156 | every step lowers a measure of bytes that never goes below zero |
| `Transfer.Outcome` | src/client/client.c:87-94 | every run has at most `2 * size + 3` steps; one that cannot go on has finished if and only if the file is not empty and the last read was short, and then the file is stored |
| `Transfer.HangIff` | src/common/network_util.c:79-101 | some run hangs if and only if the file is empty or at least 2000 bytes long |
| `Transfer.CanFinishIff` | src/client/client.c:87-94 | some run of a transfer succeeds if and only if the file is not empty |
| `Transfer.CanStoreIff` | src/server/server.c:134-160 | what some run has stored at some point is any prefix of the file and nothing else |
| `Transfer.ClientGone` | src/server/server.c:134-156 | when the server has read all that a departed client sent, it stores just that and leaves its loop if and only if the whole file was sent |
| `Transfer.WritesSent` | src/client/client.c:87-91 | the Send steps of any run write the file's beginning in full chunks and one last piece |
| `Transfer.ChunksUnique` | src/client/client.c:83-91 | a text can be cut into such chunks in one way only |
| `Transfer.SendInRun` | src/client/client.c:73-94 | the sending loop on a file writes exactly what the Send steps of any run to the end of that file write |
| `Transfer.StoreInRun` | src/server/server.c:132-160 | the server's loop, fed with the reads of any run, ends with the outcome and the bytes of that run's server: a prefix of the client's file, all of it when the loop was left |
| `LocalFiles.CompareFiles` | src/client/client.c:114-154 | OK if and only if both files could be opened and agree up to their first byte 0xFF |
| `LocalFiles.CompareIsEquality` | src/client/client.c:133-148 | without that byte, agreement is equality |
| `Stdio.UntilEofMeans` | src/client/client.c:133-148 | the part compared is the beginning of the file up to its first byte 255 |
| `LocalFiles.CopyFile` | src/client/client.c:156-186 | OK exactly when both files could be opened, even if the disk took only a part; the destination then holds what the disk took, and is emptied when only it could be opened |
| `LocalFiles.CopyThenCompare` | src/client/client.c:114-186 | a copy that was taken whole compares as identical, whatever the bytes; without byte 0xFF one that fell short does not |
| `Session.MatchedStep` | src/server/server.c:78-305 | every step of client or server keeps the account of requests, replies owed, given and taken, what may be in flight, and when `client_end` is set |
| `Session.SessionMatching` | src/client/client_main.c:106-227 | in every run each file gets one reply and each GET request two; both channels are empty whenever the client issues its next request; `client_end` is set exactly after the second GET reply or a failed write |
| `Session.ServerLeavesIff` | src/server/server.c:78-81 | when the client has ended, the server has left its loop if and only if the run ended with an answer or with a file it rejected |
| `Session.RunEnds` | src/client/client_main.c:106-227 | a run of the client has at most 13 steps of client and server, with a whole transfer as one step |
| `Session.NewRunStarts` | src/client/client_main.c:106-111 | a new run keeps the server's copies and the backups and begins with the first file |
| `Session.RunVerdict` | src/client/client_main.c:106-227 | every run that ends does so with the status its steps decide: refused, missing file, rejected or broken transfer, no repositories, nothing to ask for, or an answer |
| `Session.AnswerIsOfSolve` | src/server/server.c:276-289 | a run that ends with an answer got OK if its last solving succeeded, and no dependencies otherwise |
| `Session.FirstReplyIsOk` | src/server/server.c:227-228 | the first reply to a GET request is OK |
| `Session.RunCloses` | src/server/server.c:78-81 | `client_end` ends the server's loop exactly after the second GET reply or a file it could not write, its status exactly after a file it could not open |
| `Session.RunIssues` | src/client/client_main.c:106-227 | under a GET request the run has issued, in this order: `@System.solv` and `yum.conf`, each if and only if there is no client id or it differs from its backup, and then its own command |
| `Session.StuckIff` | src/client/client.c:94 | in every reachable state whose client has not ended, client and server wait for each other if and only if the transfer under way hangs |
| `Session.CanStickIff` | src/client/client_main.c:106-157 | a client that starts can come to wait for ever if and only if one of the files it has to send is empty or has at least 2000 bytes |
| `Session.AcceptedNotEmpty` | src/server/server.c:134-156 | a file that the server accepted in this run is not empty |
| `Session.HandledStep` | src/client/client_main.c:106-157 | with or without faults, a file accepted in this run is on the server as it is on the client, and one that was passed over agreed with its backup |
| `Session.CopiesComeFromClients` | src/server/server.c:115-216 | over any runs and faults, what the server or a backup holds of a file is the beginning of that file as some client had it |
| `Session.MirrorStep` | src/client/client_main.c:111-155 | a faultless step keeps each backup equal to the server's copy, except between acceptance and the backup copy |
| `Session.SettledStep` | src/client/client_main.c:111-155 | any step, faults included, keeps this: what the last transfer left is the server's copy, and once a whole backup copy followed it the backup is |
| `Session.MirrorsWhenSettled` | src/client/client_main.c:106-157 | over any runs, faults included, a backup is the server's copy as long as the last transfer of the file was followed by a whole backup copy |
| `Session.BackupsMirror` | src/client/client_main.c:106-157 | over any number of faultless runs, refusals and rejections included: between runs an existing backup is the server's copy, and while a GET request is under way the server's copies agree with the client's files |
| `Session.GetAgreesIff` | src/client/client_main.c:106-227 | over any runs, faults included: under a GET request copy and file agree if and only if the file was sent in this run, or its last transfer was followed by a whole backup copy, or what that transfer left agrees |
| `Session.GetEqualsIff` | src/client/client_main.c:106-227 | the same for equality of the bytes, with the backup's bytes in place of the copy where the transfer was followed by a whole backup copy |
| `Session.FaultlessEqualsIff` | src/client/client_main.c:106-227 | over faultless runs, any bytes: the server solves on the client's very file if and only if it was sent in this run or equals its own backup |
| `Session.GetSeesLocalFiles` | src/client/client_main.c:106-227 | without byte 0xFF and faults, the server solves on exactly the client's files |
| `Session.ByteFFHidesChange` | src/client/client.c:133-148 | a reachable state in which a change behind byte 0xFF was never sent, for any two contents |
| `Session.FailedBackupGoesStale` | src/client/client_main.c:135-140 | a reachable state in which one failed backup copy makes the server solve on a file the client no longer has |
| `Session.ShortBackupGoesStale` | src/client/client.c:177-180 | the same when the backup copy falls short unnoticed and the file is later cut to that length |
| `Session.BadTransferGoesStale` | src/server/server.c:134-156 | the same when a transfer breaks or the server writes only a part: it solves on that part once the file has returned to its old content |
| `CfgSpec.LineEndIsFirst` | src/common/cfg_parsing.c:339-349 | a value runs up to the first newline, byte 0xFF or end of file |
| `CfgSpec.PortRange` | src/common/cfg_parsing.c:81-91 | whatever follows `port=`, the number lies between -999 and 9999 |
| `CfgSpec.PortInRange` | src/common/cfg_parsing.c:35-108 | the same for every file, with any bytes |
| `CfgSpec.PortDigits` | src/common/cfg_parsing.c:85-86 | one to four digits mean their decimal value |
| `CfgSpec.PortCut` | src/common/cfg_parsing.c:351-355 | a port of more than four digits means its first four |
| `CfgSpec.StrtolMeans` | src/common/cfg_parsing.c:85-86 | blanks, an optional sign and digits mean the decimal value with that sign, whatever follows them |
| `CfgSpec.FeedMatching` | src/common/cfg_parsing.c:363-376 | a key's remaining characters are all consumed, agreeing or not, before the scanner decides |
| `CfgReader.Compare` | src/common/cfg_parsing.c:363-376 | the state survives if and only if every character agrees; the position moves by the full length either way |
| `CfgReader.Store` | src/common/cfg_parsing.c:342-347 | one more character in a buffer that keeps a free cell for the terminator |
| `CfgReader.Terminate` | src/common/cfg_parsing.c:350-357 | the value is terminated: whole if it is shorter than the limit or there is none, otherwise its first `limit - 1` characters |
| `CfgReader.FileReadValue` | src/common/cfg_parsing.c:328-360 | the whole rest of the line when the limit is 0 or larger, otherwise its first `limit - 1` characters; all writes inside the buffer |
| `CfgReader.ReadKey` | src/common/cfg_parsing.c:59-102 | a key case: the value behind the key if it is there, otherwise none and the position behind the key's length |
| `CfgReader.Iterate` | src/common/cfg_parsing.c:37-106 | one turn of the loop, helpers included, advances the automaton to the new file position, or ends with the file's meaning |
| `CfgReader.ScanFile` | src/common/cfg_parsing.c:35-108 | the loop terminates on any bytes and computes what the character automaton computes |
| `CfgReader.ReadCfg` | src/common/cfg_parsing.c:5-129 | return code, id, address and port with their defaults, for a file or none |
| `CfgLines.ScannedIsBlindFold` | src/common/cfg_parsing.c:35-124 | for every file without byte 0xFF the scanner is a fold over the lines it cuts, which may span newlines |
| `CfgLines.ShortLineHidesNext` | src/common/cfg_parsing.c:363-376 | a short line swallows its newline and hides the setting below it |
| `CfgLines.ScannedIsFold` | src/common/cfg_parsing.c:35-108 | for well-formed lines the scanner is the fold over active lines, where a blank active line hides its successor |
| `CfgLines.LastSettingIsLast` | src/common/cfg_parsing.c:59-102 | the line chosen by the fold sets the slot and no later active line does |
| `CfgLines.LastWins` | src/common/cfg_parsing.c:59-124 | a slot holds the value of its last active setting, `server` and `address` sharing one, or nothing |
| `CfgLines.ReadByLines` | src/common/cfg_parsing.c:5-129 | the scanner's result on a well-formed file, told by its lines alone |
| `CfgLines.LineByName` | src/common/cfg_parsing.c:59-102 | a line `address=`, `server=`, `port=` or `id=` with a value sets the address, the port or the id to it, and nothing else |
| `CfgLines.OtherLine` | src/common/cfg_parsing.c:40-52 | a line that begins with none of the four initials sets nothing |
| `CfgLines.BlankHidesNext` | src/common/cfg_parsing.c:51-57 | a setting behind a blank line is not read |
| `CfgLines.BlankHidesOne` | src/common/cfg_parsing.c:51-57 | behind two blank lines it is read |
| `CfgLines.LastAddress` | src/common/cfg_parsing.c:59-79 | `server` and `address` set the same value, and the last one counts |
| `CfgWriter.HuntCase` | src/common/cfg_parsing.c:250-263 | a whole name is consumed; only full agreement with `name=` records a position |
| `CfgWriter.CompareName` | src/common/cfg_parsing.c:250-256 | matched if and only if the name and `=` stand there, with the position behind them |
| `CfgWriter.HuntTurn` | src/common/cfg_parsing.c:233-270 | one turn of the writer's loop follows its automaton at the new file position |
| `CfgWriter.FindTarget` | src/common/cfg_parsing.c:233-270 | the loop terminates with the position its automaton finds on the whole file |
| `CfgWriter.CopyChanged` | src/common/cfg_parsing.c:275-293 | the part in front, the new value, and what follows the old value up to a byte 0xFF |
| `CfgWriter.WriteToCfg` | src/common/cfg_parsing.c:203-326 | 1 without a file; otherwise the produced content: a new setting goes to the open file and the answer is 0, a changed one leaves it alone and the answer is 0 only if the old file was removed and another renamed into its place |
| `CfgWriter.TargetIsBlindFold` | src/common/cfg_parsing.c:233-270 | for every file without byte 0xFF the writer aims where a fold over the lines it cuts does: an empty value hides the next line, a value that begins with the initial is consumed blindly |
| `CfgRoundTrip.TargetIsLastMention` | src/common/cfg_parsing.c:233-270 | over values that are not empty and do not begin with the initial, the writer aims at the last active line of the key |
| `CfgRoundTrip.TargetIffMentioned` | src/common/cfg_parsing.c:233-270 | on any well-formed file the writer finds the key if and only if some active line sets it |
| `CfgRoundTrip.TargetPlace` | src/common/cfg_parsing.c:250-263 | wherever the writer aims, it is in one line that begins with the key, behind it or behind further copies of the key in its value |
| `CfgRoundTrip.WrittenInLine` | src/common/cfg_parsing.c:272-293 | the line aimed at keeps its part in front of the position and gets the new value behind it; no other line changes |
| `CfgRoundTrip.WrittenAtEnd` | src/common/cfg_parsing.c:313-325 | a new setting is glued to whatever the last line holds |
| `CfgRoundTrip.ReadAfterWrite` | src/common/cfg_parsing.c:203-326 | for any well-formed file, key, one-line value and slot: what the reader finds after the write, told by the old lines and the position aimed at |
| `CfgRoundTrip.WriteThenRead` | src/common/cfg_parsing.c:203-326 | the value written is read back if and only if `ReadsBack` holds of the old file; every other setting is unchanged when the key was found or a line of its own was added |
| `CfgRoundTrip.PlainReadsBack` | src/common/cfg_parsing.c:203-326 | for `port` and `id` over such plain values that condition is: the key exists in an active line, or the last line is empty and active |
| `CfgRoundTrip.EmptyValueMisleadsWriter` | src/common/cfg_parsing.c:257-262 | an empty value makes the writer change a setting that is not the last one, so the old value is still read |
| `CfgRoundTrip.NestedKeyGrows` | src/common/cfg_parsing.c:257-262 | a value that begins with the key, written over itself, comes back behind one more copy of the key |
| `CfgRoundTrip.SetAndRead` | src/common/cfg_parsing.c:5-129 | `read_cfg` on the content `write_to_cfg` produces: id, address and port are what `ReadAfterWrite` says, and when `ReadsBack` holds the value comes back, a port of one to four digits as its decimal value |
| `JsonBuilder.Builder.constructor` | src/common/json_create.c:24-50 | an empty data object under a cursor node without parent, no current array or object |
| `JsonBuilder.Builder.AddArrayMember` | src/common/json_create.c:52-96 | one element behind the others, nothing else in the tree changes; a container is new, empty, and becomes the cursor under the old one |
| `JsonBuilder.Builder.AddObjMember` | src/common/json_create.c:99-151 | one member of the current object, the others and all other containers unchanged |
| `JsonBuilder.Builder.NewData` | src/common/json_create.c:153-200 | one member of the data object, except that a number lands in the current object |
| `JsonBuilder.Builder.Climb` | src/common/json_create.c:231-249 | walking up stops if and only if there is an ancestor of the kind asked for, and then at the nearest |
| `JsonBuilder.Builder.UpperArray` | src/common/json_create.c:231-239 | if it stops the current array is that of the nearest array ancestor; the tree is untouched |
| `JsonBuilder.Builder.UpperObj` | src/common/json_create.c:241-249 | the same for objects |
| `JsonBuilder.AncestorsOlder` | src/common/json_create.c:231-249 | every ancestor is strictly older than the node, so the chain of parents has no cycle |
| `JsonBuilder.Builder.FillPackage` | src/common/json_create.c:443-455 | exactly `pkg_name`, `pkg_loc`, `base_url` and `metalink` with the name, the location, the base URL or null, and the repository |
| `JsonBuilder.Builder.InsertPackage` | src/common/json_create.c:440-455 | one new package object behind the others of the current array, which stays current |
| `JsonBuilder.Builder.InsertCategory` | src/common/json_create.c:396-458 | one category's array gains its packages in reverse order, behind what it held; every other member stays |
| `JsonBuilder.Builder.PkgsInsert` | src/common/json_create.c:393-460 | "install" lists the installs, "upgrade" the upgrades, "erase" the erasures and "obsolete" the obsoleted, each in reverse, and there is no other new member: nothing leaks through the shared cursor |
| `JsonBuilder.Builder.OpenArray` | src/common/json_create.c:303-318 | the array of that name becomes current, created empty if it was missing |
| `JsonBuilder.Builder.AddPackage` | src/common/json_create.c:301-323 | the package array gains one name at its end; the repositories stay as they are |
| `JsonBuilder.AddUrls` | src/common/json_create.c:357-366 | all URLs of a repository of type 1, only the first of any other |
| `JsonBuilder.Builder.WriteRepo` | src/common/json_create.c:326-375 | a new object at the end of "repolist" with exactly its name, its type and an array of its URLs: all for type 1, the first for any other |
| `JsonBuilder.Builder.AddRepo` | src/common/json_create.c:326-375 | the repository list gains one entry with those URLs; earlier repositories and the packages stay as they are |
| `JsonReader.GetCount` | src/common/json_read.c:204-222 | the length of an array of that name found anywhere below the data object; where no nested member has the name, that of the array at the top, whatever order and depth the search takes |
| `JsonReader.FirstMatch` | src/common/json_read.c:214-217 | the search finds a member of that name if and only if there is one within the depth, and what it finds is one |
| `JsonReader.WayDownFound` | src/common/json_read.c:206-217 | a member of that name at the end of any way down through objects and arrays is found if the search goes deep enough |
| `JsonReader.TopMatch` | src/common/json_read.c:206-218 | where no nested member has the name, whatever the search may answer is the member at the top |
| `JsonReader.AnswerOnlyAtTop` | src/common/json_read.c:204-226 | in every answer the builder makes, no nested member has the name of a category |
| `JsonReader.RequestOnlyAtTop` | src/server/server.c:238-240 | in every request the builder makes, no nested member is called `req_pkgs` |
| `JsonReader.ReadPackage` | src/common/json_read.c:232-272 | the base URL is kept when it is not null, otherwise the metalink is |
| `JsonReader.ParseAnswer` | src/common/json_read.c:224-278 | on any answer: a null head, then one package read from each place of the array that was counted, empty where no object stands |
| `JsonReader.ReadCategory` | src/common/json_read.c:224-278 | from an answer the builder made, the category of that name comes back reversed behind the null head |
| `JsonReader.AnswerRoundTrip` | src/common/json_read.c:224-278 | for any goal, built and read back by name: installs, upgrades, erasures and obsoleted each return their own packages, reversed behind the null head, with name, location and base URL or else the repository |
| `JsonReader.ReadTexts` | src/common/json_read.c:139-150 | the strings in order and their number |
| `JsonReader.ReadRepoInfo` | src/common/json_read.c:122-154 | on any list whose repositories have a name and URLs that are texts: each in order, with type, name, URLs and their count, a missing type as 0 and missing URLs as none |
| `JsonReader.BuildRequest` | src/common/json_create.c:301-375 | any interleaving of the two adding functions leaves the packages and the repositories each in their own order |
| `JsonReader.RequestRoundTrip` | src/common/json_read.c:122-154 | for any interleaving, built and read back: all packages with their count from the deep search, and all repositories in order with their name, type and URLs, all for type 1 and the first for any other, and the number of these |

## Left out

- Registry: `int` wrap-around of `num_items` and `allocated`; the counters are unbounded integers.
- Registry.Gc.Init: failure of the allocation of the header, which ends the program.
- RegistrySpec.Tracking: a `realloc` to size 0 frees the block in C; lawful runs ask for positive sizes, as every caller does.
- Transfer.StoreFile: what the source does with the freed buffer after a receive call whose first read fails; the model ends there with `ReadFailed`. A read or write of the loop that fails is not a step of the two together (`Safety`, `Outcome`); in `Session` it is a broken transfer or a partly stored file.
- Transfer.Safety: nothing separates the JSON header from the file bytes; the header is taken to arrive in its own read, and its text is not modelled. The stream has no capacity limit.
- Session: `main` and `ssds_server_process` are steps of one system, not methods, because they run concurrently; a message is one unit that fits one read, so two replies to a GET request that arrive in one read are not modelled, nor a request or reply of at least 2000 bytes, which can hang like a file.
- Session: the server is started again between two runs when it has not left its loop; what it does on a connection without a client is `ClosedConnection` for a transfer and endless reading otherwise.
- Session.BackupsMirror: begun transfers complete, backups succeed and files stay fixed during a run; `GetAgreesIff` says what holds without the first two.
- Session: `GENERATE_ID` and `GET_DEPENDENCY`, which this client never sends.
- LocalFiles.CopyFile: a disk that refuses a byte and takes a later one.
- CfgReader.ReadCfg: a value with a zero byte in it, which C would cut there; numbers too long for `long` cannot occur behind the port limit.
- CfgReader.ReadCfg: `read_srv_cfg`, the same loop with fewer keys, is not part of this model.
- CfgWriter.WriteToCfg: what the file system holds after removing and renaming; the two temporary paths in the source differ (src/common/cfg_parsing.c:279 and 304), so their success is a parameter and only the content produced is modelled.
- CfgRoundTrip.WriteThenRead: files with a byte 0xFF and lines shorter than the key whose initial they carry, for which `TargetIsBlindFold` and `ScannedIsBlindFold` give the two folds up to byte 0xFF.
- CfgRoundTrip.TargetIsLastMention: values that are empty or begin with the initial; `TargetPlace` and `TargetIffMentioned` hold for all.
- CfgRoundTrip.PlainReadsBack: the same, and the two keys that share a slot; `WriteThenRead` holds for all.
- JsonBuilder.Builder.PkgsInsert: an answer that holds one of the four arrays already; the program builds each answer once, and `InsertCategory` covers an existing array.
- JsonBuilder.Builder.PkgsInsert: the uninitialised counter that is only logged.
- JsonReader.GetCount: the order in which json-glib visits members is left open, and a depth bound stands for the size of the message.
- JsonReader.ReadRepoInfo: a repository without a name or with a URL that is not a text, for which the source takes the length of a null pointer.
- JsonReader: `ssds_js_rd_get_packages` reads the packages, but its terminator goes one index too far (src/common/json_read.c:118), so no termination is claimed; `RequestRoundTrip` reads the array itself.
- JsonReader: the text syntax of JSON, and `ssds_js_rd_parse`, which answers success on a failed parse; trees are taken as received.
- Dependency solving, repository metadata, RPM transactions, TLS, retries, signals, logging, prompts and command-line parsing.
- `check_for_missing_repos`: its flag is never reset and its `fseek` arguments are swapped, so what it is for and what it does differ.
