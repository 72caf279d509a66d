# mrksvnup in Dafny

mrksvnup brings a directory to a revision of a Subversion repository. It speaks two protocols, ra_svn and
HTTP/WebDAV, and both end in the same file editor. This project models that core, from the bytes of the server to
the files, and proves what it keeps and what it leaves behind.

| module | models |
|---|---|
| Bytes | byte strings and what the other modules share |
| Base128, Svndiff, SvndiffLaws | the svndiff1 numbers, instructions and resumable document parser; round trips and resumption |
| TargetView | the interpreter of a window, including the copy that feeds on itself, over memory with unknown contents |
| DeltaText | from the bytes of a delta to the text it was made for |
| SvnEdit, SvnEditLaws | the file editor: choosing between keeping, patching, replacing and fetching a file; checksum guarantee, two-phase patching, no damage on failure |
| SvnEditCodes | exactly when each of its commands succeeds, with which code it fails, and what a failure leaves |
| SvnEditRun, SvnEditResume | whole edit scripts: convergence, and running again after an interruption |
| Repair | the repair pass over the checksum database |
| Tokenizer, Grammar, Wire, Unpack | ra_svn syntax: the character-level tokenizer and the grammar it accepts, packing, and the spec-driven unpacker with one token of push-back |
| ProtoEditor, CommandForms, Update | the ra_svn editor loop, how a server spells each command, and the whole update from bytes to files |
| HttpBody, UrlCodec | HTTP body framing (RFC 7230 sections 3.3.3 and 4.1) and percent coding (RFC 3986 section 2.1) |
| PathStack | the XML-event editor that rebuilds paths with a stack |

Code that works by changing things is modelled by classes and loops; each method is proved to compute a function of
its inputs or of the old state, and the properties are proved of those functions. The chain is closed: `Session.Run`
drives `Reader` (tokenizer) and `Editor` (file editor, which drives `SvndiffDoc` and `BuildTview`), so that
`Update.WholeUpdateConverges` speaks about that program.

What is outside is a parameter: the hash, zlib, the server's files by path and revision, what fresh memory holds, and
the failures of system calls, command by command, are the fields of `SvnEdit.Env`. No property assumes more of them than its
`requires` says; zlib is an inverse pair only where `InversePair` is required.

Where a property one would expect does not hold of the code, the exact condition is proved and a lemma shows the
failure: windows that read unwritten memory or write past their allocation (`BuildsReliablyExactly`,
`BackwardOverruns`), chunks cut inside a field (`ChunkedParse`, `CutExactly`), deletes whose traversal fails
(`DeleteRemovesExactly`, `FailedTraversalIsSuccess`), success without the text checksum (`CloseHoldsExactly`,
`PropertyOnlyHoldsExactly`, `PropertyOnlyEmptiesModifiedFile`), numbers from 2^63 on (`NumberRoundTripExactly`),
negative numbers (`PackedNumberExactly`), strings that are pushed back (`FoundAgainExactly`, `TextRereadsAsWord`),
an editor loop that ends without close-edit (`QuietEndExactly`, `EndsQuietly`), an HTTP body that is cut short
(`ChunkedBodyExactly`) or has no length (`FixedBodyExactly`), and a delete that fails (`DeleteRestoresExactly`).

The manual (man/svnup.1, lines 104-111) promises that a run goes on after one that SIGTERM or SIGINT ended, which
happens at any instruction (src/main.c, lines 52-58), and excepts SIGKILL. `InterruptedRunAgrees` proves the promise
for a script that succeeds without interruption. A half-written text must not share its hash with the source or the
target; for an old file the server must have the target at the target revision, and the mode must not be tolerant.

`dafny verify dfyconfig.toml` checks the project.

## Model

| member | source | states |
|---|---|---|
| Base128.DecodeNumber | src/svndiff.c:37-57 | The byte loop decodes seven bits a byte, at most ten bytes, with the wrap-around of a 64-bit long, and stops short of `end` |
| Base128.NumberRoundTrip | src/svndiff.c:16-57 | Every number below 2^63, encoded, decodes to itself whatever follows, in at most nine bytes and so within the ten-byte cap |
| Base128.NumberRoundTripExactly | src/svndiff.c:37-57 | A number comes back if and only if it is below 2^63 |
| Base128.DecodedValue | src/svndiff.c:37-57 | Whatever is stored, for any bytes, minimal or not and also where no last digit is found, is the number that the digits read spell modulo 2^64 |
| Base128.DecodesExactly | src/svndiff.c:37-57 | A number is decoded if and only if one of the first ten bytes lacks the high bit, and it ends with the first such byte |
| Base128.DecodeLocal | src/svndiff.c:37-57 | Decoding depends on no byte behind the ones it consumes |
| Svndiff.ReadInsn | src/svndiff.c:59-82 | One instruction: short and long length forms, an offset for source and target only |
| Svndiff.SvndiffDoc.ParseNumber | src/svndiff.c:357-405 | A header state stores its number and moves on only if the number is complete |
| Svndiff.SvndiffDoc.ParseSection | src/svndiff.c:84-125 | A section is raw when its two lengths agree and inflated otherwise; lengths that reach outside the buffer have no defined result |
| Svndiff.SvndiffDoc.ParseInsns | src/svndiff.c:415-436 | All instructions of a section; one that does not decode silently ends the list |
| Svndiff.SvndiffDoc.ParseOne | src/svndiff.c:333-464 | Each of the nine states consumes what its step function says and stores what it has read, also when it fails |
| Svndiff.SvndiffDoc.ParseDoc | src/svndiff.c:327-469 | The loop terminates, by position and then by the one state that consumes nothing, and leaves the document of the step-by-step reading |
| SvndiffLaws.InsnRoundTrip | src/svndiff.c:59-82 | Any instruction in either length form is decoded back, exactly to its end |
| SvndiffLaws.InsnsRoundTrip | src/svndiff.c:410-436 | A section of any instructions in any mix of forms is decoded back as that list; bytes behind them that are no instruction end it silently |
| SvndiffLaws.CutInsnIsNone | src/svndiff.c:59-82 | An instruction of which the end is missing is none |
| SvndiffLaws.SectionExactly | src/svndiff.c:84-125 | For any two lengths and any payload: taken raw, inflated to no more than the announced length, refused, or without a result |
| SvndiffLaws.SectionRoundTrip | src/svndiff.c:84-125 | Stored raw, or deflated when strictly smaller, a section gives back its bytes |
| SvndiffLaws.WindowsRoundTrip | src/svndiff.c:341-461 | Any windows appended to a document between two windows are received as sent, and the parser ends between two windows again |
| SvndiffLaws.DocRoundTrip | src/svndiff.c:327-469 | Any document, in any of its encodings, parses to exactly its version, windows and instructions |
| SvndiffLaws.VersionExactly | src/svndiff.c:19-35 | A document begins with SVN and a signed version byte, and with nothing else |
| SvndiffLaws.FailedNumberStays | src/svndiff.c:357-405 | A header number that is not complete fails with the code of its state, and is stored as far as it goes |
| SvndiffLaws.FailedSectionStays | src/svndiff.c:408-455 | A section that is refused leaves the window; behind the instructions the state has moved on all the same |
| SvndiffLaws.ParseAppend | src/svndiff.c:327-469 | After a call that returned 0 a second call goes on as if both pieces had been one |
| SvndiffLaws.PrefixParsesAtBoundaries | src/svndiff.c:327-469 | A prefix of a good document parses, without reading past its end, if and only if it is cut between two fields |
| SvndiffLaws.CutExactly | src/svndiff.c:327-469 | What a cut comes to, by where it falls: 0 between two fields; the code of its state inside the version or a number, which the parser does not wait for; a read past the end inside the payload of a section, which nothing checks |
| SvndiffLaws.ChunkedParse | src/svnproto_editor.c:394-413 | Chunk by chunk a document parses, without reading past a chunk, if and only if every cut is between two fields, and then to the state of one call on the whole |
| SvndiffLaws.FieldByField | src/svnproto_editor.c:394-413 | Windows sent one field a chunk are received as when sent whole |
| SvndiffLaws.RegroupedFields | src/svnproto_editor.c:394-413 | So are windows in any chunks that are cut between fields |
| TargetView.BuildTview | src/svndiff.c:471-583 | The loop over the instructions leaves in the buffer what the interpreter function says, or its error code |
| TargetView.BuildInsn | src/svndiff.c:498-578 | One instruction: the checks in their order, the copy, the write position, the new data used and the room the code counts on, which a target copy of negative length increases |
| TargetView.PatterningCopy | src/svndiff.c:564-567 | The forward byte loop, in place, equals the one-byte-at-a-time copy that can feed on itself |
| TargetView.CopyUpRepeats | src/svndiff.c:552-569 | After a target copy byte p+k is byte offset + (k mod (p - offset)), for every k below the length |
| TargetView.CopyUpIsPattern | src/svndiff.c:552-569 | So the copy appends the repeated tail and leaves what was written before |
| TargetView.BoundNeverRejects | src/svndiff.c:556-562 | The `>=` check rejects no instruction that reads written bytes and fits the window |
| TargetView.BuildMeans | src/svndiff.c:471-583 | A well-formed window leaves its meaning, whatever the fresh buffer held |
| TargetView.BuildsReliablyExactly | src/svndiff.c:471-583 | Success with one result for all fresh memory holds if and only if the window is well formed: copies read what is written, nothing is written behind the allocation, and the view ends full, none of which the code checks |
| TargetView.BuildStaysInside | src/svndiff.c:471-583 | Without negative lengths and target offsets, and with sums in range, no access leaves its buffer, whatever the window says |
| TargetView.InsnCodesExactly | src/svndiff.c:498-578 | When an instruction fails, and with which code: too long for the room, no source, a short read, too little new data, out of bounds, or unknown |
| TargetView.InsnCrashesExactly | src/svndiff.c:498-578 | And when C gives it no meaning: it writes or reads outside its buffers, or a sum leaves the range of a long |
| TargetView.BackwardIsDecoded | src/svndiff.c:37-82 | A target copy of length -3 can be sent: twelve bytes decode to it |
| TargetView.BackwardCanBeHarmless | src/svndiff.c:552-569 | A window that begins with it can still be relied on |
| TargetView.BackwardOverruns | src/svndiff.c:498-569 | And it makes the code accept new data that goes past the end of the allocation |
| DeltaText.DeltaMeans | src/svndiff.c:327-583 | From the bytes of a delta to the text: copies from the source (code 0), from the target so far and on into themselves (code 1), and new bytes (code 2), as a sender says them, spelled with any encoding choices, parse to windows that build reliably and give the text that was said |
| DeltaText.DeltaMakes | src/svnproto_editor.c:394-413 | Sent in chunks cut between fields, such a delta is one the server made for its text, as the lemmas on interrupted and successful runs ask for |
| SvnEdit.Editor.VerifyChecksum | src/svnedit.c:74-126 | Hashing block by block is hashing the file |
| SvnEdit.Editor.DeletePath | src/svnedit.c:191-250 | Removes a file or a whole directory and the one database key of the path; only an unlink that fails on a file is an error |
| SvnEdit.Editor.WriteFile | src/svnedit.c:366-415 | The file holds exactly the pieces in order, and from one write to the next the pieces so far; or nothing changed |
| SvnEdit.Editor.CheckoutFile | src/svnedit.c:468-525 | A full copy of the server at the revision, or no change and an error |
| SvnEdit.Editor.BuildViews | src/svnedit.c:740-747 | All target views over the one unchanged source, or the first failure |
| SvnEdit.Editor.HashViews | src/svnedit.c:750-767 | The hash fed view by view is that of their concatenation |
| SvnEdit.Editor.WriteViews | src/svnedit.c:877-898 | Overwriting from the start and truncating leaves exactly the concatenated views, whether the file grows or shrinks; from one write to the next the file holds the views so far and then what is left of the old text |
| SvnEdit.Editor.FinishFile | src/svnedit.c:739-908 | Build, check, create, write, save: the new state and code of each way out |
| SvnEdit.Editor.CloseCurrent | src/svnedit.c:599-934 | The whole close: which of keeping, copying, patching or replacing is chosen, and what it leaves |
| SvnEdit.Editor.Dispatch | src/svnedit.c:58-934 | Every handler takes the editor exactly to the state of the abstract command, unless the process is gone |
| SvnEditLaws.CloseHoldsExactly | src/svnedit.c:599-934 | With a parsed delta, after return 0 file and database hold the text checksum if and only if none of three exceptions applies: tolerant mode kept a stale file, a full copy was taken that lacks the checksum, an empty file could not be created |
| SvnEditLaws.SuccessfulCloseHolds | src/svnedit.c:599-934 | Non-tolerant, with an honest server, every success exit leaves file and database at the text checksum |
| SvnEditLaws.PropertyOnlyHoldsExactly | src/svnedit.c:599-934 | For every close without a parsed delta: when the file has the checksum after a success, in each of the ways out; with the law above every successful close is decided |
| SvnEditLaws.PropertyOnlyEmptiesModifiedFile | src/svnedit.c:694-902 | A property-only edit of a locally modified file empties the file and reports success |
| SvnEditLaws.NoChecksumNoSuccess | src/svnedit.c:904-908 | A close without a text checksum never returns 0 |
| SvnEditLaws.CloseTouchesOnlyItsFile | src/svnedit.c:599-934 | No other path and no other key changes |
| SvnEditLaws.BuildAllMeans | src/svnedit.c:740-747 | The views of well-formed windows concatenate to the patched source |
| SvnEditLaws.PatchInPlace | src/svnedit.c:740-908 | On the base-match path the file ends as every window applied to the original content, with its checksum on record |
| SvnEditLaws.PatchNewFile | src/svnedit.c:694-908 | An added file is built from its delta alone, over nothing or over a stray local file |
| SvnEditLaws.FailedEditDoesNoDamage | src/svnedit.c:617-908 | With the base matched, any failure but that of the final save leaves the working copy as it was |
| SvnEditLaws.CloseKeepsTree | src/svnedit.c:599-934 | Nothing comes to exist outside an existing directory |
| SvnEditLaws.DeleteKeepsTree | src/svnedit.c:154-250 | The same for deletes, also for a traversal that fails half-way |
| SvnEditLaws.DeleteRemovesExactly | src/svnedit.c:191-250 | A delete that returns 0 leaves nothing at or below its path if and only if that is no directory whose traversal failed |
| SvnEditLaws.FailedTraversalIsSuccess | src/svnedit.c:207-250 | A traversal that fails at once leaves the directory with all its files, drops its key, and 0 is returned |
| SvnEditCodes.DeleteExactly | src/svnedit.c:191-250 | A delete fails if and only if a file cannot be unlinked, and then changes nothing; otherwise exactly the key of its path is gone, and nothing outside the path has changed |
| SvnEditCodes.FailedTraversalLeaves | src/svnedit.c:154-250 | Of a directory whose traversal fails exactly the directory and what has survivors in it is left |
| SvnEditCodes.DirectoryExactly | src/svnedit.c:135-335 | Each of the three directory commands: its code for every state of the path, and that it adds that directory and nothing else |
| SvnEditCodes.OpenExactly | src/svnedit.c:527-562 | Opening succeeds if and only if the file is there, or can be fetched at its revision and made; the record starts afresh |
| SvnEditCodes.AddExactly | src/svnedit.c:338-364 | Adding fails only at a directory, touches nothing, and starts the record afresh |
| SvnEditCodes.CloseForgets | src/svnedit.c:930-934 | After a close, failed or not, nothing is left of the record |
| SvnEditCodes.TextdeltaExactly | src/svnproto_editor.c:359-392 | The base checksum of the record is the one announced last, or none if it was left out |
| SvnEditCodes.ChunkExactly | src/svnproto_editor.c:394-413 | A chunk changes the parsed delta only, and fails with the code of the parser |
| SvnEditCodes.RunNamesRevision | src/svnedit.c:128-133 | After any commands that succeed the target revision is the one named last, or the old one if none was |
| SvnEditCodes.CloseCodeExactly | src/svnedit.c:599-934 | For every close when each code is returned, 0 included, in terms of the file, the checksums, the tokens, the mode, and the calls that fail |
| SvnEditCodes.CloseWrites | src/svnedit.c:599-934 | What a close that gets to its end leaves: the file as it was, the server copy of the target revision, the target the delta builds, or without a delta the old text |
| SvnEditCodes.FailedCloseLeaves | src/svnedit.c:599-934 | What one that does not leaves: everything, but for a stray local file in the place of an added one, which is gone |
| SvnEditCodes.TolerantKeepsChanged | src/svnedit.c:653-654 | In tolerant mode a locally modified file is kept, the announced checksum is recorded for it, and 0 is returned |
| SvnEditCodes.BuildAllExactly | src/svnedit.c:740-747 | The target views are there if and only if every window can be built, and then are theirs in order; the first window that cannot decides how it fails |
| SvnEditRun.ChunksRun | src/svnproto_editor.c:394-413 | Chunk commands succeed exactly when the chunks parse, and change nothing but the parsed document |
| SvnEditRun.FileEditIs | src/svnproto_editor.c:269-552 | The commands of one file edit are its opening, the parse of its chunks and its close, with nothing left over from the file before |
| SvnEditRun.RunEditsIsRunActions | src/svnproto_editor.c:584-771 | Grouping the commands into edits does not change the run |
| SvnEditRun.DirectoryReaches | src/svnedit.c:252-335 | After a directory command that returns 0 the directory is there, and no other path has changed |
| SvnEditRun.EditReaches | src/svnedit.c:191-934 | One successful edit of a coherent script keeps the tree, the database agreement and everything reached so far, and reaches its own aim |
| SvnEditRun.RunFateIs | src/svnedit.c:191-250 | A run does to each path what the script says last, but for paths in a directory whose removal failed half-way |
| SvnEditRun.RunConverges | src/svnedit.c:191-934 | Over whole runs: if every command succeeds, every edited path holds its target checksum in file and database, every deleted path is gone, or as it was if the removal of its directory failed half-way, every other path is untouched, and every key whose file exists matches that file; whatever the local files held before for edits with a delta, while an edit without one needs the file it announces, or a missing file that is fetched with that checksum |
| SvnEditResume.CloseIsLocal | src/svnedit.c:599-934 | A close sees nothing of the working copy but its own file and whether its directories exist |
| SvnEditResume.MidwayIsFinished | src/svnedit.c:617-908 | From the source text, from no file, from the finished target text, or from any text that does not share its hash with these, an edit ends with the target text and its checksum |
| SvnEditResume.EditKeepsParallel | src/svnedit.c:191-934 | An edit that succeeds in the first run succeeds in the resumed one and keeps the two alike |
| SvnEditResume.ResumedRunAgrees | man/svnup.1:104-109 | Running the script again over a working copy in which files are old, new, missing or spoiled ends with the same files, directories and database as the uninterrupted run |
| SvnEditResume.InterruptedRunAgrees | man/svnup.1:104-109 | In particular after a run of an orderly script that was interrupted at any point: between two edits, in the middle of writing a file or of a removal |
| SvnEditResume.CutOldFileIsFinished | src/svnedit.c:884-896 | A file cut between two writes of its target, or between any two bytes, ends with the target text |
| SvnEditResume.CutCopyIsFinished | src/svnedit.c:375-400 | So does a file that was truncated and partly written from a copy of the server |
| SvnEditResume.CutNewFileIsFinished | src/svnedit.c:694-896 | So does a new file of which a part was written |
| SvnEditResume.RunSucceeds | src/svnedit.c:191-934 | When no system call fails, a coherent script whose edits find what they were made for succeeds, and every path ends as the script says last |
| Repair.Checker.CheckKey | src/svnc_util.c:182-312 | What becomes of one key: kept, fetched and rewritten, fetched into new directories, or forgotten and removed; or the program exits |
| Repair.Checker.CheckIntegrity | src/svnc_util.c:171-327 | The loop visits every key once, at a time of its own, in the order of the tree, deleting keys as it goes, and leaves every path settled by the failures its visit met; the keys that remain are exactly those that verified, those of directories, and those the server gave a copy for; and if the server agrees with the recorded checksums, so does every file that exists. When no call fails, it comes to its end if and only if no missing file that the server has lies below a path that is a file, or becomes one in the same pass |
| Repair.RepairKeyProgress | src/svnc_util.c:182-312 | A visit settles the first key that is left; it leaves the later keys and their paths as they were, and disturbs no other path beyond making directories |
| Repair.LeqExactly | src/svnc_util.c:188-192 | The order of the keys: a prefix first, and otherwise by the first byte that differs |
| Repair.VisitExitsExactly | src/svnc_util.c:193-267 | A visit ends the program if and only if the file is there and cannot be opened, or it is missing and served, and a file is in the way, a missing directory cannot be made, or the file cannot be created |
| Repair.VisitExactly | src/svnc_util.c:182-312 | What any other visit does: nothing to a directory or a file with its checksum; the server copy and its directories; or key and file are removed |
| Tokenizer.Reader.OneCharacter | src/svnproto_unpack.c:22-156 | One turn of the character loop: new state, position, buffer and return |
| Tokenizer.Reader.ParseOneValue | src/svnproto_unpack.c:15-162 | The loop over what has arrived |
| Tokenizer.ScanMore | src/svnproto_unpack.c:15-213 | Fragmentation independence: scanning what is there and going on when more arrives is scanning all at once, NUL for NUL |
| Tokenizer.ScanEnds | src/svnproto_unpack.c:15-162 | A finished token lies whole before the position |
| Tokenizer.Reader.Slice | src/svnproto_unpack.c:215-229 | The bytes handed out are those of the stream between start and end |
| Tokenizer.Reader.ReadOneValue | src/svnproto_unpack.c:164-213 | The token, the rewound position and the error are functions of the bytes of the stream, however they were split into reads |
| Grammar.ReadExactly | src/svnproto_unpack.c:15-213 | The character machine accepts exactly a grammar of blanks, words, numbers, counted strings and parentheses: on every stream and between any two tokens it delivers the token that is there, asks for more exactly where the stream ends too soon, and fails at the first byte that has no place, with the code of its kind |
| Wire.Packer.PackString | src/svnproto_pack.c:34-50 | Appends length, colon, the bytes and a space |
| Wire.Packer.Pack | src/svnproto_pack.c:14-68 | Appends exactly the spelling of the token sequence of any nested item |
| Wire.Packer.PackMembers | src/svnproto_pack.c:52-68 | The callback of a list appends its members in order |
| Wire.FlatAppend | src/svnproto_pack.c:52-68 | The tokens of a list are those of its members, in their order |
| Wire.DecRoundTrip | src/svnproto_pack.c:24-32 | The digits printed for a number read back as that number |
| Wire.TokenRead | src/svnproto_unpack.c:15-213 | Wherever a well-spelled token is next, it is delivered, the reader stands just behind it, and a word, number or parenthesis is found again after stepping back, although its separator is now NUL |
| Wire.FoundAgainExactly | src/svnproto_unpack.c:119-177 | A token that has been read is found again after a step back if and only if it is not a string |
| Wire.TextRereadsAsWord | src/svnproto_unpack.c:119-177 | A string that looks like a word comes back as that word |
| Wire.PackedNumberExactly | src/svnproto_pack.c:24-32 | A number that is packed is read as that number if and only if it is not negative; a negative one is read as a word |
| Wire.ToksRoundTrip | src/svnproto_unpack.c:15-213 | Any sequence of tokens reads back as itself |
| Wire.ItemRoundTrip | src/svnproto_pack.c:14-68 | Tokenizing the packed form of any nested item gives exactly its tokens, with arbitrary bytes in its strings |
| Unpack.RunVunpack | src/svnproto_unpack.c:260-807 | The spec, letter by letter: code, values stored and reader as the matcher function says |
| Unpack.RunOne | src/svnproto_unpack.c:291-542 | One letter with its suffix: match, absent value and push-back, or mismatch code |
| Unpack.RunStar | src/svnproto_unpack.c:340-364 | The loop of a starred item collects every token of its kind and pushes the next back |
| Unpack.CurrentValue | src/svnproto_unpack.c:215-229 | What the caller receives for the current token |
| Unpack.OneReceives | src/svnproto_unpack.c:291-542 | An argument as sent is received as sent, present, absent or repeated |
| Unpack.OneFailsExactly | src/svnproto_unpack.c:291-542 | For any token: an item fails if and only if it is required and the token is of another kind, with the code of what was required; an absent number is 0 and an absent string NULL |
| Unpack.UnpackInvertsPack | src/svnproto_unpack.c:260-807 | For any arguments sent as their spec allows, unpacking returns exactly those values and leaves the reader exactly behind their bytes |
| ProtoEditor.Session.Unpack2 | src/svnproto_editor.c:584-771 | The handler of the named command: unpacks by its spec, acts once, reports with its code |
| ProtoEditor.Session.Unpack1 | src/svnproto_editor.c:773-790 | One command from parenthesis to parenthesis, and the early end after close-edit |
| ProtoEditor.Session.Run | src/svnproto_editor.c:793-820 | The `r*` loop terminates on every stream and ends as the loop function of the stream says |
| ProtoEditor.CommandProgress | src/svnproto_unpack.c:679-697 | A command that succeeds has moved the reader on, whatever was pushed back on the way |
| ProtoEditor.CommandHandled | src/svnproto_editor.c:584-790 | One packed command performs exactly its action with exactly the values sent, and the reader ends behind it |
| ProtoEditor.CommandsRun | src/svnproto_editor.c:773-820 | Packed commands other than close-edit: all succeed and the loop goes on behind them, or it stops in the state in which the first one failed |
| ProtoEditor.LoopDiscipline | src/svnproto_editor.c:773-820 | Each command is dispatched once and in order; close-edit ends the loop with 0 and later bytes unread; the first failing command ends it with a nonzero code |
| ProtoEditor.QuietEndExactly | src/svnproto_editor.c:773-820 | Return 0 does not imply close-edit. For every stream, the loop returns 0 without it if and only if, where a command is due, a token comes that is no parenthesis, or a token behind the parenthesis that is no word, or a token behind a command that has been carried out that does not close it |
| ProtoEditor.EndsQuietly | src/svnproto_editor.c:773-820 | In tokens: each of the three, behind any commands that succeeded, ends the loop with 0, also behind the arguments of close-edit |
| Update.IgnoredDoNothing | src/svnproto_editor.c:179-262 | Commands that only trace can be left out of a run |
| Update.UpdateConverges | src/svnproto_editor.c:793-820 | From bytes to files: if the loop returns 0 on the packed commands of a coherent script, among any that only trace, it has read exactly to the end of close-edit and the working copy is as the script says |
| Update.WholeUpdateConverges | src/svnproto_editor.c:793-820 | The same for the whole update, from the opening commands on: the script is judged by the revision they name last |
| Update.SpokenUpdateConverges | src/svnproto_editor.c:793-820 | Encoded update in, edited files out: for the very bytes in which a server names a revision, opens the root and spells a script, with tracing commands anywhere in between and anything in the arguments the editor does not use |
| CommandForms.SpokenMeans | src/svnproto_editor.c:22-607 | Every action, spelled as the protocol spells it, unpacks by the spec of its handler into exactly that action: names, argument order, optional and nested arguments, and the code of its failure |
| CommandForms.SpeakAllMeans | src/svnproto_editor.c:584-771 | Spoken commands, those that only trace among them, are the actions they were spoken for |
| CommandForms.TraceMeans | src/svnproto_editor.c:634-758 | The nine tracing commands, spelled as the protocol spells them with any arguments, fit the specs of their handlers and ask for nothing |
| CommandForms.TraceDoesNothing | src/svnproto_editor.c:634-758 | Wherever one of them is next, it is read to its end, 0 is returned, and nothing has changed |
| CommandForms.UnknownFails | src/svnproto_editor.c:759-763 | Any word but the twenty names ends the loop with its error, and nothing has changed |
| CommandForms.UnclosedFails | src/svnproto_editor.c:414-445 | Arguments that are not closed fail with the code of their command, which has done nothing; but a chunk has been parsed by then |
| CommandForms.SpelledLiterally | src/svnproto_pack.c:14-68 | Two commands, byte by byte |
| HttpBody.StrtolLocal | src/http.c:388-394 | On a line that is not empty, reading the size stops at the line end, whatever has arrived behind it |
| HttpBody.SizeStep | src/http.c:375-403 | A size read off what has arrived is the size in the whole stream |
| HttpBody.BodyParser.FindCrlfFrom | src/http.c:269-285 | The loop finds the first CR LF pair |
| HttpBody.BodyParser.ProcessSize | src/http.c:374-403 | The size state, on the way to what the whole stream means |
| HttpBody.BodyParser.ProcessData | src/http.c:405-453 | The data state: a whole chunk is passed on once, and the two bytes behind it are skipped unseen |
| HttpBody.BodyParser.ProcessFixed | src/http.c:455-491 | A body of given length, passed on once it is all there |
| HttpBody.BodyParser.ProcessBody | src/http.c:363-495 | One call, in any state, on the way to what the whole stream means |
| HttpBody.BodyParser.ParseBody | src/http.c:688-712 | The loop terminates, and slices, position and success are functions of the bytes of the stream, however they were split into reads; only which of the two failure codes is returned depends on what had arrived with the headers |
| HttpBody.NumeralExactly | src/http.c:388-389 | The digits of a size are read as the number that they print in base 16, letters of either case and leading zeros included |
| HttpBody.LineSizeExactly | src/http.c:388-394 | Which lines are taken for sizes, and for which: white space, a sign, 0x, and a numeral that, clamped to a long and stored in an int, is not negative |
| HttpBody.ChunksPassed | src/http.c:405-453 | Whole chunks are passed on one by one while the callback accepts them |
| HttpBody.BadSizeFails | src/http.c:388-394 | A line behind them that is no size fails at once |
| HttpBody.RefusedChunkFails | src/http.c:432-437 | So does a chunk that the callback refuses |
| HttpBody.ChunkedBodyExactly | src/http.c:363-495 | For any chunked body of RFC 7230 section 4.1 without extensions and trailers, its sizes printed in any way, and a callback that accepts: the slices are its chunks and the position is just behind it, if and only if at most its last byte is missing; otherwise a proper part was passed on, and 0 is returned all the same |
| HttpBody.FixedBodyExactly | src/http.c:455-491 | With a length, the body is passed on whole exactly when it is all there, and the call fails if the callback refuses it; without one, nothing is read and the stream is moved back |
| UrlCodec.EncodeReserved | src/http.c:32-70 | The loop fills the buffer with the encoding and a NUL and stays within three bytes for one |
| UrlCodec.EncodedForm | src/http.c:20-70 | At most three bytes for one; unreserved-flagged bytes and percent signs with two upper-case digits, one after another, and nothing else |
| UrlCodec.EncodeByteExactly | src/http.c:20-70 | Letters and - . _ ~ are kept; every other byte becomes a percent sign and two capital digits |
| UrlCodec.DecodeInPlace | src/http.c:72-105 | In place, with the write cursor never ahead of the read cursor, the loop decodes what the buffer held, or reports a malformed triple |
| UrlCodec.DecodeExactly | src/http.c:72-105 | Any run of bytes and escapes, their digits in either case, decodes to what it stands for, up to a NUL; a percent sign without two digits makes it fail |
| UrlCodec.PiecesOf | src/http.c:72-105 | Every string is such a run, and then an end, a NUL or a malformed escape |
| UrlCodec.UrlRoundTrip | src/http.c:32-105 | Decoding what encoding made restores every byte string |
| PathStack.DavEditor.CurrentPath | src/dav.c:132-161 | The buffer is exactly as long as the names joined with slashes and a NUL, and holds them |
| PathStack.DavEditor.ElStart | src/httpproto.c:356-627 | What the start of an element asks of the file editor, and the stack it leaves |
| PathStack.DavEditor.ElEnd | src/httpproto.c:629-709 | What the end of an element asks, and the stack it leaves |
| PathStack.PathsAgree | src/httpproto.c:356-709 | For any well-named document whose deletes succeed, the calls and their paths are those of the document tree, and the stack after an element is the stack before it |
| PathStack.DeleteRestoresExactly | src/httpproto.c:582-620 | A delete leaves the stack as it was if and only if it succeeds; a failed one leaves its name on it |
| PathStack.NamelessPopsParent | src/httpproto.c:356-709 | An element without a name asks for nothing at its start, but the root if it opens a directory; its end all the same closes a file and takes its parent off the stack |

## Left out

- Sockets, SSL, reconnecting and address lookup: a stream is a byte sequence delivered in reads of any size.
- The mrkcommon library: not part of this model; buffers are byte sequences with absolute offsets, and recycling a buffer keeps unread bytes, so that it does nothing here. Paths are joined by the library; here a path is used as given.
- Symbolic links, file modes and file properties: only regular files and directories are modelled; property commands are among those that do nothing.
- Allocation failures, failing writes, seeks and truncations, and other places where the program ends itself: such a run has no result here, or the result `ABORTED`.
- MD5, zlib, base64, Berkeley DB and expat: a hash function, an inverse pair, a map and a given event sequence. Base64 and the collecting of character data in src/httpproto.c are not modelled.
- HTTP status lines and header lines, request building, WebDAV property requests and src/xmatch.c.
- The senders of the individual ra_svn commands, which hand fixed items to the packer modelled here, and the argument parsing, lock file, tracing and dumps around the core. Authentication is over before the editor loop starts.
- Numbers the code keeps in an int or a pointer difference (buffer lengths, chunk offsets, counters) are unbounded, except where the width decides: base-128 values, chunk sizes and decimal numbers are cut or clamped as the code does it.
- C strings: names, paths, tokens and checksums are compared as whole byte strings; a NUL inside one is not given a meaning. Checksums are compared whole instead of by their first 32 characters.
- TargetView.BuildTview: a window of negative length ends the program, as a failing allocation does; at length -1, for which malloc(0) may succeed, the program may go on. Where C leaves the result undefined (an access outside a buffer, a sum out of the range of a long, a missing data section) the call has no result here. pread is taken to refuse negative lengths.
- SvndiffLaws.CutExactly: what a call reads past the end of a chunk is whatever the stream buffer holds there; the model gives it no meaning.
- SvnEditRun.RunConverges: when an edit is closed whose delta has no windows and which has no open file to work on, creating its file must not fail; `CloseHoldsExactly` shows what happens otherwise. Commands that only trace are not counted among those whose system calls fail.
- SvnEdit.Editor.DeletePath: the recursive removal is one step that either takes everything or fails and leaves an arbitrary set of survivors; its order is not modelled.
- SvnEdit.Editor.Dispatch: paths are taken to be canonical and, but for the root, not empty. Deleting the empty path, with which the program would traverse the whole working copy, takes away nothing here, and a path with a doubled or a trailing slash is another path.
- Svndiff.SvndiffDoc.ParseOne: the version is a plain char, taken to be signed. Where it is unsigned the version is never -1 and a close always checks and writes the target.
- SvnEdit.Editor.EnsureDir: a failing lstat means that nothing is there.
- SvnEdit.Editor.SaveChecksum: every save in the program's life goes to one database; the database file itself is not modelled.
- Unpack.RunVunpack: where the reader stands after an error is left open. The spec letters S and r with their callbacks are modelled where they are used, in ProtoEditor; values are returned as a list.
- ProtoEditor.Session.Unpack2: after arguments that do not unpack, the record of the current file is left as it was; the program has by then cleared it for open-file and add-file and may have filled some of its fields. Working copy and database are not affected, and the loop ends.
- ProtoEditor.Session.Run: starts behind authentication, with the flags clear, as in a fresh process.
- SvnEditResume.ResumedRunAgrees: no system call fails in either run, and an edit's source and target text do not share a hash without being equal.
- Repair.Checker.CheckIntegrity: where the program exits, at a file it cannot open or directories it cannot make, nothing is said of the rest.
- SvnEditResume.InterruptedRunAgrees: a path is edited once, unless it was removed before, and directories come before what is in them. A signal during a call of the database library, and SIGKILL, are not modelled.
- HttpBody.BodyParser.ParseBody: starts at the first byte of the body. A blank line where a chunk size is due is left open, because what strtol makes of it depends on what has arrived. The callback's answer is a function of what it has been given.
- UrlCodec.EncodeReserved: the 32-bit counters of the loop are unbounded here.
- PathStack.DavEditor.ElStart: attributes are given as an optional name; a missing revision on open-file, which the code passes to strtol, is not modelled.
- PathStack.PathsAgree: what the file editor does with the calls is its answer, of which only the success of deletes matters; the link to SvnEdit is made for ra_svn only.
