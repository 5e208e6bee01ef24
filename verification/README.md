# A verified model of the zekyll manager and the libgit2 parts it relies on

The manager shows and edits repositories of zsh sections and describes a selection of them by
a short text, a Zcode; underneath it works with libgit2. This project models those parts of
both that transform data and have to be undone again, or that change shared state step by
step, and proves what they are for:

- **Binary deltas** (`RabinTables`, `Rabin`, `DeltaIndexes`, `DeltaFormat`, `DeltaOffsets`,
  `DeltaEncoder`, `DeltaDecoder`): the chained hash index with its rolling fingerprint, the
  greedy encoder with its back-patched inserts, and the decoder. Whatever is encoded decodes to
  the target, exactly up to where copy offsets are read as negative numbers.
- **Blame** (`BlameModel`, `BlameRun`, `BlameTheory`, `BlameExact`, `BlameLimit`, `BlameFork`,
  `BlameBoard`, `BlameFile`, `BlameTidy`): the linked list of line ranges that is split and
  handed from commit to parent, proved equal to a run over single lines, which in turn is
  sound, ends, and is exact; and for which commit graphs it treats each line on its own.
- **Configuration files** (`ConfigText`, `ConfigParse`, `ConfigRewrite`, `ConfigLines`,
  `ConfigTheory`, `ConfigValues`, `ConfigExact`, `ConfigPattern`, `ConfigSwallow`,
  `ConfigReplace`, `ConfigReads`, `ConfigReader`, `ConfigFile`, `ConfigBackend`): the parser and
  what it makes of lines as people write them, the callbacks that write the file anew with one
  key changed, and the operations on top. Setting a key, with or without a pattern, changes that
  key and nothing else, under conditions that are necessary as well.
- **Zcodes** (`ZcodeMath`, `ZcodeCode`, `ZcodeMeta`, `Zcode`, `ZcodeTheory`): bits packed in
  base 2^24 and divided into base 36, the variable-length code of the meta-data, and when a
  whole Zcode gives back what it was made of.
- **Smaller inverses and refinements**: signatures in commits (`CommitSignature`), weighted
  edit distance (`EditDistance`), the reference-counted object cache (`CacheModel`,
  `ObjectCache`), the line ending filter (`LineEndings`, `CrlfFilter`, `CrlfSettings`), quoting
  (`Quoting`), base64 and base85 (`BaseCodes`) and the message list (`Messages`).

Loops and changing objects of the source are methods with loops and classes here. Each is
proved against a function over values, and the theorems are about those functions. `Options`
and `Bytes` hold two shared types. `dafny verify dfyconfig.toml` checks everything.

## Where the code differs from what it says

- The fourth byte of a copy offset is shifted as an int (libgit2/src/delta.c:574), so that an
  offset of 2^31 or more is sign-extended to 64 bits. A delta with such a copy is refused
  (`DeltaOffsets.FarCopyFails`), though the encoder puts them out for bases above 2^31 bytes;
  and since the check at line 581 adds in 64 bits, a copy can also wrap around and take bytes
  from before the base (`DeltaOffsets.BeforeTheBase`).
- A delta's 32-bit buffer size is multiplied by 3 before it is halved, so that it wraps once the
  output reaches 1,570,824,137 bytes. The documented limit of 64 entries in a bucket is not
  kept: the thinning leaves 128 to 255 in long buckets, does nothing to those of 128 to 255,
  and cuts those of 64 to 127 down to one.
- When all pending bytes are taken back, the encoder stores the count -1 where the copy
  operation begins, which overwrites it at once.
- Blame overwrites the limit commit it was given with every commit without parents that it
  decides, so that the limit can be lost (`BlameTheory.LimitIsLost`), and a line that has been
  decided there is handed on after all (`BlameExact.LateHandOver`). Neighbouring entries are
  never joined: the call comes after the return.
- A configuration file that breaks off is rewritten all the same, as far as it was read, because
  the result of the last callback replaces that of the parse: everything from the first line
  that cannot be read on is lost (`ConfigLines.BrokenIsCut`). A byte order mark is not written
  again. A value set with a pattern is not escaped. Text put behind a variable that asks for
  another line becomes part of its value. A tab or backspace in the subsection of a new header,
  and carriage return, form feed or vertical tab at the ends of a value that is not quoted, do
  not come back.
- A Zcode whose meta-data ends in `W`, or with meta-data and no selector set, does not come back.
- Extracting a signature drops the start of a header line whose name merely begins with the name
  of the field.

## Model

| member | source | states |
|---|---|---|
| DeltaDecoder.GitDelta | libgit2/src/delta.h:61-84 | The round trip: for base and target below 2^32 bytes a delta that is returned stands for exactly the target, in inserts of 1 to 127 and copies of 1 to 65536 bytes, and is no longer than a limit that was set; applied, it gives the target if the base has at most 2^31 bytes, and in general exactly if no copy begins at 2^31 or later. Otherwise one side is empty, the limit is passed, or the buffer size leaves 32 bits, never below 785,412,064 bytes of target; for a base of at most 16 bytes an if-and-only-if on the sizes says which. |
| DeltaEncoder.CreateFromIndex | libgit2/src/delta.c:270-449 | The encoder on any valid index: what it returns stands for the target; too long only where a limit below 10 + 2 * target was set; the buffer size wraps only where the output can reach 1,570,824,137 bytes and no limit stops it before. Where nothing is indexed each outcome has its exact condition on the sizes. |
| DeltaEncoder.Encoder.FirstWindow | libgit2/src/delta.c:317-326 | After the first window the invariant holds: the header, a count slot and the bytes seen so far, and a fingerprint computed from scratch over them. |
| DeltaEncoder.Encoder.Step | libgit2/src/delta.c:327-420 | One round of the main loop keeps the invariant (what is emitted decodes to the target before the pending insert, the match is a match, the fingerprint is that of the last sixteen bytes), emits a literal exactly if the best match has less than four bytes, and otherwise copies along the diagonal of that match; the match is what is left of a long one or the longest that the bucket of the fingerprint of the next window leads to. |
| DeltaEncoder.Search | libgit2/src/delta.c:333-352 | The match found is one, is at least as long as the one before, and below 4096 bytes no entry of the chain with the fingerprint has a longer one, though the search stops at the first entry with too little left of the base. |
| DeltaEncoder.Encoder.Literal | libgit2/src/delta.c:355-364 | One more byte joins the pending insert, whose slot is reserved with its first byte and whose count is filled in at 127; the invariant holds. |
| DeltaEncoder.Encoder.TakeBack | libgit2/src/delta.c:369-384 | Pending bytes are taken back as long as they agree with the base before the match, and no further; what is left becomes a complete insert; data and match keep their distance. |
| DeltaEncoder.Encoder.CopyMatch | libgit2/src/delta.c:386-419 | At most 65536 bytes of the match become one copy operation, put at the end of the output; the rest remains a match; the fingerprint is that of the sixteen bytes before the new position. |
| DeltaEncoder.Encoder.PutCopyBytes | libgit2/src/delta.c:390-407 | The operand bytes that are not zero are stored, and the command byte, filled in last, has just their flags. |
| DeltaEncoder.Encoder.PutSize | libgit2/src/delta.c:296-310 | The bytes of a size are appended, seven bits at a time. |
| DeltaEncoder.Encoder.Grow | libgit2/src/delta.c:422-434 | There is room for more than the next operation afterwards, with the contents kept; the run stops exactly if room is short and the limit is passed; the 32-bit product wraps only at the last scheduled size. |
| DeltaEncoder.ScheduledFacts | libgit2/src/delta.c:424-424 | The buffer sizes follow a fixed schedule from 8192; of its thirty-one sizes only the last, 1,570,824,171, has a product with 3 that leaves 32 bits. |
| DeltaEncoder.NextSizeIsEnough | libgit2/src/delta.c:422-429 | Growing stays on the schedule, or on the size that the limit allows, and leaves more room than an operation takes. |
| DeltaEncoder.Encoder.Turn | libgit2/src/delta.c:327-435 | One turn of the loop with its growth: it stops only past a limit, overflows only at the last size, and puts out inserts only where nothing is indexed. |
| DeltaEncoder.Encoder.MainLoop | libgit2/src/delta.c:327-435 | The loop runs to the end of the target, with the output below the last scheduled size where no limit would stop it, or stops past a limit or at that size; with nothing indexed it puts out inserts only. |
| DeltaEncoder.Encoder.Finish | libgit2/src/delta.c:437-448 | The pending insert is completed, and what is returned is a delta for the target unless it is past the limit. |
| DeltaEncoder.LiteralKeeps | libgit2/src/delta.c:355-364 | The invariant on the emitted bytes under one literal, with and without a full insert. |
| DeltaEncoder.BackKeeps | libgit2/src/delta.c:370-381 | The invariant under taking one pending byte back, the count slot going with the last of them. |
| DeltaEncoder.CopyKeeps | libgit2/src/delta.c:386-411 | The invariant under one copy of bytes that match. |
| DeltaEncoder.FlushKeeps | libgit2/src/delta.c:382-383 | Filling in the count makes the pending bytes a complete insert operation. |
| DeltaFormat.SizeRoundTrip | libgit2/src/delta.c:458-480 | A size that is written is read back, with its length, whatever follows, up to 32 bits. |
| DeltaFormat.SizeIsSum | libgit2/src/delta.c:296-310 | A size is written in groups of seven bits, the least significant first, with the high bit set in all bytes but the last and no group too many. |
| DeltaFormat.CopyOpReadsBack | libgit2/src/delta.c:390-407 | The operand bytes of a copy are read back as its 32-bit offset and its length, 65536 being written as 0. (What the decoder makes of the offset: DeltaOffsets.) |
| DeltaFormat.InsertOpReadsBack | libgit2/src/delta.c:588-599 | An insert operation is read back as its bytes. |
| DeltaFormat.CopyReads | libgit2/src/delta.c:566-586 | Every copy, whichever of its seven operand bytes are there: the offset from four, the length from three, with missing ones as 0 and a length of 0 as 65536. |
| DeltaFormat.OpIs | libgit2/src/delta.c:566-603 | A copy is refused exactly if operand bytes are missing; the command 0 and an insert of more than is left are refused; any other insert is read as its bytes. |
| DeltaFormat.CopyOutside | libgit2/src/delta.c:581-584 | A copy from beyond the end of the base is refused. |
| DeltaFormat.ApplyIs | libgit2/src/delta.c:545-609 | Behind the two sizes: the operations are applied exactly if the first is the size of the base and they write as much as the second says. |
| DeltaFormat.RunAppend | libgit2/src/delta.c:564-607 | What operations stand for is sequential: those that are well formed, followed by others, write what the first write and then what the others write. |
| DeltaFormat.RunCopy | libgit2/src/delta.c:566-586 | Appending a copy to operations appends that range of the base to what they stand for, with offsets taken as unsigned. |
| DeltaFormat.RunInsert | libgit2/src/delta.c:588-599 | Appending an insert appends its bytes to what they stand for. |
| DeltaDecoder.HdrSz | libgit2/src/delta.c:458-480 | The loop of hdr_sz computes the size and position of the reading function, groups beyond 32 bits being cut off. |
| DeltaDecoder.GatheredFromScratch | libgit2/src/delta.c:458-480 | Summing from the front gives the same size as the recursive definition that the round trip is proved for. |
| DeltaDecoder.ReadCopy | libgit2/src/delta.c:569-579 | The operands read from the delta are those of the operation at its position, the offset sign-extended from 32 to 64 bits as the shift of the fourth byte does, or the delta ends before them. |
| DeltaDecoder.RunInPlace | libgit2/src/delta.c:564-609 | The loop over the operations, writing in place, succeeds exactly if the decoding with sign-extended offsets and wrapping sums does and fills the result, and then the result is what that writes. |
| DeltaDecoder.ApplyDelta | libgit2/src/delta.c:527-619 | git_delta_apply fails exactly where the decoding function has no result, and otherwise returns it in a fresh buffer; bytes from before the base included, where a copy wraps around. |
| DeltaDecoder.Fetch | libgit2/src/delta.c:581-583 | The bytes of a copy that has passed the check, from the base or, where the sum has wrapped around, from before it. |
| DeltaOffsets.AppliedIff | libgit2/src/delta.c:571-583 | A well-formed delta gives what it stands for exactly if none of its copies begins at 2^31 or later; otherwise it is refused. |
| DeltaOffsets.SmallBaseApplies | libgit2/src/delta.c:571-583 | With a base of at most 2^31 bytes every well-formed delta gives what it stands for. |
| DeltaOffsets.FarFails | libgit2/src/delta.c:571-583 | A family of inputs for which the round trip fails: a larger base that begins with 2^31 zeros and a target without a zero; every delta for it that is no longer than the target is refused. |
| DeltaOffsets.FarCopyFails | libgit2/src/delta.c:571-583 | The least of them: one copy of eight bytes from 2^31 on is refused. |
| DeltaOffsets.BeforeTheBase | libgit2/src/delta.c:571-583 | A delta of eight bytes on a base of sixteen passes the check through the wrapping sum and copies the sixteen bytes before the base. |
| DeltaIndexes.Init | libgit2/src/delta.c:145-250 | No index exactly for an empty base; otherwise every block of the base has its fingerprint in the index, each entry lies in its bucket, stands for sixteen bytes that have its fingerprint, the number of buckets is the least power of two from 16 on that is a quarter of the number of blocks, and the chains are the full ones after the thinning. |
| DeltaIndexes.BucketIsRest | libgit2/src/delta.c:331-333 | The bucket of a fingerprint is its remainder by the number of buckets. |
| DeltaIndexes.DeltaIndex.Push | libgit2/src/delta.c:211-216 | A new entry heads the chain of its bucket; all entries stay on their chains. |
| DeltaIndexes.DeltaIndex.Fill | libgit2/src/delta.c:199-218 | After the loop from the last block to the first all fingerprints of blocks are in the index, each entry is on the chain of its bucket, and the counts are the lengths of the chains. |
| DeltaIndexes.DeltaIndex.Cull | libgit2/src/delta.c:220-245 | Every bucket's chain becomes its thinned form, and the index stays valid. |
| DeltaIndexes.CullChain | libgit2/src/delta.c:233-244 | Relinking in place leaves the chain of the survivors and touches no entry of another chain. |
| DeltaIndexes.ThinKeepsMultiples | libgit2/src/delta.c:233-244 | The survivors are the entries at multiples of the distance, all of them: none is invented, moved or reordered. |
| DeltaIndexes.CulledLength | libgit2/src/delta.c:220-245 | How many entries the thinning leaves: a bucket of 64 to 127 keeps one, one of 128 to 255 all, a longer one 128 to 255, so that the limit of 64 named in the source is not kept. |
| DeltaIndexes.CullTable | libgit2/src/delta.c:232-245 | Thinning one bucket leaves all other chains and the table in order. |
| DeltaIndexes.DeltaIndex.ChainOrder | libgit2/src/delta.c:199-218 | Later entries of a chain lie further on in the base, which is why the search may stop where too little is left. |
| Rabin.RollIsWindowHash | libgit2/src/delta.c:330-331 | The rolling update with U and T gives the fingerprint of the next window, computed from scratch. |
| Rabin.StepStaysBelow31Bits | libgit2/src/delta.c:330-332 | A step never sets the top bit, so that the index into T stays below 256. |
| DeltaIndexes.DeltaIndex.KeepLowest | libgit2/src/delta.c:206-208 | Of consecutive blocks with one fingerprint the lowest is kept, and the entry still stands for one. |
| Rabin.StepIsLinear | libgit2/src/delta.c:330-331 | A step is linear over exclusive or in fingerprint and byte. |
| Rabin.FifteenZerosAreU | libgit2/src/delta.c:62-106 | U holds what a byte leaves of itself after fifteen zero bytes, for all 256 of them. |
| Rabin.Fingerprint | libgit2/src/delta.c:413-418 | The loop computes the fingerprint of the sixteen bytes from a position on. |
| RabinTables.TIsLinear | libgit2/src/delta.c:16-60 | Every entry of T is the exclusive or of the entries of its bits. |
| RabinTables.UIsLinear | libgit2/src/delta.c:62-106 | Every entry of U is the exclusive or of the entries of its bits. |
| BlameFile.BlameInternal | libgit2/src/blame.c:313-352 | Each line from min_line to max_line, or to the last of the file if that is not set, is in exactly one hunk, and no other line is in any; the hunks say of each line what the run over single lines comes to; it fails exactly if that run fails. |
| BlameFile.BlameReadsAlike | libgit2/src/blame.c:313-352 | Soundness for a caller: every line of every hunk that stands for a line of the final file reads like it, in the file and at the line it is blamed on, whatever the repository answers. |
| BlameFile.Blame.LikeGit | libgit2/src/blame_git.c:619-653 | The rounds over the linked list end, keep it sorted and tiling the range, and leave on every line what the run over single lines leaves. |
| BlameFile.Blame.PassBlame | libgit2/src/blame_git.c:498-591 | One pass of blame over the list does to every line what it does to single lines, the overwritten limit and the number of lookups included. |
| BlameFile.Blame.GatherOrigins | libgit2/src/blame_git.c:523-560 | The origins found in the parents, up to one that is the same file, the first of several with one content. |
| BlameFile.Blame.PassToEach | libgit2/src/blame_git.c:562-578 | Blame goes to one origin after the other until a diff fails or nothing is left. |
| BlameFile.DrainHunks | libgit2/src/blame.c:341-349 | The list becomes the hunks in its order. |
| BlameFile.HunksReport | libgit2/src/blame.c:281-295 | Hunks made of entries that tile a range tile it too, counted from 1, and say of each line what the entries say. |
| BlameFile.OneEntry | libgit2/src/blame.c:325-336 | One undecided entry covers the requested lines. |
| BlameTheory.RunSound | libgit2/src/blame_git.c:619-653 | If every line reads as in the final file to begin with, it does after a run, and every line is decided: the invariant over whole runs. |
| BlameTheory.RoundSound | libgit2/src/blame_git.c:498-591 | The invariant over one round. |
| BlameTheory.TraceIsExact | libgit2/src/blame_git.c:498-591 | The way of one line on its own ends only where history stops, or where the line is among those added by the diff against each parent origin that is tried. |
| BlameTheory.BlameIsTrace | libgit2/src/blame_git.c:619-653 | With answers that do not depend on when they are asked for and a limit that stays firm, blame of a range is blame of each line alone: the order of suspects, splits and neighbours make no difference. (Exactly when a limit stays firm: FirmIff.) |
| BlameTheory.LimitIsLost | libgit2/src/blame_git.c:513-516 | A history in which they do: the limit is overwritten by a commit without parents, after which another line passes the commit it should have stopped at. |
| BlameFork.FirmIff | libgit2/src/blame_git.c:498-517 | Exactly when the limit stays firm, on the commit graph alone: blame of a range is blame of each line for all files and steady answers if and only if the limit cannot be reached, has no parents, or no commit without parents can be reached. |
| BlameFork.LimitFails | libgit2/src/blame_git.c:498-517 | The necessary half: for every other graph a history on it in which a line passes the limit, built from two ways that fork. |
| BlameLimit.FirmHolds | libgit2/src/blame_git.c:498-517 | The sufficient half. |
| BlameExact.RoundExact | libgit2/src/blame_git.c:498-648 | A round decides a line only in its own origin, where it stands, and only if it is new there: history stops, or each origin in a parent was compared and its diff adds the line. For all answers, whenever they are asked for, and any limit. |
| BlameExact.RunIsExact | libgit2/src/blame_git.c:619-653 | Whole runs: each line is decided in one round on those grounds, and the result names that origin exactly if no later round hands the decided line on; otherwise it reads the same where it is. |
| BlameExact.NewMeans | libgit2/src/blame_git.c:498-582 | What such grounds come to: the line is at the boundary exactly if its commit is the limit or has no parents; otherwise no parent that is looked at (only the first, if that is asked for) has the file unchanged, and for each that has it at all the diff against its content adds the line. |
| BlameExact.GatherExact | libgit2/src/blame_git.c:525-566 | The origins to try: each parent is asked once and in order; the first with the file unchanged takes everything and ends the search; otherwise every content that was found is tried, once, and nothing else. |
| BlameExact.RunOnMainline | libgit2/src/blame_git.c:505-511 | Following first parents only, every line of a run ends in a commit on the chain of first parents. |
| BlameExact.DecidedMoves | libgit2/src/blame_git.c:481-496 | A decided line moves exactly if its origin comes under suspicion again and a parent has the same file. |
| BlameExact.InsideIsFinal | libgit2/src/blame_git.c:498-591 | With steady answers only a line decided at the boundary can be handed on. |
| BlameExact.LateHandOver | libgit2/src/blame_git.c:481-517 | A history in which one is: decided at the limit, and handed on to its parent after the limit has been overwritten. |
| BlameRun.RoundDescends | libgit2/src/blame_git.c:619-648 | Each round decreases the sum of commit rank + 1 over open lines, so that the loop ends on every acyclic history. |
| BlameRun.OpenLines | libgit2/src/blame_git.c:98-117 | Looking at entries finds the same as looking at lines: whether the suspect has open lines, and that they end before a line. |
| BlameRun.FirstOpenEntry | libgit2/src/blame_git.c:625-630 | The suspect of the first undecided entry is that of the first open line. |
| BlameBoard.Board.BlameChunk | libgit2/src/blame_git.c:295-314 | Walking the list while splitting it gives the list in which every entry is split once. |
| BlameModel.ChunkKeeps | libgit2/src/blame_git.c:295-314 | The list stays in order, without gaps or empty entries, and every open line of the target in the stretch is handed to the parent's line across it, all others staying as they are. |
| BlameModel.SplitLines | libgit2/src/blame_git.c:133-170 | Splitting an entry in up to three redirects exactly its lines within the stretch. |
| BlameModel.EmitAllPasses | libgit2/src/blame_git.c:316-328 | All stretches of a diff, one call after the other, do to each line what looking it up in the hunks does. |
| BlameModel.SourceLineAgrees | libgit2/src/blame_git.c:316-328 | A line that has a line in the old file, according to the hunks, reads the same there. |
| BlameModel.NoSourceIsInHunk | libgit2/src/blame_git.c:316-328 | The lines without one are exactly those that the hunks added. |
| BlameBoard.Board.PassBlameToParent | libgit2/src/blame_git.c:383-405 | Does to every line what the diff says, fails exactly if the diff does, and reports that nothing is left exactly if no line of the suspect is open. |
| BlameBoard.SplitOverlap | libgit2/src/blame_git.c:133-170 | The parts are those of the value-level split; they follow each other and cover the entry. |
| BlameBoard.Board.SplitBlame | libgit2/src/blame_git.c:221-257 | The parts take the place of the entry in the linked list, which stays linked both ways. |
| BlameBoard.Board.BlameOverlap | libgit2/src/blame_git.c:274-293 | The entry is replaced by its parts, or stays if nothing of it goes to the parent. |
| BlameBoard.Board.AddEntry | libgit2/src/blame_git.c:176-196 | The entry is linked in at the place of its line number, all others staying in order. |
| BlameBoard.Board.Link | libgit2/src/blame_git.c:185-195 | Linking in behind a node, or in front, keeps the list doubly linked. |
| BlameBoard.Board.Replace | libgit2/src/blame_git.c:203-215 | The entry takes on other contents and keeps its place in the list. |
| BlameBoard.Board.FindLast | libgit2/src/blame_git.c:98-117 | Found exactly if the suspect has open lines, with a line number behind all of them. |
| BlameBoard.Board.HandOver | libgit2/src/blame_git.c:481-496 | Every line of the suspect, decided or not, goes to the origin; the others stay. |
| BlameBoard.Board.TakeResponsibility | libgit2/src/blame_git.c:638-646 | What the suspect still has is decided, with the mark of the boundary; the others stay. |
| BlameBoard.Board.FindSuspect | libgit2/src/blame_git.c:625-630 | The suspect of the first open line, or none if all are decided. |
| BlameTidy.TrimCommonTail | libgit2/src/blame_git.c:330-352 | Both files lose the same tail, and lose it at the end of a line: of the longest common tail in whole blocks of 1024 bytes, all behind its first newline. |
| BlameTidy.TrimKeepsDiffs | libgit2/src/blame_git.c:354-372 | A correct diff of what is left is a correct diff of the files. |
| BlameTidy.CoalesceKeeps | libgit2/src/blame_git.c:598-617 | Joining neighbours changes nothing for any line and leaves none to join. (The call is never reached.) |
| ConfigExact.SetWorksIff | libgit2/src/config_file.c:1887-1959 | Exactly when setting a key of a readable file works (the new file reads, the key is bound once to the value, all other entries are unchanged and in order): if the value does not lose spaces at its ends and, where something is put at the end of the file, no variable dangles there and a new section header reads as it should. |
| ConfigExact.SetIfCan | libgit2/src/config_file.c:1887-1959 | The sufficient half, from conditions a caller can check. |
| ConfigReplace.ReplaceWorksIff | libgit2/src/config_file.c:560-591 | Exactly when setting with a pattern works (the new file reads, accepted values are the new one, all else is unchanged and in order): the value is plain and, where it is put at the end, no variable dangles there and a new header reads as it should. For values without newlines. |
| ConfigReplace.ReadsAsWrittenIff | libgit2/src/config_file.c:560-591 | The same for all values, where the new file is also to read as the very lines that were put out. |
| ConfigReplace.DanglingFails | libgit2/src/config_file.c:1853-1882 | Behind a variable that dangles it never works. |
| ConfigPattern.ReadBackIff | libgit2/src/config_file.c:1693-1754 | A value written without escapes reads back as itself exactly if it has no quote, backslash or newline and is put between quotes or has no spaces at its ends. |
| ConfigSwallow.OnlyPlainStays | libgit2/src/config_file.c:1342-1388 | In a file as well, whatever lines come behind: a raw value that takes them in never comes to itself. |
| ConfigSwallow.BlocksContinue | libgit2/src/config_file.c:1342-1388 | What lines of a file add to a value has an equals, bracket or comment sign before any quote or backslash. |
| ConfigExact.DanglingTakesAll | libgit2/src/config_file.c:1853-1882 | Text put behind a variable that asks for another line becomes part of its value, so that setting never works there. |
| ConfigExact.HeaderMisses | libgit2/src/config_file.c:1663-1691 | A new header whose subsection holds a tab or a backspace reads as another section, so that setting never works there. |
| ConfigTheory.SetOnly | libgit2/src/config_file.c:1756-1882 | After rewriting for a set or a delete the text parses, the other entries are what and where they were, and the key is there once with what its line reads as, or not at all. |
| ConfigTheory.ReplaceMatching | libgit2/src/config_file.c:1792-1841 | With a pattern every value of the key that it accepts is replaced or dropped where it stands, all else stays, and a value is added only if none was accepted. |
| ConfigLines.LinesStay | libgit2/src/config_file.c:1722-1882 | All lines but those of the key, comments and headers included, are in the new text as they were, in order; at most a header at the end is new. Comments that wait in their buffer are never lost or moved past another line. |
| ConfigLines.BlocksCover | libgit2/src/config_file.c:1481-1541 | The blocks of a readable file are all of its text but for spaces after the last. |
| ConfigLines.BrokenIsCut | libgit2/src/config_file.c:1887-1959 | A file that breaks off is written as if it ended there: what cannot be read and all behind it is lost, what stands before is put out as for a file of just that. |
| ConfigLines.WrittenLost | libgit2/src/config_file.c:1853-1882 | After a header that cannot be read, the difference is one more header before the value that goes to the end, though its section is open. |
| ConfigTheory.RewrittenParses | libgit2/src/config_file.c:1887-1959 | The new text parses into exactly the blocks that were put out. |
| ConfigTheory.AppendsUnlessPlaced | libgit2/src/config_file.c:1853-1882 | Something is put at the end of the file exactly if the key was not found in it and its section not left again. |
| ConfigRewrite.WrittenSets | libgit2/src/config_file.c:1756-1882 | The same as SetOnly on blocks, over all states of the writer. |
| ConfigRewrite.WrittenReplaces | libgit2/src/config_file.c:1792-1882 | The same as ReplaceMatching on blocks, over all states of the writer. |
| ConfigParse.NextLocal | libgit2/src/config_file.c:1481-1541 | A block that was found in a file is found again wherever its text stands with its newline, so that blocks can be put together anew. |
| ConfigParse.DanglingAlone | libgit2/src/config_file.c:1342-1388 | A variable that dangles takes the rest of the file, and reads the same with its newline restored. |
| ConfigParse.BlocksStand | libgit2/src/config_file.c:1481-1541 | All blocks of any file stand on their own, but for a dangling variable at its end. |
| ConfigParse.BlocksOfTexts | libgit2/src/config_file.c:1481-1541 | Texts of blocks that stand on their own parse into those blocks. |
| ConfigText.ReadLineLocal | libgit2/src/config_file.c:943-985 | A line reads the same with its newline restored and whatever comes after it. |
| ConfigText.UnescapeEscape | libgit2/src/config_file.c:1263-1340 | Unescaping an escaped value gives it back, whatever follows. |
| ConfigValues.ValueStands | libgit2/src/config_file.c:1737-1754 | The line of any value stands on its own and reads as what is kept of the value. |
| ConfigValues.QuotedReads | libgit2/src/config_file.c:1693-1754 | A value that is put between quotes reads back as it is. |
| ConfigValues.UnquotedReads | libgit2/src/config_file.c:1693-1754 | A value that is not reads back without the spaces at its ends that are written as they are. |
| ConfigValues.KeptIffKeeps | libgit2/src/config_file.c:1693-1709 | A value is kept exactly unless it is not quoted and begins or ends in carriage return, form feed or vertical tab. |
| ConfigValues.HeaderStands | libgit2/src/config_file.c:1663-1691 | The header that is written stands on its own and reads as the section with its subsection misread. |
| ConfigValues.MisreadIff | libgit2/src/config_file.c:1016-1095 | A subsection is read back as it was exactly if it holds no tab, newline or backspace. |
| ConfigReader.Reader.ParseBlock | libgit2/src/config_file.c:1481-1541 | One round of the parser moves the position over exactly the block found. |
| ConfigReader.Reader.ParseVariable | libgit2/src/config_file.c:1429-1479 | A variable with the lines it continues on. |
| ConfigReader.Reader.ParseMultiline | libgit2/src/config_file.c:1342-1388 | The lines a value continues on: comment lines are passed over, quotes stay open across lines. |
| ConfigReader.Reader.ParseHeader | libgit2/src/config_file.c:1097-1164 | A section header and its line. |
| ConfigReader.Reader.ReadNext | libgit2/src/config_file.c:943-985 | One line without the spaces around it. |
| ConfigReader.Reader.Peek | libgit2/src/config_file.c:919-938 | The next character that is not a space, without moving. |
| ConfigReader.ParseHeaderLine | libgit2/src/config_file.c:1097-1164 | The character loop over a header refines the recursive reading, of which HeaderReads and HeaderRefuses say what it gives. |
| ConfigReader.ParseHeaderExt | libgit2/src/config_file.c:1016-1095 | The loop over a quoted subsection refines the recursive reading, errors included. |
| ConfigReader.StripComments | libgit2/src/config_file.c:1219-1248 | The line is cut at a comment character outside quotes, trimmed, and its quotes are counted. |
| ConfigReader.UnescapeLine | libgit2/src/config_file.c:1296-1340 | Quotes dropped, escapes decoded, unknown ones refused, a backslash at the end asking for another line. |
| ConfigReader.EscapeValue | libgit2/src/config_file.c:1263-1293 | Each character that needs it gets its escape. |
| ConfigReader.SplitName | libgit2/src/config_file.c:1395-1427 | Name and value of a line, or an error. |
| ConfigFile.ReadConfig | libgit2/src/config_file.c:1551-1661 | Reading succeeds exactly if the file parses, with the entries in the order of the file; ConfigReads says what entries its lines give. |
| ConfigReads.SectionSays | libgit2/src/config_file.c:1551-1661 | A header and a variable in any case, with any spaces and a comment: the file is read as one entry, section and name in lower case, the value as it is. |
| ConfigReads.HeaderReads | libgit2/src/config_file.c:1097-1164 | Any header of name characters and dots, whatever follows, is a section named in lower case. |
| ConfigReads.HeaderRefuses | libgit2/src/config_file.c:1139-1142 | Any other character in a header, and a header of no characters, is an error. |
| ConfigReads.SubsectionReads | libgit2/src/config_file.c:1016-1095 | With a quoted subsection the base is lower-cased, and the subsection keeps its case, without the backslashes before quotes and backslashes. |
| ConfigReads.ValueReads | libgit2/src/config_file.c:1429-1479 | Name, equals sign and plain value between any spaces and before any comment: the variable with just that value. |
| ConfigReads.NameReads | libgit2/src/config_file.c:1441-1446 | A name alone is a variable without a value. |
| ConfigReads.NameRefuses | libgit2/src/config_file.c:1395-1427 | A line that does not begin with a name, or with anything but an equals sign behind the name, is an error. |
| ConfigReads.QuotedReads | libgit2/src/config_file.c:1219-1340 | A value in quotes comes out as it is whatever signs it holds, comment characters included, with a real comment behind it. |
| ConfigReads.ContinuedReads | libgit2/src/config_file.c:1342-1388 | A backslash before the end of a line joins the next line to the value. |
| ConfigReads.CommentReads | libgit2/src/config_file.c:1516-1526 | Comment lines and empty lines are passed over, one at a time. |
| ConfigReads.EscapesAre | libgit2/src/config_file.c:1259-1340 | The five escapes both ways by their table; any other sign behind a backslash is an error. |
| ConfigReads.CharsAre | libgit2/src/config_file.c:1390-1393 | Which characters a name may have, and which are spaces, by their lists. |
| ConfigReads.KeepsExactly | libgit2/src/config_file.c:1693-1720 | A value is put between quotes exactly if it is empty, begins or ends with a space or holds a comment character; and it comes back exactly if it is, or no carriage return, form feed or vertical tab is at either end. |
| ConfigReads.PlainExactly | libgit2/src/config_file.c:1693-1754 | The same for a value that is set with a pattern and not escaped: no quote, backslash or newline, and quoted or without spaces at its ends. |
| ConfigFile.WriteConfig | libgit2/src/config_file.c:1887-1959 | The parse with the four callbacks, buffering comments, puts out the text of the value-level rewriting, also for a file that breaks off. |
| ConfigFile.WriteData.OnSection | libgit2/src/config_file.c:1756-1790 | Leaving the section puts out the value that has not found its key; then the comments, then the header. |
| ConfigFile.WriteData.OnVariable | libgit2/src/config_file.c:1792-1841 | A variable of the key gives way to the value, or to nothing; others are put out as they are, behind the comments. |
| ConfigFile.WriteData.OnEof | libgit2/src/config_file.c:1853-1882 | The comments, and what has not been written yet, under a new header if needed. |
| ConfigBackend.Backend.Set | libgit2/src/config_file.c:457-513 | Invalid names, keys with several values and values that do not change leave file and entries alone; otherwise the file is rewritten, and where it can be set the key is bound to the value and everything else is as before. |
| ConfigBackend.Backend.Delete | libgit2/src/config_file.c:593-630 | Deleting a key with one value always works: it is gone and everything else as before; otherwise nothing changes. |
| ConfigBackend.Backend.SetMultivar | libgit2/src/config_file.c:560-591 | Every accepted value is replaced, or the value is added if there is none; for values without newlines this comes out exactly under the conditions of CanReplace, which are sufficient for all. |
| ConfigBackend.Backend.DeleteMultivar | libgit2/src/config_file.c:632-676 | Every accepted value is dropped, everything else stays; it fails exactly if the key has none. |
| ConfigBackend.Backend.Get | libgit2/src/config_file.c:525-558 | The last value of the key. |
| ConfigBackend.DeleteWorks | libgit2/src/config_file.c:593-630 | A delete puts nothing at the end of the file, so that it works on every readable file. |
| ConfigBackend.QuoteIsLost | libgit2/src/config_file.c:560-591 | A value set with a pattern is written without escapes: a quote between two words does not come back. |
| ConfigBackend.NormalizedIsKeyName | libgit2/src/config.c:1371-1403 | What normalizing accepts is a key as the theorems above need it. |
| ConfigBackend.NormalizedIs | libgit2/src/config.c:1371-1403 | A key of two parts is taken in lower case if both may be names, and refused otherwise. |
| ConfigBackend.NormalizedWith | libgit2/src/config.c:1371-1403 | What stands between the first dot and the last is kept as it is, and refused only with a newline in it. |
| ConfigBackend.NormalizeSection | libgit2/src/config_file.c:150-171 | Lower case if every character may stand in a name, an error otherwise. |
| ZcodeTheory.ComesBackIff | manager/mainwindow.cpp:1350-1459 | End to end: assembling, encoding, decoding and reading give back the selectors (up to zeros at their end), revision, file, repository and site exactly if there is no meta-data, or some selector is set and the meta-data does not end in W. |
| ZcodeTheory.TypedComesBackIff | manager/mainwindow.cpp:1350-1459 | The same for what a user types: fields with spaces around them come back without those, exactly if all is empty and the site is the first, or some selector is set and the last field, if no site follows it, does not end in W. |
| ZcodeTheory.ZcodeIsNumber | manager/mainwindow.cpp:1350-1459 | A Zcode is a number to the base 36 without leading zeros; in binary it is the selectors from the last to the first, two zeros for the version, and the words between two marks from their end to their start (of which a final W leaves a one and no end mark). |
| ZcodeTheory.TokensAre | manager/mainwindow.cpp:1365-1420 | Between the marks stand revision, file, repository and site in this order, each behind its selector, those that are empty and the first site left out. |
| ZcodeTheory.TwoMarks | manager/coding_functions.cpp:100-109 | Two marks in a row: only one of them is passed over, so that the other reads as selectors. |
| ZcodeMeta.TrimmedIs | manager/coding_functions.cpp:185-185 | A field is spaces, what trimming leaves, and spaces, and what it leaves has none at its ends. |
| ZcodeMeta.KeptPadded | manager/coding_functions.cpp:181-197 | Spaces around a field make no difference to what is kept of it. |
| ZcodeMeta.KnownIs | manager/coding_functions.cpp:186-194 | Of a field the characters with a word are kept, and the others reported, each by itself and in order. |
| ZcodeCode.WordsAre | manager/coding_functions.cpp:331-399 | The word of each character, by its place in the lists of the words of six and of seven bits. |
| ZcodeCode.SelectorWords | manager/coding_functions.cpp:321-327 | The bits of the mark and of the selectors that are written. |
| ZcodeMath.LetterTable | manager/math_functions.cpp:65-77 | The letters of the digits from 0 to 35. |
| ZcodeMath.EncodedIs | manager/math_functions.cpp:217-273 | What bits are encoded as: the digits of their number to the base 36, the first of them not 0. |
| ZcodeMath.NoZerosIs | manager/math_functions.cpp:116-153 | Only zeros in front are lost, and all of them. |
| Zcode.SitesAre | manager/coding_functions.cpp:487-489 | The three sites by their digits, names and indices. |
| ZcodeTheory.EndsInMark | manager/coding_functions.cpp:287-318 | Meta-data looks as if it were closed by a mark exactly if its last character is W. |
| ZcodeTheory.OnlyW | manager/coding_functions.cpp:320-399 | Of all characters only W has a word that ends in the bits of the mark. |
| ZcodeTheory.GoodLayout | manager/mainwindow.cpp:1176-1222 | With a selector set and no W at the end everything is read back. |
| ZcodeTheory.EmptyLayout | manager/mainwindow.cpp:1176-1222 | With meta-data and no selector set, bits are left over that read as selectors. |
| ZcodeTheory.BadLayout | manager/mainwindow.cpp:1176-1222 | With W at the end the selectors never come back. |
| Zcode.Recompute | manager/mainwindow.cpp:1350-1459 | The letters are those of the layout of version, selectors and words, which ZcodeIsNumber spells out; an error exactly if a character has no word. |
| Zcode.ReadZcode | manager/mainwindow.cpp:1176-1222 | What is understood of the letters, bits that are no Zcode counting as none. |
| Zcode.ReadsTokens | manager/coding_functions.cpp:111-141 | Words are read one after the other, with the effect of their symbols on the record. |
| Zcode.FoldTokens | manager/coding_functions.cpp:61-149 | Reading the symbols of the meta-data gives each field back, and the site by its number. |
| ZcodeMath.DecodeEncode | manager/math_functions.cpp:116-153 | Decoding encoded bits gives them without leading zeros. |
| ZcodeMath.EncodeDecode | manager/math_functions.cpp:217-273 | Encoding decoded letters gives them without leading zeros. |
| ZcodeMath.DivideBy36 | manager/math_functions.cpp:404-433 | Long division by 36: value = quotient * 36 + rest, digits stay in range, and error 107 cannot occur. |
| ZcodeMath.DivideBy2 | manager/math_functions.cpp:279-321 | Long division of letters by 2: value = quotient * 2 + rest; an error exactly for what are no letters. |
| ZcodeMath.PackBits | manager/math_functions.cpp:365-398 | Packs of 24 bits from the end; error 106 exactly if something is no bit. |
| ZcodeMath.PacksValue | manager/math_functions.cpp:365-398 | The packs stand for the same number as the bits. |
| ZcodeMath.EncodePacks | manager/math_functions.cpp:236-273 | Repeated division ends and gives the digits of the number in base 36, without an error. |
| ZcodeMath.Encode | manager/math_functions.cpp:217-230 | The letters of the bits; an error exactly if something is no bit. |
| ZcodeMath.Decode | manager/math_functions.cpp:116-153 | Repeated division by 2 ends and gives the bits of the number; an error exactly for what are no letters. |
| ZcodeMath.InBaseOfValue | manager/math_functions.cpp:236-273 | The digits of a number are the sequence it was made of without leading zeros, in every base. |
| ZcodeMath.IntegerToBase36 | manager/math_functions.cpp:36-60 | A number as at least three letters; an error exactly if it is negative. |
| ZcodeMath.Base36ToInteger | manager/math_functions.cpp:162-189 | The number that letters stand for, wrapped around in an int of 32 bits; an error exactly for what are no letters. |
| ZcodeMath.Int32Exact | manager/math_functions.cpp:162-189 | That is the number itself exactly if it is below 2^31. |
| ZcodeMath.NameIsNumber | manager/math_functions.cpp:36-60 | A number written as letters reads back as itself. |
| ZcodeCode.UniquelyReadable | manager/coding_functions.cpp:320-480 | Two sequences of symbols with the same bits are the same. |
| ZcodeCode.ReadsBack | manager/coding_functions.cpp:112-121 | A code word is read as its symbol by trying six bits and then seven, whatever comes behind it. |
| ZcodeCode.ReadIsWord | manager/coding_functions.cpp:112-121 | What is read is a word the bits begin with. |
| ZcodeCode.FailsOnlyShort | manager/coding_functions.cpp:112-125 | The code is complete: error 121 arises exactly where fewer than six bits are left, or six that begin a word of seven. |
| ZcodeCode.MeaningOfCode | manager/coding_functions.cpp:401-480 | Every symbol is the meaning of its word. |
| ZcodeCode.CodeOfMeaning6 | manager/coding_functions.cpp:401-480 | The words of six bits are 0 to 49, each the word of its meaning. |
| ZcodeCode.CodeOfMeaning7 | manager/coding_functions.cpp:401-480 | The words of seven bits are 100 to 127, each the word of its meaning. |
| ZcodeMeta.ProcessMetaData | manager/coding_functions.cpp:61-149 | The loop over the reversed bits with its three ways out refines the recursive reading. |
| ZcodeMeta.BitsForString | manager/coding_functions.cpp:181-197 | The words of the characters that have one, in order; the others are reported, 163 for each. |
| ZcodeMeta.BitsWithPreamble | manager/coding_functions.cpp:199-226 | The word of the selector and those of the text are appended, or nothing if no character of the text has a word; invalid characters are counted in the error. |
| ZcodeMeta.CompareSuffix | manager/coding_functions.cpp:238-283 | Equal exactly if the bits end with the suffix. |
| ZcodeMeta.RemoveIfStartStop | manager/coding_functions.cpp:287-318 | Where the bits end in two marks both are removed, otherwise nothing is; an error exactly if there is none at the end. |
| CommitSignature.ComesBackIff | libgit2/src/commit.c:700-790 | Extracting from the signed commit returns the signature and the content exactly if no header line begins with the name of the field, but for copies of the very signature at the end of the header. |
| CommitSignature.ComesOut | libgit2/src/commit.c:728-769 | The sufficient half, over any header lines already passed. |
| CommitSignature.NothingElse | libgit2/src/commit.c:728-769 | The necessary half. |
| CommitSignature.ValueReadsBack | libgit2/src/commit.c:748-763 | A value of several lines reads back from its continuation lines. |
| CommitSignature.ValueWas | libgit2/src/commit.c:748-763 | What a value was read from is its formatted text. |
| CommitSignature.FormatHeaderField | libgit2/src/commit.c:826-843 | The loop over lines appends the field with continuation lines. |
| CommitSignature.FormatLine | libgit2/src/commit.c:826-843 | The field in full: the name, a space and the first line, and each further line behind a space. |
| CommitSignature.CreateWithSignature | libgit2/src/commit.c:845-885 | The formatted field goes between the newline that ends the header and the first blank line; refused exactly if there is no blank line. |
| CommitSignature.ExtractSignature | libgit2/src/commit.c:700-790 | The scan over header lines refines the recursive extraction, with its three results; it goes on for ever exactly for an empty name whose first line has another behind it and does not begin with a space. |
| EditDistance.Levenshtein | manager/external_functions.cpp:8-54 | No script of puts, inserts, deletes and swaps from left to right that turns string1 into string2 weighs less than the result, and one weighs just that, for any weights, negative ones included. |
| EditDistance.FillRow | manager/external_functions.cpp:24-39 | One row from the two before it: the distances of a prefix to all prefixes. |
| EditDistance.NoneIsCheaper | manager/external_functions.cpp:8-54 | The distance is a lower bound for all scripts. |
| EditDistance.Achieved | manager/external_functions.cpp:8-54 | A script that costs the distance, built. |
| EditDistance.DistanceFits | manager/external_functions.cpp:8-54 | The distance is at most as many times the largest weight as the strings have characters, so that sums stay below 2^31 where that and one weight more does. |
| EditDistance.EachWeight | manager/external_functions.cpp:8-54 | A string can be left alone for nothing; and within a string a substitution, an insertion, a deletion and a swap of neighbours each cost their weight at most. |
| EditDistance.NothingIffSame | manager/external_functions.cpp:8-54 | With positive weights only equal strings have the distance 0. |
| ObjectCache.Library.Store | libgit2/src/cache.c:175-245 | One reference more for the caller, to the entry or to what is stored already; counts and sizes stay right in all caches; what becomes of the table in every case, with eviction and a cache turned off. |
| ObjectCache.Library.Place | libgit2/src/cache.c:175-233 | The same behind the first reference, with what was left in the table when the entry met it. |
| ObjectCache.Library.Insert | libgit2/src/cache.c:196-229 | The entry is put in, or gives way, or takes the place of its raw form, or is left out. |
| ObjectCache.Library.InsertOver | libgit2/src/cache.c:212-229 | Where the id is there already: the caller's reference moves to the stored object, or the parsed form takes the place of the raw one, or nothing happens. |
| ObjectCache.Library.Get | libgit2/src/cache.c:151-173 | Found exactly if the table holds the id in the form asked for; then the caller holds one reference more. |
| ObjectCache.Library.Release | libgit2/src/cache.c:262-281 | A reference given up: the object is freed exactly if neither a caller nor a cache holds it. |
| ObjectCache.Library.ProbeAndEvict | libgit2/src/cache.c:117-139 | The probing ends and has removed exactly eight entries, whatever the seed, even across the wrap of the 32-bit counter. |
| ObjectCache.Library.EvictEntries | libgit2/src/cache.c:115-143 | All of fewer than eight entries go, or eight; all counts stay right. |
| ObjectCache.Library.ClearTable | libgit2/src/cache.c:80-94 | Every reference of the cache is given up, and its memory taken off the shared counter. |
| ObjectCache.Library.constructor | libgit2/src/cache.c:67-77 | Empty caches are sound. |
| ObjectCache.NextPosition | libgit2/src/cache.c:127-130 | The counter modulo the size of the table moves on by one slot, because table sizes divide 2^32. |
| ObjectCache.StepsDescend | libgit2/src/cache.c:127-130 | An empty slot brings the probing nearer to a taken one, so that it ends. |
| CacheModel.DroppedCounted | libgit2/src/cache.c:262-281 | Giving up a reference keeps all counts right and frees exactly at the last. |
| CacheModel.KeptCounted | libgit2/src/cache.c:179-179 | Taking one keeps all counts right. |
| CacheModel.SlotReplaced | libgit2/src/cache.c:219-225 | Replacing an object by another of its id and size keeps the table sound. |
| CacheModel.SlotFilled | libgit2/src/cache.c:202-209 | A new id in a free slot keeps the table sound and the memory counted. |
| CrlfFilter.SurvivesIff | libgit2/src/crlf.c:121-269 | For every setting of attributes, configuration and platform: clean after smudge gives the blob back exactly if it survives by the stated condition. |
| CrlfFilter.PlainSurvives | libgit2/src/crlf.c:121-269 | In particular every blob without carriage returns does, if the file in the index has none. |
| CrlfFilter.ApplyToOdb | libgit2/src/crlf.c:121-184 | The clean filter: what is passed through, refused or converted. |
| CrlfFilter.ApplyToWorkdir | libgit2/src/crlf.c:225-269 | The smudge filter; what it does under each setting is said by SmudgeKeeps, SmudgeConverts and SmudgeLooks. |
| CrlfSettings.SmudgeKeeps | libgit2/src/crlf.c:186-269 | From the setting alone, when every blob comes out as it is: eol=lf, no text, input, or (without eol=crlf) autocrlf false on a platform that does not use CRLF or without any attribute. |
| CrlfSettings.SmudgeConverts | libgit2/src/crlf.c:186-269 | When every newline gets a carriage return: eol=crlf on any platform, or text with autocrlf true, or text with autocrlf false, no eol and a CRLF platform. |
| CrlfSettings.SmudgeLooks | libgit2/src/crlf.c:225-269 | When the blob is looked at first: without attributes and with autocrlf true it is converted exactly if it is no binary and has no carriage return, with text=auto exactly if it is no binary and has no lone one. |
| CrlfSettings.CleanKeeps | libgit2/src/crlf.c:121-184 | Files that go in as they are. |
| CrlfSettings.CleanConverts | libgit2/src/crlf.c:121-184 | Texts lose the carriage return of every newline. |
| CrlfSettings.CleanLooks | libgit2/src/crlf.c:121-184 | Other files are looked at first: the exact conditions under which they pass, are refused, or are converted. |
| LineEndings.ToLfOfCrLf | libgit2/src/buf_text.c:64-153 | crlf_to_lf after lf_to_crlf is crlf_to_lf. |
| LineEndings.ToCrLfTwice | libgit2/src/buf_text.c:111-153 | lf_to_crlf is idempotent. |
| LineEndings.ToLfSame | libgit2/src/buf_text.c:64-109 | crlf_to_lf changes a text exactly if it holds a CRLF, and then shortens it. |
| LineEndings.LineConverts | libgit2/src/buf_text.c:64-153 | What both conversions do with the first line of a text and, after it, the rest: one carriage return before the newline, or none. |
| LineEndings.NothingLacks | libgit2/src/buf_text.c:268-315 | The counts of newlines and of CRLF are equal exactly if there is nothing to convert. |
| LineEndings.CountIs | libgit2/src/buf_text.c:268-315 | What each count counts, by lists of characters. |
| LineEndings.CountOfCrLf | libgit2/src/buf_text.c:268-315 | lf_to_crlf changes none of the counts that the binary check looks at, and the others as stated. |
| LineEndings.BodyOfCrLf | libgit2/src/buf_text.c:268-315 | The Ctrl-Z that is left out of the counts is the same before and after. |
| LineEndings.CrLfToLf | libgit2/src/buf_text.c:64-109 | The scanning loop refines the recursive conversion. |
| LineEndings.LfToCrLf | libgit2/src/buf_text.c:111-153 | The scanning loop refines the recursive conversion; a newline with a carriage return before it keeps just that one. |
| LineEndings.GatherStats | libgit2/src/buf_text.c:268-315 | The counts of the text and the verdict on it. |
| Quoting.UnquoteQuote | libgit2/src/buffer.c:862-1000 | What needed quotes and got them reads back as it was. |
| Quoting.QuotedIsInjective | libgit2/src/buffer.c:862-925 | No two names are quoted alike, whether they need it or not. |
| Quoting.QuotedIs | libgit2/src/buffer.c:862-925 | What comes out is printable, and is the name itself exactly if that is printable without quotes and backslashes and does not begin with an exclamation mark. |
| Quoting.SpacesBehind | libgit2/src/buffer.c:928-940 | Spaces behind the closing quote make no difference to what is read. |
| Quoting.ByteIs | libgit2/src/buffer.c:888-910 | Each character as it is, or behind a backslash its letter, itself or its three octal digits. |
| Quoting.Quote | libgit2/src/buffer.c:862-925 | The buffer as quotes and escapes, or as it was if nothing in it needs them. |
| Quoting.Unquote | libgit2/src/buffer.c:928-1000 | In place: succeeds exactly if the text can be unquoted, with what it reads as in front of the buffer; writing never gets ahead of reading. |
| BaseCodes.Decode85Encode85 | libgit2/src/buffer.c:336-455 | base85: decoding with the original length gives the data. |
| BaseCodes.Digits85 | libgit2/src/buffer.c:347-367 | The five letters are the digits to the base 85 of four bytes as a number, missing ones as 0. |
| BaseCodes.Letters85 | libgit2/src/buffer.c:333-334 | The letters by the alphabet of base85. |
| BaseCodes.GroupFits | libgit2/src/buffer.c:413-435 | A group of five is accepted exactly if its letters are allowed and its number fits 32 bits. |
| BaseCodes.ReadGroup | libgit2/src/buffer.c:414-435 | The digit loop in 32 bits finds the number of a group, or refuses it, without ever multiplying past them. |
| BaseCodes.Decode64Encode64 | libgit2/src/buffer.c:234-331 | base64 (section 4 of RFC 4648): decoding gives the data and one zero byte for each padding character. |
| BaseCodes.Digits64 | libgit2/src/buffer.c:234-274 | The four letters are the digits to the base 64 of three bytes as a number; where bytes are missing the last letters are equals signs. |
| BaseCodes.Letters64 | libgit2/src/buffer.c:231-232 | The letters by the alphabet of base64. |
| BaseCodes.EncodeBase64 | libgit2/src/buffer.c:234-274 | Groups of three as four letters, the last one padded, behind what the buffer holds. |
| BaseCodes.DecodeBase64 | libgit2/src/buffer.c:296-331 | Succeeds exactly for valid text; otherwise the buffer is as it was. |
| BaseCodes.EncodeBase85 | libgit2/src/buffer.c:336-373 | Groups of four as five digits, behind what the buffer holds. |
| BaseCodes.DecodeBase85 | libgit2/src/buffer.c:395-455 | Succeeds exactly for valid text of the right length; otherwise the buffer is as it was. |
| Messages.NothingIsLost | manager/messages.cpp:62-132 | Expanding each marker by the messages before it gives the list back, for every list without marker texts. |
| Messages.ShownIs | manager/messages.cpp:67-129 | The longest run of one to seven messages that repeats those before it gives way to its marker; a message that begins none is shown. |
| Messages.MarkersAre | manager/messages.cpp:105-125 | The texts of the seven markers. |
| Messages.GetMessagesNoRepeat | manager/messages.cpp:62-132 | The list as shown: at each place the longest run, up to seven, that repeats becomes a marker. |
| Messages.LongestRepeat | manager/messages.cpp:75-125 | The longest run from a place on that repeats the one before it. |
| Messages.ComparePack | manager/messages.cpp:83-102 | Compared from the end backwards, a pack equals the one before it. |

## Left out

- BlameFile.BlameInternal: asks for one line at least; a request for none (an empty file) leaves an entry of no lines, which the tiling does not allow for. A lookup of a parent commit that fails, and files too large for the diff, are not modelled apart from a diff that fails.
- BlameTheory.BlameIsTrace: for answers of the repository that do not depend on when they are asked for, without which a line has no way of its own; RunIsExact says on what grounds it is decided then.
- BlameTidy.CoalesceKeeps: about a function on values, since the source never reaches the call; it leaves the boundary mark aside, as the source does.
- Blame: reference counts of origins and commits, the collection of paths and the search for renames (an oracle that may depend on the number of calls), the diff itself (an oracle that answers with correct, ordered hunks or fails), buffer blame.
- ConfigBackend.Backend.SetMultivar: the regular expression is a predicate on old values; matching against a value that is missing is undefined in the source and the predicate's choice here.
- ConfigReplace.ReplaceWorksIff: for values without newlines. A value of several lines may take in lines behind it, and whether the entries can then come out right by chance is not settled; ReadsAsWrittenIff covers all values where the lines count, not only the entries.
- ConfigBackend.Backend.Set: strings are C strings, that is, without NUL.
- Configuration: included files, locking, reading and writing the file on disk, levels, the hash map of entries (a sequence in the order of the file) and snapshots.
- ZcodeMath.Base36ToInteger: an overflow, which the language leaves undefined, wraps around as compilers make it.
- ZcodeMeta.ProcessMetaData: bits are a sequence from the start; the text of '0' and '1' they pass through, and the errors of what is no such text (157, 193, 233, 257 and 277), cannot occur and are not modelled.
- Zcode.ReadZcode: what follows the slash; splitting off the index of the repository, and the widgets the results go to, are left out, as is gathering the selectors from them.
- EditDistance.Levenshtein: weights and sums are unbounded; the source has int, which can overflow only where the bound of DistanceFits with one weight more exceeds it.
- ObjectCache.Library.PutEntry: the hash function is left out: a key takes any free slot, and the table doubles when there is none, up to 2^31 slots. Allocation failures are left out.
- ObjectCache.Library.Make: objects with one id have one size, as objects named by their contents do; addresses of freed objects are not used again.
- ObjectCache.Library.Store: runs of one thread; locks and atomic operations are taken to work.
- CommitSignature.CreateWithSignature: looking up, parsing and storing the commit are left out.
- CrlfFilter.ApplyToOdb: whether the file in the index holds a carriage return is a parameter; attributes and configuration come as values.
- LineEndings.GatherStats: the byte order mark, which the filter does not use, is not detected.
- DeltaOffsets.FarFails: that the encoder finds a shorter delta for such inputs is not proved; it says that none that it finds is of use. Sizes are those of a machine with 64 bits.
- DeltaDecoder.ApplyDelta: what memory holds before the base is a parameter, as if it could be read; operand bytes past the end of the delta, which the source reads before it fails, count as 0; groups of a size beyond 32 bits, a shift that C leaves undefined, count as 0; allocation failures are left out.
- DeltaIndexes.Init: allocation failures and the memory size of the index are left out.
- BaseCodes.EncodeBase64: growing the buffer, with its overflow checks, is left out here and in the other codes; the buffer is a sequence.
- Buffer blame callbacks, text patches, date parsing, network, checkout and the object database: input and output, or code whose helpers are not shown.
- `call_once.h`: its check and its exchange are two steps, so that there is no exactly-once property to prove.
