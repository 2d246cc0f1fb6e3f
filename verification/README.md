# Verification models of the utilities

The tree holds several hundred small C programs. Most of them move data between the kernel and a
terminal; about a dozen contain an algorithm with an invariant that is worth proving. This project
models those algorithms in Dafny, one module for each, and proves what they are for. Code that
changes arrays, counters and linked nodes in place is modelled by classes with those fields and by
methods with the same loops. Each of these methods is proved against a specification on values, and
the lemmas are about that specification.

| modules | program | what is proved |
|---|---|---|
| Patterns, Written, WrittenItems, GrepSyntax, GrepReading, GrepCode, Grep, GrepLaws | grep | what a pattern means as it is written, classes included; reading it, compiling it to byte code and running the code decides whether the line contains what it stands for |
| EdSyntax, EdReading, Greedy, EdRegex, EdMatches, EdLaws | ed | the same, and the match found is the leftmost one; its end and its groups are those of the greedy match |
| LineStore, LineStoreRuns | ed | any run of storing and fetching lines through two block buffers behaves like a table of lines |
| EdLines | ed | inserting, deleting and moving lines in the address array refine edits of a sequence |
| Factor | factor | Dijkstra's division-free algorithm finds the smallest prime factor; the factors are printed in order and multiply to the number |
| SwapSpec, SwapMap, SwapSweep | pstat | a first-fit allocator over a sorted map; the sweep that takes blocks as long as it is given them counts them right, and giving them back restores the map, or leaks exactly one block |
| FragMap, CylCounts, CylSums, CylGroup, FileSystem, RotTable | mkfs | bitmaps, five kinds of counters and the disk image of every group agree; what is stored first gets the first blocks that are free; the rotational table lists every block once |
| MountTree, Umount | mount, umount | mounting and unmounting respect the order of directories, whatever the tables' order and whatever fails |
| Keywords, KeywordTree, Automaton, Breadth, Ring, FailLinks, FailSearch, Fgrep, FgrepLaws, FgrepWords | fgrep | the keyword tree spells the keywords; which failure links are set and which lines are reported; when those are the lines that hold a keyword; when the ring of states is left |
| Tape, DirStack, TarTimes | tar | reader and writer stay in step block by block; every directory gets its time once, after what is in it |
| NameTable | ps | the lazily filled hash table answers like a scan of the password file |
| Inetd | inetd | in no interleaving does a service that waits have two servers, and in none is a tcp service not listened to |
| DdTables, Dd | dd | records, translation tables and output blocking |
| Crontab, CrontabReader, CronWritten, CronReading, CronLines, Cron, CronLaws | cron | a crontab is read as it is written; the encoded table decides the parsed one; every minute that is due is run once and in order |

`Common` holds what several modules share: bytes, powers of two, reversal, concatenation. Files,
tape and the terminal are sequences; the clock, system calls and events are parameters. `dafny
verify dfyconfig.toml` checks everything.

## Model

| member | source | states |
|---|---|---|
| GrepLaws.CompileAndExecute | bin/grep.c:135-357 | For every modelled pattern and every line: the pattern is accepted exactly if it is well formed and its code fits, and then the line is found exactly if some stretch of it, at the places ^ and $ allow, is a word of the pattern's language. |
| GrepLaws.Search | bin/grep.c:135-357 | The same from the start of the program, for one pattern and one line. |
| GrepReading.ReadsWhatIsWritten | bin/grep.c:135-265 | The concrete syntax has one reading: a pattern of characters, dots, classes, stars, groups, ^ and $, written with escapes where they are needed, is read as items of which each takes the very characters its piece stands for. A class stands for what one of its characters or ranges covers, or for everything else if it begins with a caret. |
| GrepLaws.Find | bin/grep.c:135-357 | Such a pattern is refused exactly if its code takes 256 bytes or more, and otherwise finds exactly the lines of which some stretch, at the places ^ and $ allow, is what its pieces one after the other stand for. |
| GrepLaws.ClassFindsCharacter | bin/grep.c:189-213 | A class finds exactly the lines with a character that one of its elements covers, or none of them if it begins with a caret. |
| GrepLaws.NotAnA | bin/grep.c:189-213 | The class of all but a finds the line b and does not find the line a. |
| GrepLaws.QuotedWordFindsWord | bin/grep.c:135-357 | The escaped form of any word finds exactly the lines that hold that word. |
| Patterns.FoundIsContainment | bin/grep.c:327-348 | The item-by-item search that the matcher performs and containment of a word of the language are the same thing, for anchored and unanchored patterns. |
| Patterns.ManyStops | bin/grep.c:433-477 | A repetition that has run as far as it can matches from exactly the places between its start and there; so trying them all backwards misses nothing. |
| Grep.Grep.Compile | bin/grep.c:135-265 | The buffer holds the code of exactly the parsed pattern, and refusal means a malformed pattern or code that does not fit. |
| Grep.Grep.CompileClass | bin/grep.c:189-217 | The sixteen bytes of a class have a bit for each member, ranges included, for no other character, and nothing else in the buffer changes. |
| Grep.Grep.Negate | bin/grep.c:209-213 | Flipping the bitmap complements the class, and NUL stays outside. |
| Grep.Grep.Advance | bin/grep.c:359-496 | Running the code from an item on succeeds exactly if the remaining items match from that place of the line. |
| Grep.Grep.TryBackwards | bin/grep.c:457-477 | The two search loops behind the label star, one of them skipping on the next character, succeed exactly if the rest matches from one of the places. |
| Grep.Grep.ScanRun | bin/grep.c:433-455 | The run is of characters the atom takes, and the next one is not. |
| Grep.Grep.Execute | bin/grep.c:325-355 | The anchored search, the search with the first-character test and the plain one make the same decision: does the pattern match from some place? |
| EdLaws.CompileAndExecute | bin/ed.c:1229-1406 | Compiling a pattern up to its delimiter and searching: found exactly if the line holds a word of the language; then loc1 and loc2 delimit one, and none begins further left. |
| EdLaws.Search | bin/ed.c:1229-1406 | The same from the start of the program, for one pattern and one line. |
| EdReading.ReadsWhatIsWritten | bin/ed.c:1243-1345 | A pattern as it is written, up to its delimiter, has one reading: items that take what its pieces stand for, groups numbered in the order in which they begin and ended innermost first; what follows the delimiter is left. |
| EdLaws.Find | bin/ed.c:1229-1406 | Such a pattern, with any delimiter, is refused exactly if its code takes 128 bytes or more, and otherwise finds a leftmost stretch that its pieces stand for, exactly if there is one. That stretch is divided among the pieces so that each repetition in turn takes as much as it can with the rest still matching, and the marks of each group are the places in that division where it begins and ends. |
| EdLaws.QuotedWordFindsWord | bin/ed.c:1262-1296 | The escaped form of a word, up to a delimiter that may occur in it, matches exactly the stretches that are the word. |
| EdLaws.AnyCharacter | bin/ed.c:1294-1296 | a.c matches all of abc. |
| EdMatches.TakesItsCourse | bin/ed.c:1408-1514 | Each piece stands for what lies between its place and the next, and no repetition could have gone further with the rest of the pattern still matching. |
| EdMatches.LeavesMarks | bin/ed.c:1450-1457 | The marks of a group are the places of the pieces that begin and end it. |
| EdRegex.Matcher.Compile | bin/ed.c:1229-1356 | The buffer holds the code of exactly the parsed pattern, and what is left of the input begins after the delimiter; an empty pattern keeps the code there is; after any error there is none. |
| EdRegex.Matcher.Advance | bin/ed.c:1408-1514 | Success exactly if the remaining items match; then loc2 and the marks of all groups are those of the greedy match, and other groups' marks are untouched. |
| EdRegex.Matcher.TryBackwards | bin/ed.c:1501-1509 | The place found is the last one from which the rest matches; failure means that there is none. |
| EdRegex.Matcher.Execute | bin/ed.c:1358-1406 | The leftmost start, the greedy end and the groups of the greedy match. |
| EdRegex.Matcher.FastSearch | bin/ed.c:1387-1398 | Skipping on the first character finds the same leftmost match. |
| EdSyntax.ParseGroups | bin/ed.c:1268-1281 | In every accepted pattern the groups that begin, and those that end, have distinct numbers below NBRA, however they are nested. |
| Greedy.ReachSpans | bin/ed.c:1408-1514 | The greedy match is a match: each item spans what lies between its place and the next. |
| Greedy.ReachIsGreedy | bin/ed.c:1480-1509 | Among all matches that agree with it before a repetition, none lets that repetition take more. |
| Greedy.FirstDown | bin/ed.c:1501-1509 | Trying from the end of the run down, the first success is the greedy one. |
| LineStoreRuns.Run | bin/ed.c:838-953 | Any sequence of stores and fetches from an empty store gets the replies of a plain table of lines, up to and including the failure when the last block is reached. |
| LineStoreRuns.PutThenGet | bin/ed.c:838-883 | A line stored is fetched again after any further requests, whatever the mark on its address. |
| LineStoreRuns.PutExactly | bin/ed.c:855-883 | There is room for a line exactly if its last character is within 255 blocks of 512 bytes; then it is in the table at the next address, every other line is as it was, and the address after it is past the line and its NUL, rounded up to four bytes. |
| LineStoreRuns.RoomForAll | bin/ed.c:855-883 | Lines whose characters and four bytes more for each fit in those blocks are all stored. |
| LineStore.LineStore.PutLine | bin/ed.c:855-883 | Fails exactly if the line would reach block 255; otherwise one new line is in the table, every other is as it was, and the next address is past the line and its NUL. |
| LineStore.LineStore.GetLine | bin/ed.c:838-853 | The line buffer holds the stored line and a NUL, and the store's contents do not change, though blocks are read and written on the way. |
| LineStore.LineStore.GetBlock | bin/ed.c:885-927 | The buffer returned holds the block of the address; what was stored is never lost, whichever buffer is reused, and a changed one is written first. |
| EdLines.Buffer.Append | bin/ed.c:728-759 | Lines read are spliced in after the given one, in order; dot is on the last of them. |
| EdLines.Buffer.Delete | bin/ed.c:798-815 | Exactly the given lines are gone; dot is on the next one, or on the last. |
| EdLines.Buffer.DeleteMarked | bin/ed.c:817-836 | The unmarked lines remain, in their order, and dot is where the in-place loop leaves it. |
| EdLines.Buffer.Move | bin/ed.c:1164-1205 | Three reversals take the block out and put it in after the target; a target inside the block is refused, and only the marks are cleared. |
| EdLines.Buffer.Reverse | bin/ed.c:1207-1219 | The slots are reversed in place and no other slot changes. |
| EdLines.ThreeReversals | bin/ed.c:1190-1201 | Reversing two neighbouring blocks and then both together exchanges them. |
| EdLines.MoveLeavesDotOnLastLine | bin/ed.c:1164-1205 | After a move dot is the last moved line, the block is whole, and the other lines keep their order. |
| Factor.Factoring.SmallestFactor | games/factor.c:51-100 | For every N from 2 to the largest int the result is the smallest divisor of N above 1. |
| Factor.Factoring.Rebase | games/factor.c:78-90 | One pass of the inner loops takes the digits from base f - 1 to base f: the same number, every digit within its bound, the top one not negative. |
| Factor.PrintFactors | games/factor.c:30-42 | The numbers printed are primes in nondecreasing order, and their product is n. |
| Factor.NoSmallDivisorMeansPrime | games/factor.c:91-99 | A number below (f + 1) squared without divisors up to f is prime; so the loop may stop at two digits. |
| Factor.TopDigit | games/factor.c:78-90 | The top digit cannot become negative while the others are within their bounds. |
| SwapMap.SwapMap.RmAlloc | etc/pstat.c:1064-1122 | The map and the address are those of first fit on the sorted free list; the map stays sorted, separated, ended by zeros, with an exact count of free slots. |
| SwapMap.SwapMap.RmFree | etc/pstat.c:1127-1233 | The map is that of freeing on the sorted list: joined left, right or both, inserted, refused, or inserted after the smaller of the last two entries is lost. |
| SwapSpec.RefusedExactly | etc/pstat.c:1140-1193 | A free is refused exactly if it is malformed or some unit of it is free already; a refused one changes the map exactly if it begins where a segment ends. |
| SwapSpec.RefusedButChanged | etc/pstat.c:1154-1173 | An input on which a refused free lets one segment grow into the next. |
| SwapSpec.FreeAddsRange | etc/pstat.c:1127-1233 | An accepted free with a slot to spare adds exactly its units. |
| SwapSpec.FreeLosesSegment | etc/pstat.c:1194-1216 | One without a slot loses exactly the smaller of the last two segments. |
| SwapSpec.TakeRemovesRange | etc/pstat.c:1064-1122 | Allocation takes exactly its units from the free ones, unless giving back the rest past a stripe boundary finds the map full. |
| SwapSpec.TakeWasFree | etc/pstat.c:1064-1122 | What is allocated was free, and with interleaved devices lies within one stripe. |
| SwapSpec.CanonicalIsUnique | etc/pstat.c:1064-1233 | Two sorted, coalesced maps with the same free units are equal. |
| SwapMap.FirstFitIsComplete | etc/pstat.c:1064-1122 | With one device a request is refused exactly if no run of that length is free. |
| SwapMap.RefusedThoughFree | etc/pstat.c:1085-1097 | With any devices: a request that is refused could have been met exactly if a segment that crosses a boundary has room before it; a request that is granted could be met. |
| SwapMap.StripeRunRefused | etc/pstat.c:1085-1097 | An input on which a free run within one stripe is refused. |
| SwapMap.TakeReturnsStart | etc/pstat.c:1087-1116 | The start of what is taken is returned exactly if it was taken past a boundary or is a multiple of the cluster size; otherwise 0 is. |
| SwapMap.TakenButNotGiven | etc/pstat.c:1105-1116 | An input on which units leave the map and 0 is returned. |
| SwapSweep.Sweep | etc/pstat.c:989-1004 | For every map: the total is the size of the blocks granted, requested one after the other from the maps the earlier ones left, each twice as large as the one before up to dmmax, until dmap is full or the next request is refused; dmap holds their addresses, and they are disjoint parts of what was free. After freeing them again, unless the map overflowed, it lacks exactly what the last request took and did not return, at most one block, not at a cluster; if there is none it is the very same map; in a map of whole clusters there is none. |
| SwapSweep.BlockSizeIs | etc/pstat.c:994-996 | The sizes are dmmin times a power of two, doubled as long as they are below dmmax. |
| SwapSweep.SweepExample | etc/pstat.c:989-998 | Of 96 units at 16, with blocks from 16 to 64, those at 16 and 32 are granted and the total is 48. |
| FragMap.FragMap.SetBlock | etc/mkfs.c:968-995 | Exactly the fragments of the block become free, for each of the four layouts of bits. |
| FragMap.FragMap.ClrBlock | etc/mkfs.c:937-962 | Exactly the fragments of the block become used. |
| FragMap.FragMap.IsBlock | etc/mkfs.c:905-931 | True exactly if all fragments of the block are free. |
| CylCounts.TotalsAreAllFree | etc/mkfs.c:578-690 | Whole blocks and loose fragments account for every free fragment. |
| CylSums.RunsAddUp | etc/mkfs.c:640-676 | The runs of free fragments that are counted, each times its length, add up to the loose fragments. |
| CylSums.CylindersAddUp | etc/mkfs.c:640-676 | The whole blocks counted in the cylinders add up to the whole blocks of the group, and those at the positions of a cylinder to those of the cylinder. |
| CylGroup.CylGroup.InitCg | etc/mkfs.c:578-682 | Whatever the buffer held before: exactly the group's data fragments are free, and the counts of whole blocks, loose fragments, runs of each length, blocks per cylinder and per position are those of the bitmap. |
| CylGroup.CylGroup.FindWhole | etc/mkfs.c:786-794 | The first whole block is found exactly if the count says that there is one; the internal error never happens. |
| CylGroup.CylGroup.Take | etc/mkfs.c:796-815 | Taking part of a block keeps bitmap and all counters in agreement and lowers the summary by its cost. |
| FileSystem.FileSystem.MakeGroups | etc/mkfs.c:543-548 | After all groups: every disk image agrees with its summary, the totals are the sums over the groups, whole blocks times fragments plus loose fragments is fs_dsize, and group 0 is ready for allocation. |
| FileSystem.FileSystem.Alloc | etc/mkfs.c:772-819 | Succeeds exactly if group 0 has a block all of whose fragments are free; takes as many fragments of the first such block as hold the size, writes the group back, and lowers the space in all three summaries by exactly those fragments; a failure changes nothing, nor do other groups change. |
| FileSystem.FileSystem.MakeAndFill | etc/mkfs.c:543-548 | From an empty disk, through all groups and any sequence of allocations: at first exactly the data fragments of group 0 are free, each request is served from the first free block of the map that the earlier ones left, or fails since there is none, and in the end the total space is the data size less the fragments used. |
| FileSystem.SpaceIsDataSize | etc/mkfs.c:653-687 | Summed over any layout of groups, the space counted is the data size. |
| RotTable.RotTable.Build | etc/mkfs.c:368-384 | For every cylinder and position the chain from fs_postbl through the offsets of fs_rotbl lists the blocks there, from the first one up. |
| RotTable.BlocksAtExactly | etc/mkfs.c:374-384 | That list has exactly the blocks at the position, each once, in increasing order. |
| RotTable.CyclesToAlign | etc/mkfs.c:295-298 | fs_cpc is the least number of cylinders whose sectors fill whole blocks, for any power of two of sectors in a block. |
| MountTree.MakeTree | etc/mount.c:723-741 | The tree of linked nodes is the functional tree with the entry inserted; no node that was there is replaced. |
| MountTree.Substr | etc/mount.c:823-836 | True exactly if one of two different paths is a directory above the other. |
| MountTree.MountAll | etc/mount.c:160-183 | For every fstab with distinct directories and whatever fails: no directory is mounted after one beneath it, nothing twice; all are tried if none fails, and one is passed over only below a failure. |
| MountTree.MountOrder | etc/mount.c:723-811 | The same of the tree alone, for every order of insertion. |
| MountTree.VisitsAncestorsFirst | etc/mount.c:753-811 | Walking later siblings first puts directories before those beneath them in every tree whose kids lie under their parent and whose later siblings do not. |
| Umount.MkMntList | etc/umount.c:345-366 | The linked list holds the mount table, newest entry first. |
| Umount.UmountList | etc/umount.c:138-214 | Walking the list while turning it round in place refines the walk on values: what is tried, which names are left, and the table written back. |
| Umount.UmountKeepsOrder | etc/umount.c:138-214 | For every table that lists directories before those beneath them: nothing is unmounted before what is beneath it, and the new table is the old one with some entries left out, in order again. |
| Umount.GoneAreUnmounted | etc/umount.c:172-187 | The entries left out of the new table are, with their number, exactly those tried with success. |
| Umount.AllTried | etc/umount.c:152-176 | With -a exactly the entries asked for are tried. |
| Umount.NamesUsed | etc/umount.c:178-187 | Without -a each name is used up by one attempt; the others stay. |
| Umount.NamedIsTried | etc/umount.c:146-187 | Without -a an entry is tried exactly if one of the names left is its directory or its device and it is neither the root nor to be ignored; the first such name is used up, and otherwise nothing changes. |
| Umount.NoneForgotten | etc/umount.c:178-187 | At the end no name that is left is the directory or the device of an entry that should have been tried and was not. |
| Umount.KeptIs | etc/mount.c:168-177 | What mount takes from fstab are the entries that are not for swapping, not to be ignored, not noauto, not the root, and of the type asked for. |
| Umount.MountThenUmount | etc/mount.c:753-811 | What mount -a mounts, umount -a tries in an order that respects it, whatever fails on either side. |
| FgrepLaws.Search | 5bin/fgrep.c:134-376 | For every list of keywords and every text: each line reported holds a keyword; while rear stays in the ring the lines reported are exactly those on which the automaton with the links of Fall comes to a marked state; under the guard, and without an empty keyword, they are exactly the lines that hold a keyword. Small lists always have room and keep rear in the ring. |
| FgrepLaws.SearchMisses | 5bin/fgrep.c:364-372 | A run with the keyword aabaaac over the text aabaaabaaac that reports nothing. |
| FgrepLaws.OneKeyword | 5bin/fgrep.c:333-376 | With one keyword a state is stored past the end of the ring exactly if the keyword has 400 characters or more; with fewer, the links are completed. |
| FgrepWords.FindWords | 5bin/fgrep.c:134-376 | For any list of words, one to a line, only lines that hold one are reported; all of them are if the list is shorter than 199 characters and no word begins with a character that is further on in a word. |
| Automaton.ReportedExactly | 5bin/fgrep.c:134-376 | If, wherever cfail gives up, no shorter state goes on with the character either, the automaton reports exactly the lines that hold a keyword. |
| Automaton.ReportedHoldsKey | 5bin/fgrep.c:170-231 | Whatever the keywords, a line on which it comes to a marked state holds one. |
| Automaton.HeldButMissed | 5bin/fgrep.c:364-372 | The line aabaaabaaac holds the only keyword, aabaaac, and no marked state is reached on it. |
| Automaton.FallIsLongest | 5bin/fgrep.c:364-372 | Under the guard each link leads to the longest state that ends the word. |
| Keywords.SplitJoins | 5bin/fgrep.c:257-265 | Reading the keyword list into lines loses no character. |
| Keywords.LastLineLost | 5bin/fgrep.c:274-323 | An input whose last keyword, not ended by a newline, is not in force. |
| Fgrep.Machine.CGotoFn | 5bin/fgrep.c:266-328 | The nodes are a tree whose marked states spell exactly the keywords in force, a last line without newline included, and whose other states are their beginnings; it overflows only if two nodes for each character are too many. |
| Breadth.WalkEnds | 5bin/fgrep.c:347-375 | When the ring is empty, every state but the first has been in it. |
| Breadth.ShorterListed | 5bin/fgrep.c:347-375 | While the arcs of a state are followed, all states that are no longer have entered the ring already. |
| Ring.StraysNow | 5bin/fgrep.c:352-363 | Rear leaves the ring just when the state stored in its last slot was alone when it entered. |
| FailSearch.PushKeeps | 5bin/fgrep.c:351-372 | Storing a state and linking it keeps ring, order, links and marks as they are to be, or puts rear past the last slot, or stores a state there. |
| Fgrep.Machine.CFail | 5bin/fgrep.c:333-376 | In every order and after any straying the tree stays sound. The states listed say, both ways, whether rear leaves the ring. While it does not, the loop ends, the link of every state is exactly the one of Fall, and the marks are exactly those of Marked. If it does, a state is stored past the end within 400 more passes. In a tree of fewer than QSIZE - 2 nodes neither happens, and the ring is never full. |
| Fgrep.Machine.Transition | 5bin/fgrep.c:170-193 | The state spells a suffix of the line read so far; in a completed tree it is the one Delta gives. |
| Fgrep.Machine.Scan | 5bin/fgrep.c:160-240 | Every line reported holds a keyword, every line that begins with one is reported, and in a completed tree the lines reported are exactly those on which the automaton comes to a marked state. |
| NameTable.Names.FindSlot | bin/ps.c:1172-1191 | The slot is the first on the probe sequence that is free or holds the uid; failure exactly if every slot holds another uid. |
| NameTable.Names.GetName | bin/ps.c:1193-1239 | Whatever was asked before, the name is that of the first entry with the uid, cut to its stored width, or none; the lazily filled table agrees with a full scan as long as the file has no more uids than there are slots, and whenever a name is returned at all. |
| TarTimes.DirTimes.DoDirTimes | bin/tar.c:1513-1551 | The path string and the array of times refine one step of an explicit stack: what is popped has its time set, what is new has none. |
| TarTimes.DirTimes.ExtractAll | bin/tar.c:789-792 | Over a whole archive and its end, the times set at each member are those the explicit stack sets. |
| DirStack.SetExactlyOnce | bin/tar.c:1513-1551 | In every archive with distinct names each archived directory has its recorded time set at exactly one later member, or at the end. |
| DirStack.SetAfterLast | bin/tar.c:1513-1551 | In a pre-order archive that member comes after everything beneath the directory. |
| DirStack.SetWhenLeft | bin/tar.c:1513-1551 | A time is set exactly if an archived directory with that time is being left; so parents that are only implied never get one. |
| Tape.Writer.WriteTBuf | bin/tar.c:1224-1268 | Blocks submitted are tape contents followed by the buffer's, whether they were copied or written directly; the hint is the room left. |
| Tape.Writer.PutData | bin/tar.c:631-662 | A regular file always becomes ceil(size / 512) blocks, even if it shrinks or grows while it is read; if it does not change, they hold its bytes. |
| Tape.Reader.ReadTBuf | bin/tar.c:1194-1222 | What is returned is the next part of the tape, at most what was asked for and at most the rest of the record. |
| Tape.Reader.PassBlocks | bin/tar.c:444-457 | Passing over a member skips exactly its blocks. |
| Tape.Reader.Extract | bin/tar.c:760-782 | Extracting reads exactly a file's blocks and writes exactly its size in bytes. |
| Tape.WriteArchive | bin/tar.c:459-662 | The tape holds the members' headers and data in order and the two empty blocks, whatever mixture of files, links and directories there is. |
| Tape.ReadArchive | bin/tar.c:672-793 | Any mixture of extracting and passing over sees exactly the headers written, in order, gives each chosen regular file its bytes, and reads no data for chosen directories and links. |
| Tape.RoundTrip | bin/tar.c:459-793 | Writing and reading with the same blocking: each member seen is the one archived, and each chosen file that did not change while it was archived comes back. |
| Inetd.EveryRunIsSafe | etc/inetd.c:189-297 | In every run over select, fork, exit, signal and reaping, with pids used again: no UDP or RPC service has two unreaped servers, and its socket is not listened to exactly while the recorded one is unreaped; a TCP service that was set up is always listened to, and no pid is recorded for it. |
| Inetd.StepKeeps | etc/inetd.c:189-297 | Every step, the signal handler's included, keeps the invariant this rests on. |
| Inetd.ReapWaitsForFork | etc/inetd.c:222-234 | In every run: after a fork that fails no child is reaped until a later fork has succeeded and SIGCHLD has been let in again. |
| Inetd.Stuck | etc/inetd.c:222-234 | A run after which the server of a waiting service has exited, its socket is not listened to, and SIGCHLD is blocked. |
| Inetd.Daemon.Restore | etc/inetd.c:284-295 | The handler's loop over the services is the step that reaps one child, for every service that recorded the pid, stale or not. |
| Inetd.Daemon.Find | etc/inetd.c:200-204 | The search is the step that chooses a service; the abort is never reached. |
| Inetd.Daemon.SetPid | etc/inetd.c:230-231 | Recording the pid is the step that does so, for services that wait only. |
| Inetd.Daemon.Clear | etc/inetd.c:230-233 | Taking the socket out of the mask is the step that does so, and leaves the other sockets in. |
| DdTables.TablesInverse | bin/dd.c:46-113 | Translating any byte to EBCDIC and back gives it again. |
| DdTables.Letters | bin/dd.c:80-113 | Letters are translated to the three runs of codes for small and the three for capital letters. |
| DdTables.DigitsAndSpace | bin/dd.c:80-113 | Digits are translated to F0 to F9, the space to 40, and a few marks to their codes. |
| Dd.BlockThenUnblock | bin/dd.c:501-614 | For every text of lines: blocking and unblocking gives each line, cut to cbs and without trailing spaces. |
| Dd.BlockText | bin/dd.c:586-614 | Blocking gives one record of cbs bytes for each line, and ntrunc is the number of lines that were cut. |
| Dd.RecordAt | bin/dd.c:586-614 | The k-th record has the k-th line, as much of it as fits, and then spaces. |
| Dd.LinesComeBack | bin/dd.c:474-614 | Lines that are not too long and have no space at their end come back unchanged, translated or not. |
| Dd.EbcdicThenAsciiText | bin/dd.c:474-555 | The same round trip through the translating conversions. |
| Dd.EbcdicIsBlock | bin/dd.c:528-555 | The translating conversion is blocking followed by translation of every byte, the filling included. |
| Dd.Copier.Convert | bin/dd.c:463-614 | Whatever obs is, the output blocks put together are the converted input, all but the last are full, and the counters of full and partial records and of cut lines are right. |
| Crontab.Cmp | etc/cron.c:249-288 | One encoded field is decided exactly, ranges that wrap included, and the cursor is left at the next one. |
| Crontab.Match | etc/cron.c:234-248 | An entry is decided as its five fields say, and the cursor is left at the command even if an early field fails. |
| Crontab.RunMatches | etc/cron.c:122-134 | Over the encoded list exactly the commands that are due are run, in the table's order. |
| Crontab.RunsWhatIsDue | etc/cron.c:122-160 | Something is run at a time exactly if the wait found something due then. |
| CrontabReader.ReadCrontab | etc/cron.c:302-419 | The encoded list is that of the parsed table: well-formed lines in order, and nothing of the others. |
| CronLines.ReadsWhatIsWritten | etc/cron.c:302-437 | A crontab as it is written, with decimal numbers, stars, lists, ranges, and input lines after percent signs, is parsed as the table of its jobs, in order, but for those with a number out of bounds, which give no entry; a line that does not end gives none. |
| CronReading.ReadTimes | etc/cron.c:337-380 | A written field gives the code of the numbers written if they are all within the bounds of the field, and no code otherwise. |
| CronReading.ReadsCommand | etc/cron.c:383-403 | Each percent sign begins a line of input, which the shell gets in a here document. |
| CronReading.CodedHolds | etc/cron.c:249-288 | The code holds at exactly the values that the written field includes. |
| CrontabReader.ReadField | etc/cron.c:331-380 | A number, a list, a range or a star becomes its code exactly if it is well formed and within the field's bounds. |
| Cron.FigureEventWait | etc/cron.c:136-192 | Internal time plus the time to sleep is the next time to run, also when it has passed already; only a clock far off is taken for a new date. |
| Cron.MainLoop | etc/cron.c:60-120 | For any readings of the clock that do not look like a new date, the k-th pass runs what is due at the k-th time to run. |
| CronLaws.Run | etc/cron.c:60-437 | From the crontab as it is written: each pass runs, in order, exactly what the written jobs want run at its time; the times increase; and each minute after the start that a job wants and that they have come to is one of them. |
| CronLaws.NewDateIs | etc/cron.c:151-177 | The next run is at a full minute within little more than an hour, at which something is due unless it is an hour away; what looks like a new date is a clock more than an hour past it or more than two hours before it. |
| CronLaws.HalfPastFour | etc/cron.c:331-354 | 30 4 * * * x is run at 4:30 and at no other time of the day. |
| Cron.EveryDueMinute | etc/cron.c:151-160 | Each minute after the start that is due is exactly one of these times. |
| Cron.NothingMissed | etc/cron.c:151-160 | No minute between two of them is due. |
| Cron.RunsInOrder | etc/cron.c:151-192 | The times increase. |

## Findings

What the proofs found to be false of the code, with the input and the exact condition.

- A swap request can be refused although a free run within one stripe exists: only the part of a
  segment after its first boundary is tried. Input: SwapMap.StripeRunRefused. Exactly when:
  SwapMap.RefusedThoughFree.
- rmalloc takes space from the map and returns 0 if the address is not a multiple of the cluster
  size. Input: SwapMap.TakenButNotGiven. Exactly when: SwapMap.TakeReturnsStart. What it makes of the
  sweep: SwapSweep.Sweep.
- A refused rmfree can change the map: if the range begins where a segment ends, that segment has
  already grown, even into the one that follows. Input: SwapSpec.RefusedButChanged. Exactly when:
  SwapSpec.RefusedExactly.
- In fgrep a last keyword that no newline ends and that begins an earlier one is not in force, since
  the end of the list is not taken for the end of a keyword there. Input: Keywords.LastLineLost.
  Exactly when: the predicate Keywords.Keyword, with Fgrep.Machine.CGotoFn.
- fgrep can miss a keyword: cfail looks for the character only among the arcs of the state that the
  failure link leads to, and not further down the chain. Input: FgrepLaws.SearchMisses. The lines
  reported, exactly: Automaton.Reported, with FgrepLaws.Search. Nothing is missed if the predicate
  Automaton.Guarded holds of the list, which is about that branch: where it gives up, nothing shorter
  goes on with the character (Automaton.ReportedExactly). That some line is missed whenever the guard
  fails is not shown: other keywords may cover for it.
- In fgrep rear leaves the ring of states, and a state is then stored past its end, if a state is
  alone when it enters and is stored in the last slot. Input, and exactly when for one keyword:
  FgrepLaws.OneKeyword. Exactly when for any: the predicate Ring.Strays, with Fgrep.Machine.CFail.
- A cron range whose ends are equal or the wrong way round wraps, and equal ends fit every value.
  Exactly when: Crontab.Cmp, with the predicate Crontab.Holds.
- inetd leaves SIGCHLD blocked if fork fails, and then reaps no child until a later fork succeeds.
  Input: Inetd.Stuck. Exactly how long: Inetd.ReapWaitsForFork. At most one server runs for a service
  all the same: Inetd.EveryRunIsSafe.

Two functions read memory that was never set unless their callers rule it out: umountlist for an
empty mount table (mntcur, etc/umount.c:142-210), and substr for equal strings (etc/mount.c:828-830).
What they do then is not modelled; the models of them ask for what the caller can check.

## Left out

- Option parsing, messages, listings, terminal handling, kernel memory, sockets and RPC.
- GrepLaws.CompileAndExecute: says nothing of patterns with back-references or word anchors, of -i
  and -w, of class members above 127, and of ranges that begin with no character.
- GrepLaws.Search: the same patterns.
- Grep.Grep.Compile: the same patterns; what lies past ESIZE in the code buffer is one slot of slack.
- Grep.Grep.CompileClass: no members above 127, and no range whose upper end is missing.
- GrepLaws.Find: speaks of patterns with an escape wherever a character has a meaning, with elements of
  classes below 128, and without a class in which a dash stands in the middle or a range ends with a bracket.
- GrepReading.ReadsWhatIsWritten: the same patterns.
- GrepLaws.ClassFindsCharacter: about lines of 7-bit characters; of others grep looks at seven bits.
- EdLaws.CompileAndExecute: says nothing of back-references, of characters above 127 in the pattern,
  and of a search that goes on from an earlier match.
- EdLaws.Search: the same.
- EdLaws.Find: speaks of such patterns as GrepLaws.Find, of 7-bit characters, and of delimiters that are
  not the first character of a piece.
- EdReading.ReadsWhatIsWritten: the same patterns.
- EdLaws.QuotedWordFindsWord: not about a backslash, a parenthesis or one of the digits 1 to 5 as delimiter.
- EdRegex.Matcher.Compile: the same patterns; the end of the input before the delimiter is an error
  at once.
- The loops that read lines in grep and ed; in ed the reallocation of the address array, the copying
  form of move, and encryption of the file.
- EdLines.Buffer.Append: takes the addresses of the lines as given; reading them is not modelled.
- Factor.Factoring.SmallestFactor: speaks of 2 up to the largest int, which is the type's range; the
  ends below 2 are main's business.
- pstat: the map's header entry and name; SwapMap's count of free slots is exact at the start, which
  doswap's formula does not check.
- mkfs: inode bitmaps and inode counters, superblock fields that are only copied, the width of the
  rotational table's entries. Disk reads and writes are images of groups.
- CylGroup.CylGroup.InitCg: the group's bounds are given, the lower one at a block boundary and the
  upper one, rounded up to a block, within the group; the macros that compute them are not part of
  this model.
- mount and umount: retrying, backgrounding, options and NFS. Whether a mount succeeds is a parameter.
- MountTree.Substr: about different strings, see above.
- MountTree.MakeTree: about directories that are not in the tree yet, for the same reason.
- MountTree.MountAll: about tables with distinct directories, for the same reason.
- Umount.UmountList: about tables that are not empty, see above.
- FgrepLaws.Search: with an empty keyword only that each line reported holds a keyword is stated.
- FgrepWords.FindWords: the condition on first characters is enough for the guard; it is not needed.
- Automaton.ReportedExactly: the guard is enough; that it is needed is not shown.
- Fgrep.Machine.CFail: the number of passes of its loop is a parameter, since after rear has left the
  ring the loop need not end.
- fgrep: -i, -x, -v and the double buffer.
- tar: the text of headers and checksums, which files are chosen, devices, reads of a pipe that come
  short. Size and kind are functions of the header block; that directories and symbolic links record
  no size (bin/tar.c:514, 580) is asked of the headers.
- NameTable.Names.GetName: about password files without uids above 65535, which are stored but never
  found again, and without empty names, which look like free slots.
- inetd: reading the configuration, the child's side of fork, more sockets than a mask has bits.
- dd: upper and lower case, ibm, swab, noerror and sync; how the input is divided into blocks.
- CronLines.ReadsWhatIsWritten: speaks of lines with one blank after each field and no percent sign
  within the command or a line of its input; other lines are parsed as CrontabReader.ReadCrontab says.
- cron: the size of the list and of a line, numbers too large for an int, hang-ups, a crontab that
  changes, errors of stat, and what is done with a command. Cron.MainLoop makes as many passes as the
  clock is read.
