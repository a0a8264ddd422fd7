# Flash image tools and router advertisements

A model of the parts of this repository that are more than plumbing: the JFFS2 and NAND tools in
`external/mtd-utils` and the options of IPv6 router advertisements in `external/radvd`. Objects that the C code
changes in place are classes or arrays here, with its loops; everything they compute is tied to functions on values,
and what the tools are for is proved about those.

* `RbTree`, `RbInsert`, `RbErase`, `RbWalk`: red-black trees with parent pointers. The contents of a root are a
  tree value; a subtree is looked at together with the context around it, so that each rotation and each step of a
  repair is a fact about one place. `Hardlinks` is the client in mkfs that numbers hard links.
* `Jffs2Format`, `Jffs2Dir`, `Jffs2Scan`, `Jffs2Reader`: reading a directory out of a log. `Jffs2Scan` is the
  circular scan of `collectdir` as a state machine over the dirents, `Jffs2Reader` the code over the bytes.
* `NandFlash`, `Nandwrite`, `Nanddump` (and `Arithmetic`): a flash device with bad blocks on which writing, erasing and
  marking may fail, the writer that skips and replays, and the dumper that is to be its inverse.
* `Rtime`: the run-length codec with its table of last positions.
* `Summary`, `Sumtool`: re-blocking an image and putting an index at the end of each erase block.
* `BlockScan`, `MkfsNodes`, `MkfsSound`, `MkfsImage`, `MkfsParse`: laying out an image, fragmenting files, and reading
  back all that was written. `MkfsRead`, `MkfsSum` and `MkfsSwap` give what is written to the other tools.
* `ComprList`, `ComprChoice`: the list of compressors and the choice among their results.
* `EndianNodes`, `EndianConvert`, `EndianInPlace`, `EndianMirror`: converting the byte order of an image, and what the
  image says that is written.
* `Dnssl`, `RaOptions`, `RaReceive`, `RaSend`: building the options of an advertisement, and the walk of a neighbour
  over them (section 4.6 of RFC 4861, section 5 of RFC 6106, section 3.1 of RFC 1035).

`mtd_crc32`, the compressors and their inverses are parameters. Reads and writes may be short, and flash operations may
fail, at any point.

What the code does not do, although one might expect it, is stated as a theorem as well:

* `collectdir` does not return on an image with a gap before the dirent it applied last, in the cases
  `Jffs2Scan.StallsAt` lists; `CollectDirReturns` says it returns in all others.
* `nanddump` of length 0 dumps the whole device, and a block that `nandwrite` gave up without marking it is dumped, so
  that the image comes back only if it is blank from there on (`UnmarkedGivesBack`).
* `nandwrite` from standard input succeeds when the device is full, and drops the rest (`Run`, `DropsInput`). With a bad
  block at the end of the device it reports an error when the input fills the good ones (`FailsAtEnd`).
* `flush_buffers` of sumtool takes a buffer of just the length of a cleanmarker for empty, and its nodes are lost
  (`SumImage`, `LosesNode`); its room check neither flushes nor leaves room when the size it computes
  for the summary exceeds the block (`CheckIsRight`, `NoRoomBehind`).
* `do_endianconvert` drops nodes of unknown types, and writes a magic with the node type 0xffff unswapped.
* `process_ra` does not go on behind an RDNSS option with less than 56 bytes left, and `send_ra` does not pad
  link-layer addresses, so that not every advertisement is read to its end.
* A suffix with a dot at its end is sent without its final zero.

## Model

| member | source | states |
|---|---|---|
| RbTree.Root.constructor | external/mtd-utils/rbtree.h:132-132 | A new root holds a valid, empty tree. |
| RbTree.FillFacts | external/mtd-utils/rbtree.h:100-109 | A subtree put back where it was taken out gives the whole tree: same nodes, and the in-order sequence is what comes before it, its own, and what comes after. |
| RbTree.UnfillRb | external/mtd-utils/rbtree.c:72-135 | In a red-black tree both a subtree and what is around it obey the colour and height rules, with the same black height. |
| RbTree.FillRb | external/mtd-utils/rbtree.c:72-135 | A subtree of the right black height in surroundings that obey the rules makes a red-black tree. |
| RbTree.RotateLeft | external/mtd-utils/rbtree.c:26-47 | On the pointers, the rotation swaps a node with its right child: the parent and child links of the whole tree agree again, and no other link changed. |
| RbTree.RotateRight | external/mtd-utils/rbtree.c:49-70 | The mirror image, with the same promise. |
| RbTree.RotatedLeftFacts | external/mtd-utils/rbtree.c:26-47 | A rotation keeps the in-order sequence and the set of nodes. |
| RbTree.RotatedRightFacts | external/mtd-utils/rbtree.c:49-70 | The mirror image keeps them too. |
| RbTree.SetColor | external/mtd-utils/rbtree.h:127-130 | Painting a node changes the colour of that node of the tree and nothing else. |
| RbTree.BlackHeightBounds | external/mtd-utils/mkfs.jffs2.c:121-135 | A tree of black height h has at least 2^h - 1 nodes and is at most 2h + 1 high. |
| RbTree.HeightBound | external/mtd-utils/mkfs.jffs2.c:121-135 | A red-black tree of n nodes is at most 2*log2(n + 1) high. |
| RbInsert.LinkNode | external/mtd-utils/rbtree.h:162-169 | A node linked at an empty slot becomes a red leaf there; everything else stays. |
| RbInsert.RecoloredFacts | external/mtd-utils/rbtree.c:82-92 | Recolouring parent, uncle and grandparent keeps the black height and the order, and moves the only possible red-red edge two levels up. |
| RbInsert.InsertRecolor | external/mtd-utils/rbtree.c:82-92 | The recolouring step on the pointers gives that tree. |
| RbInsert.InsertUnderLeft | external/mtd-utils/rbtree.c:80-105 | One round under a left parent keeps the order, and the state of the repair: all rules hold but for at most one red-red edge, at the node the repair goes on with, which is nearer the root than before. |
| RbInsert.InsertUnderRight | external/mtd-utils/rbtree.c:106-130 | The mirror image. |
| RbInsert.InsertRotateLeft | external/mtd-utils/rbtree.c:94-105 | With a black uncle to the right, one or two rotations leave no red-red edge, and the order as it was. |
| RbInsert.InsertRotateRight | external/mtd-utils/rbtree.c:119-130 | The mirror image. |
| RbInsert.InsertColor | external/mtd-utils/rbtree.c:72-135 | The repair loop ends, and from any tree with at most one red-red edge, at the new node, makes a red-black tree with the same in-order sequence. |
| RbInsert.Insert | external/mtd-utils/rbtree.c:72-135 | Linking a node at any empty slot of a valid tree and repairing gives a valid tree whose in-order sequence has the node at its slot, and whose nodes are the old ones and it. |
| RbErase.SiblingUpLeftFacts | external/mtd-utils/rbtree.c:147-153 | Rotating a red sibling up keeps the missing black where it is, and makes the sibling black. |
| RbErase.TuckedLeftFacts | external/mtd-utils/rbtree.c:163-171 | Turning a sibling whose near child only is red leaves one whose far child is red. |
| RbErase.SettledLeftFacts | external/mtd-utils/rbtree.c:172-178 | The last rotation gives the missing black back: the rules hold all over the tree. |
| RbErase.EraseUnderLeft | external/mtd-utils/rbtree.c:144-180 | One round of the loop for a left child: it ends with a red-black tree or moves the missing black one level up, and the order is kept. |
| RbErase.EraseUnderRight | external/mtd-utils/rbtree.c:181-217 | The mirror image. |
| RbErase.EraseColor | external/mtd-utils/rbtree.c:137-221 | The repair loop ends, and from any tree that lacks one black below a node makes a red-black tree with the same in-order sequence. |
| RbErase.FindSuccessor | external/mtd-utils/rbtree.c:234-238 | The walk down the left children finds the node that follows in order. |
| RbErase.CutSuccessor | external/mtd-utils/rbtree.c:236-249 | The successor is taken out of its place and its child hung there; the rest of the tree is as it was. |
| RbErase.TakePlace | external/mtd-utils/rbtree.c:251-266 | A node with the links of another takes its place in the tree. |
| RbErase.OneChildFacts | external/mtd-utils/rbtree.c:228-283 | Splicing out a node with one child at most leaves a red-black tree, or one that lacks a black just there if the node was black. |
| RbErase.TwoChildFacts | external/mtd-utils/rbtree.c:232-268 | So does replacing a node by its successor, at the place the successor had. |
| RbErase.EraseTwo | external/mtd-utils/rbtree.c:232-268 | Erasing a node with two children on the pointers gives that tree. |
| RbErase.EraseDone | external/mtd-utils/rbtree.c:223-288 | What is left in order is the old sequence without the node, at whatever position it was. |
| RbErase.Erase | external/mtd-utils/rbtree.c:223-288 | Erasing any node of a valid tree gives a valid tree (black root, no red-red edge, equal black heights, parent and child links that agree) whose in-order sequence is the old one without exactly that node. |
| RbWalk.First | external/mtd-utils/rbtree.c:293-303 | The first node in order, or none in an empty tree. |
| RbWalk.Last | external/mtd-utils/rbtree.c:305-315 | The last node in order. |
| RbWalk.Next | external/mtd-utils/rbtree.c:317-343 | The node after the given one in order, or none at the end; none for a node that is its own parent. |
| RbWalk.Prev | external/mtd-utils/rbtree.c:345-367 | The node before it. |
| RbWalk.Traverse | external/mtd-utils/rbtree.c:293-343 | From the first node, going on to the next until there is none meets every node exactly once and in order. |
| RbWalk.NextThenPrev | external/mtd-utils/rbtree.c:317-367 | Going back undoes going on. |
| Hardlinks.Search | external/mtd-utils/mkfs.jffs2.c:117-135 | The search finds a node whose entry has the device and inode asked for, or there is none in the tree and it ends at the one empty slot where such a node keeps the descending order of devices and inodes; its steps are at most 2*log2(n + 1). |
| Hardlinks.DescendingInsert | external/mtd-utils/mkfs.jffs2.c:121-138 | A node put at the slot the search ends at keeps the keys in strictly descending order. |
| Hardlinks.Mkfs.FindHardlink | external/mtd-utils/mkfs.jffs2.c:115-140 | The number of the entry in the tree with the same device and the same inode, if there is one; otherwise 0, after the entry itself was put into the tree. The tree stays valid and ordered. |
| Hardlinks.Mkfs.Visit | external/mtd-utils/mkfs.jffs2.c:1221-1307 | Visiting one entry keeps the numbering invariant and adds just this entry to those visited. |
| Hardlinks.Mkfs.Populate | external/mtd-utils/mkfs.jffs2.c:1211-1320 | A whole run over a directory tree keeps the invariant and visits every entry below the directory. |
| Hardlinks.BelowMeans | external/mtd-utils/mkfs.jffs2.c:1309-1319 | What is below a directory: the entries in it, and what is below the directories among them. |
| Hardlinks.Mkfs.HardLinksShare | external/mtd-utils/mkfs.jffs2.c:1223-1307 | After any run: two entries with a link count of at least 1 have the same inode number if and only if their devices agree and their inodes agree; an entry with link count 0 shares its number with none; every number has its dirent, and its inode data is written once. |
| Hardlinks.Mkfs.OneDirent | external/mtd-utils/mkfs.jffs2.c:1221-1307 | Every entry visited has exactly one dirent, with its number; an entry of unknown mode and a regular file that is too large have none, and number 0. |
| Jffs2Dir.PutDir | external/mtd-utils/jffs2reader.c:178-244 | The list in memory after `putdir` holds the entries before, with this one in place of the one of its name, at the end if there was none, or that one gone if its inode number is 0. |
| Jffs2Dir.PutAt | external/mtd-utils/jffs2reader.c:184-243 | By its place in the list: the first entry of the name is overwritten there, or goes, and the others stay in order. |
| Jffs2Dir.Update | external/mtd-utils/jffs2reader.c:184-217 | The branch that links: overwritten in place, or appended at the end of the list. |
| Jffs2Dir.Remove | external/mtd-utils/jffs2reader.c:218-243 | The branch that unlinks: head, middle and end of the list. |
| Jffs2Dir.ReplayFind | external/mtd-utils/jffs2reader.c:178-244 | Entries given to `putdir` one after the other leave no name twice, and each name has what its last entry said. |
| Jffs2Reader.NextNode | external/mtd-utils/jffs2reader.c:512-517 | The scan stops at a word, not before the start, that has the magic, or at the end ... |
| Jffs2Reader.NextNodeFirst | external/mtd-utils/jffs2reader.c:512-517 | ... and no word it passed has the magic. |
| Jffs2Scan.RoundScans | external/mtd-utils/jffs2reader.c:506-556 | Every round of the scan keeps the invariant: the dirents applied are those with versions 1 to `vcur`, in ascending order, and the bounds of a lap are those of the dirents met in it. |
| Jffs2Scan.Progress | external/mtd-utils/jffs2reader.c:506-556 | Unless the log stalls, each round applies a dirent or comes nearer, round the image, to the one expected next. |
| Jffs2Scan.AllApplied | external/mtd-utils/jffs2reader.c:506-556 | When the loop ends every dirent of the directory was applied exactly once, in ascending order of version. |
| Jffs2Scan.RoundStuck | external/mtd-utils/jffs2reader.c:529-552 | At a dirent whose gap the code does not see, the loop goes round for ever: no round applies the next version. |
| Jffs2Reader.GapImageHangs | external/mtd-utils/jffs2reader.c:529-552 | The smallest image, byte for byte, on which `collectdir` never returns: one dirent behind a gap of a word. |
| Jffs2Reader.MissingImageHangs | external/mtd-utils/jffs2reader.c:529-552 | Another: behind such a dirent one whose version is not the next. (The gap is what line 530 stores and line 540 compares.) |
| Jffs2Reader.CollectDirReturns | external/mtd-utils/jffs2reader.c:491-558 | On any well-formed image the scan of `collectdir` returns if and only if no dirent of the directory is one it stalls at: a gap before it, its predecessor but not its successor among the versions, and not the last of all unless none is missing. |
| Jffs2Reader.CollectDir | external/mtd-utils/jffs2reader.c:491-558 | Whenever it returns, the list in memory is the one it was given with all dirents of the directory replayed once, in ascending order of version. (What an entry of the list is in the bytes, `ListedIffResolved` says.) |
| Jffs2Reader.MeetNode | external/mtd-utils/jffs2reader.c:519-541 | One node: the variables after it are those of the step, and a dirent of the expected version is applied to the list. |
| Jffs2Reader.EndRound | external/mtd-utils/jffs2reader.c:542-554 | The end of a lap: the variables after it are those of the step. |
| Jffs2Reader.FindRawInode | external/mtd-utils/jffs2reader.c:423-483 | The first node of the lowest version of the inode, or none if it has none. |
| Jffs2Reader.OldestMeans | external/mtd-utils/jffs2reader.c:423-483 | The same in the bytes of the image: an inode node with the number asked for at byte 12, whose version at byte 16, not 0 or 2^32 - 1, is the lowest of such nodes, and the first of these; without a result no node has one. |
| Jffs2Reader.ResolveDirent | external/mtd-utils/jffs2reader.c:579-624 | The first dirent of the highest version above 0 among those of the inode and parent and name asked for, or none. |
| Jffs2Reader.ResolvedMeans | external/mtd-utils/jffs2reader.c:579-624 | The same in the bytes of the image: a dirent with the name, the parent at byte 12 and the inode at byte 20 that were asked for, as far as they were, and with the highest version at byte 16 among those, the first of these; without a result there is none with a version above 0. |
| Jffs2Reader.ResolveName | external/mtd-utils/jffs2reader.c:636-640 | The same for a name in a directory, whatever inode it links. |
| Jffs2Reader.ListedIffResolved | external/mtd-utils/jffs2reader.c:491-640 | The two readers agree, in the bytes of the image: a name is in the list of `collectdir` exactly when `resolvename` finds a dirent for it whose inode number at byte 20 is not 0, and is listed with that inode number and the type at byte 29; and no name is listed twice. |
| MkfsRead.DirentSeen | external/mtd-utils/jffs2reader.c:519-541 | If the bytes that mkfs.jffs2 writes for a dirent stand in an image, the reader takes them for a dirent, applied and asked for with the name, parent, inode, version and type it was written with. |
| MkfsRead.InodeSeen | external/mtd-utils/jffs2reader.c:423-483 | So it is with an inode node, its number and version. |
| NandFlash.GoodSplit | external/mtd-utils/nanddump.c:396-418 | The good blocks of a range are those of its two halves, one after the other. |
| Nandwrite.Writer.NextBlock | external/mtd-utils/nandwrite.c:366-406 | Bad blocks are skipped, and the buffer is dropped unless it is to be replayed; what was stored stays. |
| Nandwrite.Writer.FetchPage | external/mtd-utils/nandwrite.c:409-458 | A page is read piece by piece, the last one is filled with 0xff if padding is on, and what is written and buffered is still the input read so far. |
| Nandwrite.Writer.GiveUp | external/mtd-utils/nandwrite.c:505-537 | A failed page gives up its block: it is erased and, if asked, marked bad, it joins the blocks given up, and the buffer is rewound, to be written again behind it. If erasures fail with EIO at worst this succeeds. |
| Nandwrite.Writer.Run | external/mtd-utils/nandwrite.c:315-556 | On success the input, padded to whole pages, is in the blocks from the start on that are not bad and were not given up, in order, if and only if it fits them; if not, which only standard input may do and still succeed, they hold its beginning and the rest is dropped. Just the blocks given up became bad, if marking is on, and each of them was erased unless its erasure failed. Whatever pages and erasures fail with EIO, a file succeeds if and only if it is whole pages or to be padded, and fits the good blocks not given up, and, should it be empty, there is one; standard input, if the last block of the device was good, if and only if that was not given up and it is whole pages or to be padded, or is too long, and otherwise if and only if it is whole pages or to be padded, and leaves a byte of those blocks free. |
| Nanddump.Dump | external/mtd-utils/nanddump.c:379-453 | In skip-bad mode the dump is the good blocks from the start, up to the length rounded up to pages, or to the end of the device. |
| Nanddump.DumpGivesBack | external/mtd-utils/nanddump.c:395-453 | The dump of what the writer stored is what was stored, if all blocks given up are marked bad. |
| Nanddump.DumpOfNothing | external/mtd-utils/nanddump.c:381-382 | For an empty image this fails: a length of 0 dumps all good blocks. |
| NandFlash.GoodSize | external/mtd-utils/nanddump.c:396-418 | The good blocks of a range hold their number times the size of a block. |
| Nanddump.UnmarkedGivesBack | external/mtd-utils/nandwrite.c:514-535 | It fails too for blocks given up but not marked bad: with these erased, the dump is the image if and only if the image fits the unmarked blocks and is 0xff from the place of the first block given up on. |
| Nanddump.UnmarkedIsDumped | external/mtd-utils/nandwrite.c:514-535 | Whatever such a block holds is in the dump at its place, so that the dump is the image only if the image is the same there. |
| Nanddump.WriteThenDump | external/mtd-utils/nandwrite.c:315-556 | Writing any image and dumping its padded length from the same start, whatever blocks were bad and whatever pages, erasures and markings failed: with marking, or with every block given up erased, the dump is the image padded with 0xff if and only if that fits the blocks not marked and is 0xff behind the place of each block that was given up unmarked; with marking it is otherwise the beginning that fits. If pages and erasures fail with EIO at worst, writing succeeds if and only if the input is whole pages or to be padded and fits the good blocks that were not given up (a file), or as `Run` says (standard input). |
| Nanddump.DropsInput | external/mtd-utils/nandwrite.c:551-553 | A run that succeeds and drops input: two bytes from standard input, on a device of one. |
| Nanddump.FailsAtEnd | external/mtd-utils/nandwrite.c:366-406 | A run that fails although all is written: a byte from standard input, on a device of a good block and a bad one. |
| Rtime.RunIsLongest | external/mtd-utils/compr_rtime.c:46-55 | The run the encoder finds matches the data behind the last place of the byte, and is the longest that does, up to 255. |
| Rtime.EncodeSpells | external/mtd-utils/compr_rtime.c:26-63 | Encoding, from any table of last positions, gives such a code, with the longest runs. |
| Rtime.EncodeDecode | external/mtd-utils/compr_rtime.c:26-99 | Decoding what encoding made, from any state of the two position tables that agree, gives the input consumed, and uses the code up exactly. |
| Rtime.DecodeSpells | external/mtd-utils/compr_rtime.c:66-99 | Decoding, from any table of last positions, gives what the code stands for. |
| Rtime.CopyApart | external/mtd-utils/compr_rtime.c:84-94 | If source and destination do not overlap, copying byte by byte and copying at once are the same. |
| Rtime.CopyOut | external/mtd-utils/compr_rtime.c:84-94 | Both branches of the copy give the run that copying byte by byte defines, also where they overlap. |
| Rtime.Compress | external/mtd-utils/compr_rtime.c:26-63 | The bytes written are a code of the part of the input consumed, which stops where the input ends or no pair has room: pair k is a byte and a count, the byte is the next of the input, and the count is the length of the longest run, up to 255, that repeats what follows the last of the earlier pairs with that byte, or the start if there is none. Success is exactly that the bytes are fewer. |
| Rtime.Decompress | external/mtd-utils/compr_rtime.c:66-99 | The output has just the length asked for and is what the code stands for: pair k gives its byte, and then as many bytes as it counts, which repeat what follows the byte of the last earlier pair with that byte, or the start if there is none. Only the code is read and nothing behind the output is touched. |
| Rtime.CompressDecompress | external/mtd-utils/compr_rtime.c:26-99 | For every input of at most 32768 bytes: when compression succeeds, decompressing gives back the part consumed, reading only the bytes produced. |
| Summary.RecordDescribes | external/mtd-utils/sumtool.c:515-606 | The record of a node, in the bytes of the summary, has its type, its place and length in the block, and the inode numbers, versions and name that go with its type. |
| Summary.RecordsDescribe | external/mtd-utils/sumtool.c:325-400 | The records one after the other describe the nodes of the block, one each and in order. |
| Sumtool.RecordSizes | external/mtd-utils/sumtool.c:608-639 | How large the record of a valid node can be beside the node. |
| Sumtool.RoomFor | external/mtd-utils/sumtool.c:457-475 | When the check finds room for a node, the node, its record and the summary fit; and since it counts the node twice, the records of a block never take more than about half of it. |
| Sumtool.NoWrap | external/mtd-utils/sumtool.c:457-475 | So in every state of the tool the unsigned subtraction in the room check does not wrap, for a node that fits an empty block and, with its record and as many others as a block can have, does not exceed one ... |
| Sumtool.CheckedFits | external/mtd-utils/sumtool.c:457-475 | ... as every node does that passes the check of an empty block, however much longer than its fields it is. |
| Sumtool.CheckIsRight | external/mtd-utils/sumtool.c:457-475 | In any state, and for any node that fits an empty block, the check flushes or leaves room if and only if the size it computes for the summary does not exceed the block. |
| Sumtool.NoRoomBehind | external/mtd-utils/sumtool.c:457-475 | A state in which it does: behind a node of 28 bytes, one of 8132 bytes is neither given room nor a new block of 0x2000 bytes. |
| Sumtool.BlockSummarised | external/mtd-utils/sumtool.c:301-428 | A block with a summary at its end is one in which a reader finds, from the last eight bytes, the summary node with right checksums and the records of all nodes in the block. |
| Sumtool.BlockHolds | external/mtd-utils/sumtool.c:301-428 | ... and the nodes are where the records say. |
| Sumtool.Sumtool.DumpSumRecords | external/mtd-utils/sumtool.c:301-428 | The buffer becomes exactly one erase block: the nodes, padding, the summary, the marker in the last eight bytes. The record list is empty again. |
| Sumtool.MarkerReads | external/mtd-utils/sumtool.c:125-131 | What a reader finds in a cleanmarker: the magic, its type, its size, the right checksum, and 0xff up to a multiple of four. |
| Sumtool.Sumtool.PadBlockIfLessThan | external/mtd-utils/sumtool.c:457-475 | Afterwards there is room for the node, its record, the summary header and the marker; a full block has gone out summarised, no node is lost, and a new block starts with the bytes of a cleanmarker of the size in force if there is to be one. |
| Sumtool.Sumtool.AddSum | external/mtd-utils/sumtool.c:515-606 | The record of the node about to be written is added, with the offset it will have, and the sizes are counted. |
| Sumtool.Sumtool.WriteToBuff | external/mtd-utils/sumtool.c:608-639 | A node goes into the buffer behind those before, after a full block was flushed if need be; the buffer is then longer by the padded node, or is a new block with it alone. |
| Sumtool.Sumtool.FlushBuffers | external/mtd-utils/sumtool.c:477-513 | Of a buffer as long as a cleanmarker, if there is to be one, or empty, nothing goes out; otherwise the rest goes out, summarised if less than 324 bytes are left beside the summary, as it is or padded if not. The output is then blocks with summaries and at most one without, and it has all nodes unless the buffer held nodes and was just as long as a cleanmarker; in that case it lacks them. |
| Sumtool.Sumtool.MarkedKeeps | external/mtd-utils/sumtool.c:480-482 | A buffer that starts with its cleanmarker, or has none to start with, is never taken for empty while it holds nodes. |
| Sumtool.Sumtool.SumImage | external/mtd-utils/sumtool.c:840-862 | The whole run: the nodes of the output are all sound nodes of the input, in order, if and only if at the end no buffer with nodes is taken for empty. Whether one is follows from the input alone, by the lengths of its nodes and of its first cleanmarker; and none is if the cleanmarker size is given, if no cleanmarkers are wanted, or if the input starts with one; then too every block starts with the bytes of a cleanmarker, and its summary says its size, if there are to be any. |
| Sumtool.LosesNode | external/mtd-utils/sumtool.c:480-482 | Otherwise it happens: on a block of input with a node of 28 bytes, and then the first cleanmarker, of 28 bytes as well, the run puts out no node. |
| Sumtool.Sumtool.CreateSummedImage | external/mtd-utils/sumtool.c:641-837 | For every input block: all inode, dirent and xattr nodes with right checksums, and no others, are in the output or the buffer, in order; every block written is a whole erase block with a summary that describes it. |
| BlockScan.NodesAppended | external/mtd-utils/mkfs.jffs2.c:1438-1539 | Bytes behind a row of nodes do not change how the nodes before are found. |
| BlockScan.OnesSkipped | external/mtd-utils/mkfs.jffs2.c:1447-1450 | In padding no node is found. |
| BlockScan.HoldsMore | external/mtd-utils/mkfs.jffs2.c:690-719 | A node written behind others, padded to a word, is found there, and the others still are. |
| BlockScan.ProcessBuffer | external/mtd-utils/mkfs.jffs2.c:1438-1539 | Scanning a block visits exactly the nodes written to it, at their places and in order, and raises the inode number to the highest among them. |
| MkfsNodes.InodeSays | external/mtd-utils/mkfs.jffs2.c:753-811 | The inode header written says what it was made from: type, length, inode number, version, offset, sizes and compressor. |
| MkfsNodes.DirentSays | external/mtd-utils/mkfs.jffs2.c:697-718 | So does the dirent header. |
| MkfsSound.InodeSound | external/mtd-utils/mkfs.jffs2.c:753-811 | An inode node also has all attributes of its file, and passes the checks of the other tools: header, node and data checksums are those that sumtool and jffs2dump compute. |
| MkfsSound.DirentSound | external/mtd-utils/mkfs.jffs2.c:697-718 | A dirent has its time, and passes them as well. |
| MkfsSound.SoundMeans | external/mtd-utils/sumtool.c:641-837 | Which nodes sumtool takes: inode nodes and dirents that jffs2dump converts and back unchanged with all checksums made anew, xattr nodes and references whose checksums in the bytes are right, and no others. |
| MkfsNodes.TilesMore | external/mtd-utils/mkfs.jffs2.c:766-824 | A fragment with the next version and the next offset continues a tiling of the file. |
| MkfsImage.ImageWriter.constructor | external/mtd-utils/mkfs.jffs2.c:1322-1330 | The cleanmarker that is set up reads back with the magic, its type, its size, the right checksum and 0xff behind it; the empty image is laid out. |
| MkfsImage.ImageWriter.PutNode | external/mtd-utils/mkfs.jffs2.c:715-718 | A node is written 4-aligned within one erase block, and the blocks of the image still hold all nodes written; just its bytes and the 0xff behind them join the output. |
| MkfsImage.ImageWriter.PadBlock | external/mtd-utils/mkfs.jffs2.c:641-647 | The block is filled with 0xff up to its end; the nodes in it stay. |
| MkfsImage.ImageWriter.PadBlockIfLessThan | external/mtd-utils/mkfs.jffs2.c:669-688 | If the bytes asked for fit behind what is in the block, nothing is written; if the block is new, only a cleanmarker if there are to be any; otherwise 0xff up to the end of the block, and then that. Afterwards the bytes fit. |
| MkfsImage.ImageWriter.WriteDirent | external/mtd-utils/mkfs.jffs2.c:690-719 | The node with the next version, and nothing else, is added to the image, in the same block if it fits that. |
| MkfsImage.ImageWriter.WriteFragment | external/mtd-utils/mkfs.jffs2.c:773-824 | Each fragment fits its erase block, is not empty and stands for the next bytes of the file; it is what the choice among the compressors gives for all that is left of the block, and says the attributes of the file. |
| MkfsImage.ImageWriter.WriteRegularFile | external/mtd-utils/mkfs.jffs2.c:766-840 | It ends, and the nodes it adds tile the file: versions 1, 2, 3 and so on, consecutive offsets, and decompressing and joining them gives the file, also when it is empty; each has the attributes of the file and right checksums. |
| MkfsParse.ParseImage | external/mtd-utils/mkfs.jffs2.c:1427-1552 | Reading back whatever was written, block by block: the nodes visited are exactly those written, in order, each at the offset where it lies, and the inode number kept is the highest of theirs. |
| MkfsParse.HighestIs | external/mtd-utils/mkfs.jffs2.c:1452-1470 | That number is no less than any inode number of an inode node, and is one of them or the one before. |
| MkfsSum.ImageTaken | external/mtd-utils/sumtool.c:641-837 | From an image that mkfs.jffs2 wrote, cut into erase blocks, sumtool takes exactly the nodes that were written, once and in order. |
| MkfsSum.SumMkfsImage | external/mtd-utils/sumtool.c:840-862 | Writing an image with mkfs.jffs2 and giving it to sumtool: the nodes of the summed image are those that were written, in order. |
| MkfsSwap.ImageKept | external/mtd-utils/jffs2dump.c:423-631 | An image that mkfs.jffs2 wrote is converted to one of the same length, and converting that back gives it again, byte for byte. |
| MkfsSwap.DirentGood | external/mtd-utils/mkfs.jffs2.c:697-718 | The condition on its nodes for that holds of every dirent written ... |
| MkfsSwap.InodeGood | external/mtd-utils/mkfs.jffs2.c:753-811 | ... and of every inode node. |
| ComprList.ListInsert | external/mtd-utils/compr.c:27-45 | Splicing an entry in between two neighbours of a ring gives the ring with it there. |
| ComprList.ListDelete | external/mtd-utils/compr.c:47-58 | Taking one out gives the ring without it. |
| ComprList.SlotKeepsOrder | external/mtd-utils/compr.c:348-358 | The place an entry is put at keeps the priorities from falling out of order, and is behind its equals. |
| ComprList.Compressors.Register | external/mtd-utils/compr.c:339-364 | The list stays a ring in non-increasing order of priority; a named entry is added before the first of lower priority, one without a name is refused. |
| ComprList.Compressors.Unregister | external/mtd-utils/compr.c:366-378 | Exactly this entry goes, unless it is in use. |
| ComprList.Compressors.SetPriority | external/mtd-utils/compr.c:484-509 | The first entry of the name gets the priority and its new place, the others keep theirs; an unknown name changes nothing. |
| ComprChoice.FirstMadeAt | external/mtd-utils/compr.c:230-255 | In priority mode the choice is the first compressor of the list that there is a function for, that is not disabled and that succeeds; none if there is no such one. |
| ComprChoice.CandsAt | external/mtd-utils/compr.c:256-300 | In the other modes the results chosen from are those of all compressors that there is a function for, that are not disabled, and that succeed and make the data shorter, in the order of the list. |
| ComprChoice.LastLengthAt | external/mtd-utils/compr.c:256-330 | Data stored as they are are as long as the last compressor tried left the length, or as there is room. |
| ComprChoice.SizeChoice | external/mtd-utils/compr.c:171-178 | In size mode the choice is the first smallest of the results. |
| ComprChoice.FavourLzoChoice | external/mtd-utils/compr.c:179-190 | With one LZO result, in favour-LZO mode: LZO exactly if every other result is larger than 80 percent of it (rounded down), or just that and later in the list; else the first smallest of the others. |
| ComprChoice.Compress | external/mtd-utils/compr.c:213-336 | In each mode what is reported is that choice, its code and lengths, and without one the data as they are; it stands for a prefix of the data that is not empty. Without compression it is the data itself, as far as there is room. |
| EndianNodes.FieldsKeep | external/mtd-utils/jffs2dump.c:462-522 | Each field of a swapped structure, read in the other byte order, has the value it had. |
| EndianNodes.InodeReads | external/mtd-utils/jffs2dump.c:462-498 | A reader of the other byte order finds all fields of a converted inode node, and its data, as they were. |
| EndianNodes.DirentReads | external/mtd-utils/jffs2dump.c:500-522 | So it does with a dirent and its name. |
| EndianNodes.InodeTwice | external/mtd-utils/jffs2dump.c:462-498 | Converting an inode node twice gives it back exactly when its header and node checksums (and its data checksum, if that is recalculated) were right. |
| EndianNodes.DirentTwice | external/mtd-utils/jffs2dump.c:500-522 | The same for a dirent. |
| EndianNodes.PlainTwice | external/mtd-utils/jffs2dump.c:524-538 | The same for cleanmarkers and padding nodes. |
| EndianNodes.InodeRepaired | external/mtd-utils/jffs2dump.c:462-498 | Whatever checksums an inode node had, the converted one has the right ones. |
| EndianConvert.BodyTwice | external/mtd-utils/jffs2dump.c:560-603 | Swapping the records of a summary twice, each read in the order it is in, gives them back. |
| EndianConvert.RecordReads | external/mtd-utils/jffs2dump.c:560-594 | A reader of the other byte order finds all fields of a swapped summary record as they were, and the name of a dirent. |
| EndianConvert.SummaryReads | external/mtd-utils/jffs2dump.c:540-551 | So it does with the header of the summary. |
| EndianConvert.SummaryTwice | external/mtd-utils/jffs2dump.c:540-615 | Converting a summary node twice gives it back exactly when its three checksums were right. |
| EndianConvert.ItemTwice | external/mtd-utils/jffs2dump.c:437-626 | The same for everything that can stand in an image. A node of an unknown type is dropped, and a word with the magic and node type 0xffff does not come back. |
| EndianConvert.ConvertTwice | external/mtd-utils/jffs2dump.c:423-631 | For every image: converting gives an image that is not longer; converting back gives the original bytes if and only if every node is of a known kind with the right checksums, and then length and node boundaries are the same. |
| EndianConvert.ConvertRepairs | external/mtd-utils/jffs2dump.c:423-631 | Whatever the image was, the one written has only known nodes with the right checksums. |
| EndianConvert.ThereAndBack | external/mtd-utils/jffs2dump.c:423-631 | So from an image that was written by the conversion, there and back again loses nothing. |
| EndianMirror.InodeSame | external/mtd-utils/jffs2dump.c:462-498 | Every field of a converted inode node by its place, read in the other byte order, is as it was, so are its data, and its checksums are right. |
| EndianMirror.DirentSame | external/mtd-utils/jffs2dump.c:500-522 | The same for a dirent and its name. |
| EndianMirror.SummarySame | external/mtd-utils/jffs2dump.c:540-615 | The same for a summary, record by record. |
| EndianMirror.ConvertMirrors | external/mtd-utils/jffs2dump.c:423-631 | The whole image, read in both byte orders side by side: nodes of the five known types say what they said, with the right checksums; erased words are the same; other words that do not start a node have the bytes of their halves swapped; nodes of other types are gone; and nothing else is in it. |
| EndianMirror.MirroredSized | external/mtd-utils/jffs2dump.c:423-631 | The conversion is defined for every image that has such a counterpart. |
| EndianInPlace.SwapBody | external/mtd-utils/jffs2dump.c:560-603 | The loop over the records swaps them, over the padding, and the marker, in place; nothing else in memory changes. |
| EndianInPlace.ConvertItem | external/mtd-utils/jffs2dump.c:437-626 | What stands at the pointer is written out converted and stepped over. |
| EndianInPlace.DoEndianConvert | external/mtd-utils/jffs2dump.c:423-631 | The loop writes the conversion of the image; in memory only the summaries have changed. |
| Dnssl.DecodeAll | external/radvd/process.c:460-500 | Plain suffixes are read back, all and in order, with any zero padding and options behind them. |
| Dnssl.FoundPlain | external/radvd/process.c:460-500 | From labels without dots only plain suffixes are read, whatever else stands there. |
| Dnssl.FoundShort | external/radvd/process.c:483-494 | From any bytes at all, no suffix longer than the buffer is read. |
| Dnssl.RoundTrip | external/radvd/send.c:403-436 | Decoding what encoding made gives the suffix list if and only if every suffix has only non-empty labels, no dot at the end, at most 255 characters, and at most 254 if it is one label. Padding adds none, and none is reported oversized. |
| Dnssl.EncodeWire | external/radvd/send.c:403-436 | A suffix made of labels is written as each label behind its length, and a zero at the end; only if it ends in a dot is the zero missing. |
| Dnssl.Oversized | external/radvd/process.c:483-494 | At a label with which the suffix does not fit the buffer, or which reaches the end of the message, reading stops: the plain suffixes before it are found, and nothing behind it, whatever that is. |
| RaOptions.DnsslOption | external/radvd/send.c:381-444 | The length byte counts the padded bytes, of any list. |
| RaOptions.LinkFramed | external/radvd/send.c:467-486 | The link-layer address option is as long as it says if and only if the address has 6 or 14 bytes. |
| RaOptions.PrefixRead | external/radvd/send.c:263-298 | What a neighbour reads in a prefix option is the prefix, its flags and its lifetimes; of a prefix that is given up, the shortest valid lifetime and 0. |
| RaOptions.RouteRead | external/radvd/send.c:316-338 | The same for a route, its preference and its lifetime. |
| RaOptions.ServersRead | external/radvd/send.c:351-370 | Each server is where the reader looks for it, and their number is what it takes from the length. |
| RaOptions.SinglesRead | external/radvd/send.c:450-536 | The same for MTU, link-layer address, interval and home agent. |
| RaOptions.ListRead | external/radvd/send.c:381-444 | A search list option has its lifetime, the encoded suffixes and zeros up to a multiple of eight, which its length byte counts. |
| RaOptions.OptionRead | external/radvd/send.c:253-536 | Every option as it is sent, read byte by byte: its type number, its length and all its fields are those of the configuration, also when the router stops advertising. |
| RaOptions.LongLink | external/radvd/send.c:467-486 | An address of eight bytes makes an option the walk takes for longer than the message. |
| RaOptions.FewServers | external/radvd/process.c:413-416 | An RDNSS option with fewer than three servers at the end of a message is not looked at: the reader wants room for three. |
| RaOptions.WalkMeets | external/radvd/process.c:305-342 | For any options: the walk meets them all, in order and up to the end, if and only if each is as long as its length byte says and there is room for the structure it is read as. |
| RaOptions.WalkMeans | external/radvd/process.c:305-508 | The walk over any bytes: what it meets are the options from the start on, one behind the other, each as long as it says and with enough behind it to be read, up to the first place where that is not so; what stands there decides how the walk ends. |
| RaOptions.AdvertWalk | external/radvd/process.c:305-342 | For options of an advertisement that condition is: the link-layer address has 6 or 14 bytes, and from each RDNSS option 56 bytes are left. |
| RaReceive.ReadSuffixes | external/radvd/process.c:460-500 | The loop over one search list finds what decoding defines. |
| RaReceive.ProcessRa | external/radvd/process.c:298-508 | The loop over the options meets what the walk defines, ends as it does, and takes up the suffixes of the search lists it met. |
| RaReceive.NamesArrive | external/radvd/process.c:455-501 | When the walk reaches the end, the suffixes taken up are those of all our lists, in order, if and only if each of them is plain. |
| RaSend.Message.Append | external/radvd/send.c:105-114 | Bytes are appended exactly if less than the whole buffer is then used; the rest of the buffer stays zero. |
| RaSend.Message.AppendList | external/radvd/send.c:381-444 | The loops over suffixes and labels append just the search list option, with its length byte set afterwards. |
| RaSend.AppendPrefixes | external/radvd/send.c:253-302 | The enabled prefixes are appended, and those to be decremented keep the lifetimes that were sent. |
| RaSend.HeadRead | external/radvd/send.c:228-251 | What a neighbour reads in the header is what is configured; the lifetime is 0 if the router stops advertising or does not forward. |
| RaSend.OptionsSent | external/radvd/send.c:253-536 | Which options are sent, by their place: the enabled prefixes, all routes, servers and search lists, each kind in the order configured ... |
| RaSend.TailSent | external/radvd/send.c:446-536 | ... and then MTU, link-layer address, interval and home agent as far as they are wanted, and nothing else. |
| RaSend.SendRa | external/radvd/send.c:222-536 | The advertisement is built exactly if it fits the buffer, and is then the header and all options in order; the lifetimes of each enabled prefix that is to be decremented, and is not given up, are less by the seconds since the last one, or 0, and all others are as they were. |
| RaSend.SentIsMet | external/radvd/send.c:253-536 | What is sent is met by the walk of a neighbour, option by option and to the end, if and only if a link-layer address that is sent has 6 or 14 bytes and 56 bytes are left from each RDNSS option. |
| RaSend.SendThenRead | external/radvd/send.c:222-536 | From the configuration to the neighbour: all options are met exactly if the link-layer address and the room behind the servers allow it, and then the suffixes taken up are those configured exactly if each of them is plain. |

## Left out

- Jffs2Dir.Put: the times of a directory entry are not kept; the list of `collectdir` does not hold them.
- Jffs2Reader.ListedIffResolved: directory number 0 is left out, which `resolvedirent` takes for any directory.
- Jffs2Reader.CollectDir: images with two dirents of one version in a directory, or with a version of 2^32 - 1, are not well-formed; nodes must lie inside the image.
- Nandwrite.Writer.Run: sizes do not wrap at 2^31, where `imglen` and the counter of the erase loop do; block alignments other than 1, OOB data, starts inside a block and `noskipbad` are left out; masks with the block size are remainders.
- Nanddump.Dump: the modes that pad or dump bad blocks, OOB data and the pretty printer are left out.
- Rtime.CompressDecompress: inputs longer than 32768 bytes, whose positions do not fit a `short`.
- Sumtool.Sumtool.CreateSummedImage: nodes must lie inside their input block; each must fit an output block with the cleanmarker and its summary, and together with its record, `MostRecords` bytes of other records and 40 bytes not exceed one, so that the room check is right wherever the node comes; what the tool prints is left out.
- Sumtool.Sumtool.SumImage: a read of the input gives some number of whole nodes, and does not fail.
- MkfsParse.ParseImage: the file is read in whole erase blocks.
- Sumtool.Sumtool.WriteToBuff: the four functions for inode, dirent, xattr and xref nodes are one, by node type.
- MkfsImage.ImageWriter.WriteRegularFile: skipping files that are too large, and what is counted for display, are left out. The checksum of nothing is 0, as `mtd_crc32` has it.
- ComprChoice.Compress: usage and size statistics, the buffers and the self-check are left out, and allocation succeeds.
- Hardlinks.Mkfs.HardLinksShare: inode numbers do not wrap at 2^32, and entries of one device and inode have the same type and size, as they are one file.
- EndianConvert.ConvertTwice: images whose last node is cut off, or with a summary whose records do not fit it, where the tool reads past the image, or exits; and with a node of unknown type whose length is below 12, on which the tool steps within the header, or, with a length of 0, does not end.
- RaSend.SendRa: the copies of unused RDNSS addresses behind the end of the option are left out, as the configuration keeps these at zero; the advertisement interval is given in milliseconds, not computed from floating-point timers.
- RaReceive.ProcessRa: comparing the options met with the own configuration, and the check in line 462, which cannot fail after that in line 335.
- `rb_replace_node`, which nothing here calls.
- Xattr nodes of mkfs, and its pipes, devices and links, which write one node each like a file's.
- The padding at the end of `create_target_filesystem`, and the walk over the host's directories and the device table.
- `catfile`, which prints the node of the lowest version only, and `resolvepath`.
- Reading an image of mkfs with jffs2reader as a round trip: the first dirent gets version 0, which the reader skips.
- The polynomial of the checksum, zlib and LZO: they are parameters.
- `addr_match`, `process_rs`, sockets, timers, privilege separation, configuration grammar and logging of radvd.
- The other tools of `external/mtd-utils`: erasing, locking, OTP, FTL and NFTL, image servers, UBI.
