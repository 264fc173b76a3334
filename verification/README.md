# Model and proofs for micro-container

This project models the parts of micro-container ("cage") that carry an algorithm or a protocol,
and proves what they are for. `dafny verify dfyconfig.toml` checks all of it.

## What is modelled

**The DEFLATE and gzip decoder** (`src/compress/`). `Bits.dfy` says what the bits of a byte string
are; `BitReader.dfy` is the prefetching reader and `HuffmanTable.dfy` the decoding tables, both as
classes updated in place. `HuffmanCode.dfy` defines the canonical code of section 3.2.2 of RFC 1951
and proves when it is a prefix code. `InflateSpec.dfy` gives each function of `inflate.c` as a
function of the bits and of the output so far; `Inflate.dfy` has the methods, with the loops and
arrays of the source, and proves each against it on every input. `DeflateEncoder.dfy` and
`DeflateStream.dfy` are an encoder for stored, fixed and dynamic blocks, with formulas where the decoder
has tables, and the proof that inflation inverts it. `DeflateSound.dfy` is the converse: what is accepted
on any input is an encoding of what is put out. `InflateBounds.dfy` holds for every input: expansion and truncation. `Crc.dfy` proves the
table-driven checksums equal to polynomial division; `Ext4Checksum.dfy` uses them as the ext4 code does.
`Gzip.dfy` and `GzipFormat.dfy` are the gzip frame and its round trip.

**The handshake** (`src/core/cage.c`, `src/core/child.c`, `src/sandbox/nssetup.c`). `Handshake.dfy`
has the launcher and the container process as two programs over two shared words. One step is one
access to a word, one system call, or a stretch of work that the other side cannot see; the child may
die at any of them. The parent's wait on a futex ends by a wake, by its timeout, or at once when the
word has changed.

**The environment map** (`src/util/env_map.c`). `ProbeTable.dfy` is the theory of linear probing and
`EnvMap.dfy` the map with its four arrays. The hash is any function from strings to numbers.

**The ext4 generator** (`src/ext4/`). `Ext4Layout.dfy` has the addresses and `Ext4Accounting.dfy` the
bitmaps, descriptors, totals and the resize inode's two levels of lists. The numbers of groups, flex
groups, blocks and reserved blocks are parameters; the values of `util.h` are one instance.

**User resolution** (`src/user/`). `UserParse.dfy` reads the arguments. `Account.dfy` is the resolution
as functions of the arguments and of the two databases; `User.dfy` is the object with its lazily filled
fields, whose getters agree with that resolution in every order.

**Netlink** (`src/net/`). `Nlattr.dfy` says which bytes encode an attribute tree and what the walk
reads from bytes; `Netlink.dfy` and `Rtnl.dfy` are the writers, over a buffer filled in place;
`LinkDump.dfy` and `Veth.dfy` read dumps of links and choose the id of a veth pair.

**The path cache** (`src/util/io_cache.c`, `src/util/io.c`). `FileTree.dfy` is a tree of files and
directories and how paths resolve in it. `IoCache.dfy` is the cache of 32 entries with the operations
that change the tree. Every entry always says what `access` would say now. A flag says whether system
calls may also fail for reasons outside the model; coherence does not depend on it.

`Arith.dfy`, `Options.dfy` and `Decimals.dfy`, the decimal numbers of users and of veth ids, are shared.

## What the proofs found

- Oversubscribed Huffman codes are accepted. Every symbol can be decoded from its codeword exactly
  when the Kraft sum is at most 1 (`HuffmanCode.AllDecodableIffPrefixed`).
- Truncation is always noticed in fixed and dynamic blocks, although three reads are used unchecked.
  In stored blocks it is not: NLEN is read and ignored, so that a block of no byte or one can be cut
  before the end of NLEN and still be accepted. `InflateBounds.StoredTruncation` says exactly when.
- Otherwise inflation tolerates codes that are not prefix codes, and a last run of lengths that is too
  long, and nothing else: every accepted block is an encoding of what it puts out
  (`DeflateSound.DynamicSound`), and with fixed codes just those are accepted (`DeflateSound.FixedSound`).
- The gzip trailer is compared with the whole output buffer. Behind other output a member is rejected,
  although its payload is appended: with less than 2^32 bytes in the buffer it is accepted if and only if
  there are none (`GzipFormat.AcceptedIffEmpty`), and `GzipFormat.MemberBehind` says when for any buffer.
- The child does not look at its word again after its wait. A futex wait that returns without a wake,
  as Linux permits after a signal, lets it go on. The order of the two sides survives that exactly when
  the parent has finished its host-side work and is about to store 2, or has stored it
  (`Handshake.SpuriousReturnOrder`); a run where it does not is `Handshake.SpuriousReturnBreaksOrder`.
- `docs/internals.md` says that the environment map grows beyond 70 percent and shrinks again. The code
  grows at 70 percent and never shrinks; the model follows the code.
- A group name given twice is resolved once for each database entry of that name, so the second stays
  unresolved where there is only one (`Account.EachTokenItsEntry`).
- Without a group file, a leading group name hides a number behind it when the primary group is chosen,
  though not when the list of groups is made (`Account.HiddenNumber`, `Account.PrimaryIsFirstNumber`).
- `netlink_nest_end` cuts the length of a nest to 16 bits. A tree is read back exactly when every nested
  attribute is shorter than 2^16 bytes (`Nlattr.ReadBackIffNarrow`).
- The loops over a dump of links keep what is left of it in a size_t. Behind a last message without
  padding that wraps round, and they would read behind the buffer (`LinkDump.RunsOn`).
- `io_mkdir_own` succeeds on an existing regular file, as `IoCache.OwnOnFile` does it. When it reports
  success there is a directory if and only if there was no file before (`IoCache.Io.IoMkdirOwn`).
- The ext4 layout is disjoint if and only if no copy of the superblock but the first is in a group where
  a flex group starts (`Ext4Layout.DisjointIffCopiesOff`); any even number of groups per flex group will do.
- A descriptor's free count is clamped at 0 and cut to 16 bits, so that it is right exactly when the free
  blocks are between 0 and 2^16 - 1 (`Ext4Accounting.CountIsRight`). `Ext4Accounting.FreeCountsAddUp` says
  when descriptors and superblock agree.
- A flex group that is not complete counts blocks as used that belong to nothing: those kept for groups
  that do not exist (`Ext4Layout.FrontIsOwned`). The generator's 80 groups of 16 have no such group.
- The resize inode's first-level list goes round: it names every reserved block only while there are no
  more of them than it has entries (`Ext4Accounting.NamedOnce`).

## Model

| member | source | states |
|---|---|---|
| `BitReader.Reader.constructor` | src/compress/bitread.c:45-52 | A fresh reader stands at bit 0 of its input. |
| `BitReader.Reader.Need` | src/compress/bitread.c:5-14 | Prefetches whole bytes without moving the logical position; it fails exactly when the input has fewer bits left than asked for, and then has lost nothing. |
| `BitReader.Reader.Peek` | src/compress/bitread.c:16-21 | Sees the next n bits, first bit lowest, without consuming them, and nothing when there are not that many. |
| `BitReader.Reader.Drop` | src/compress/bitread.c:23-27 | Consumes bits that were prefetched. |
| `BitReader.Reader.ReadBits` | src/compress/bitread.c:29-36 | Returns the next n bits of the input as a number, least significant first, and advances by n; a failed read leaves the position where it was. |
| `BitReader.Reader.Align` | src/compress/bitread.c:38-43 | Lands on the next byte boundary of the input although whole bytes were prefetched beyond it. |
| `Bits.ValueAt` | src/compress/bitread.c:16-21 | Reading n bits where a number was written least significant bit first gives that number back (section 3.1.1 of RFC 1951). |
| `HuffmanTable.Huff.constructor` | src/compress/bitread.c:88-95 | Builds, for any lengths in 0..15, tables that represent the canonical code of section 3.2.2 of RFC 1951. |
| `HuffmanTable.Huff.CountLengths` | src/compress/bitread.c:54-61 | Counts the symbols of each length. |
| `HuffmanTable.Huff.AssignCodes` | src/compress/bitread.c:63-70 | Computes for each length the first codeword and the first index. |
| `HuffmanTable.Huff.Place` | src/compress/bitread.c:72-86 | Sorts the used symbols by length and then by value, in place, without two symbols meeting in one slot. |
| `HuffmanTable.Huff.PlaceSymbols` | src/compress/bitread.c:77-85 | The placement loop: after it, slot k of length b holds the k-th symbol of that length. |
| `HuffmanTable.Huff.PlaceOne` | src/compress/bitread.c:77-85 | One round of it: after round i the first i + 1 symbols are at their slots. |
| `HuffmanTable.SlotInjective` | src/compress/bitread.c:72-86 | Different used symbols get different slots, so that placement overwrites nothing. |
| `HuffmanTable.SlotBound` | src/compress/bitread.c:72-86 | The slot of every used symbol is below the number of lengths, so all table accesses are in range on every input. |
| `HuffmanTable.Huff.Decode` | src/compress/bitread.c:97-111 | The bit-by-bit loop over the tables agrees with decoding by the canonical code, in the symbol and in the bits consumed, on every input, including codes that are oversubscribed or incomplete; the test for a code below the first of its length never succeeds. |
| `HuffmanCode.DecodeSound` | src/compress/bitread.c:97-111 | A symbol is only ever decoded where its codeword stands, for any lengths, and exactly its codeword is consumed. |
| `HuffmanCode.DecodeIffCodeword` | src/compress/bitread.c:97-111 | For a Kraft sum of at most 1: symbol i is decoded exactly where its codeword stands, with any bits behind it. |
| `HuffmanCode.PrefixFree` | src/compress/bitread.c:63-70 | For a Kraft sum of at most 1, no codeword is the beginning of another. |
| `HuffmanCode.AllDecodableIffPrefixed` | src/compress/bitread.c:63-70 | Every symbol can be decoded from its codeword exactly when the Kraft sum is at most 1: what accepting oversubscribed codes costs. |
| `HuffmanCode.Oversubscribed` | src/compress/bitread.c:63-70 | Above that sum, some symbol has a codeword that does not fit its length. |
| `HuffmanCode.KraftIsUsed` | src/compress/bitread.c:63-70 | The first-code recurrence adds up the Kraft sum. |
| `HuffmanCode.FirstCodeword` | src/compress/bitread.c:63-70 | The rules of section 3.2.2 of RFC 1951, which leave no choice of codewords: the first one is all zeros. |
| `HuffmanCode.NextCodeword` | src/compress/bitread.c:63-70 | Every other codeword, in the order of length and then of symbol, is the number after the one before it, with zeros appended up to its own length. |
| `Inflate.DecodeStored` | src/compress/inflate.c:25-40 | Copies a stored block's bytes from the next byte boundary; the length check is the code's, which ignores NLEN. |
| `Inflate.FixedHuff` | src/compress/inflate.c:42-54 | Fills in the fixed lengths of section 3.2.6 of RFC 1951. |
| `Inflate.FillRep` | src/compress/inflate.c:56-64 | A run is written in place and clamped at the end of the lengths. |
| `Inflate.RepLen` | src/compress/inflate.c:66-83 | Symbols 16, 17 and 18 repeat the previous length or zero; 16 with nothing before it is an error. |
| `Inflate.DecodeLen` | src/compress/inflate.c:85-101 | The loop over run-length coded lengths agrees with its specification on every input and ends. |
| `Inflate.ReadCodeLengths` | src/compress/inflate.c:103-118 | Reads the code of the lengths, in the odd order of section 3.2.7, and then the lengths; all indices into the arrays are in range. |
| `Inflate.ReadDynamic` | src/compress/inflate.c:120-130 | Reads a dynamic header into the arrays for 320 and 32 lengths and builds both tables; no index leaves the arrays on any input, although two reads are used unchecked. |
| `Inflate.GetLen` | src/compress/inflate.c:132-146 | The length of a match, or an error for symbols above 285. |
| `Inflate.GetDist` | src/compress/inflate.c:148-163 | The distance of a match, or an error for distance symbols above 29. |
| `Inflate.CopyDist` | src/compress/inflate.c:165-178 | The byte-by-byte copy yields byte i modulo the distance of the end of the output, overlapping or not, and rejects distances beyond it. |
| `Inflate.NextCopied` | src/compress/inflate.c:165-178 | The byte that the copy loop reads, old or just written, is the one the closed form of an overlapping match asks for. |
| `Inflate.DoSym` | src/compress/inflate.c:180-197 | One literal, end-of-block or match. |
| `Inflate.RunLoop` | src/compress/inflate.c:199-211 | Decodes symbols until the block ends; the remaining bits fall in every round. |
| `Inflate.BuildFixed` | src/compress/inflate.c:213-219 | The tables of the fixed codes. |
| `Inflate.InflateBlock` | src/compress/inflate.c:221-239 | Result, position and output of one block agree with the specification on every input, accepted or not. |
| `Buffer.Buf.Grow` | src/util/mem.c:99-111 | Makes room for what is asked and keeps the contents. |
| `Buffer.Buf.AppendByte` | src/util/mem.c:122-127 | Appends one byte and changes nothing else. |
| `DeflateEncoder.EveryMatch` | src/compress/inflate.c:132-163 | Every length in 3..258 and distance in 1..32768 has a symbol and extra bits. |
| `DeflateEncoder.LengthTable` | src/compress/inflate.c:6-13 | The tables of lengths hold what the formulas of section 3.2.5 give: four symbols for each number of extra bits, and one for 258. |
| `DeflateEncoder.DistanceTable` | src/compress/inflate.c:15-21 | So do those of distances: two symbols for each number of extra bits. |
| `DeflateEncoder.ListedOrder` | src/compress/inflate.c:23 | The order of the code lengths, in closed form: 16, 17, 18, 0, and then from 8 outwards, upwards and downwards in turn. |
| `DeflateEncoder.ReadsTimes` | src/compress/inflate.c:66-83 | Symbol 16 repeats the last length 3 times and more with 2 further bits, 17 gives 3 zeros and more with 3 bits, 18 gives 11 zeros and more with 7. |
| `DeflateEncoder.RunLoopInverts` | src/compress/inflate.c:199-211 | For any two prefix codes, decoding the encoding of a list of literals and matches appends the bytes they denote, matches into earlier blocks and overlapping ones included. |
| `DeflateEncoder.DecodeLensInverts` | src/compress/inflate.c:85-101 | Any legal use of runs, also across the border between the two vectors, gives back the lengths they stand for. |
| `DeflateEncoder.ReadClLensInverts` | src/compress/inflate.c:103-118 | The code-length code is read back from where the formula of its order, and not the table, puts it. |
| `DeflateEncoder.ReadDynamicInverts` | src/compress/inflate.c:120-130 | The dynamic header round trip: exactly the literal and distance lengths are recovered, and the reader is at the first data bit (section 3.2.7 of RFC 1951). |
| `DeflateStream.EveryHeader` | src/compress/inflate.c:120-130 | Any literal and distance length vectors can be sent in a dynamic header, so that the round trip is about all of them. |
| `DeflateStream.FixedPrefixed` | src/compress/inflate.c:42-54 | The fixed codes are complete prefix codes. |
| `DeflateStream.FixedCodeword` | src/compress/inflate.c:42-54 | The fixed codewords of literals and lengths are those of the table in section 3.2.6. |
| `DeflateStream.FixedDistance` | src/compress/inflate.c:42-54 | The fixed codeword of distance symbol i is i in five bits. |
| `DeflateStream.HeaderBits` | src/compress/inflate.c:221-239 | The first bit marks the last block; the next two, low bit first, are 0 for stored, 1 for fixed and 2 for dynamic. |
| `DeflateStream.StoredInverts` | src/compress/inflate.c:25-40 | A stored block with any skipped bits in front gives back its bytes. |
| `DeflateStream.BlockInverts` | src/compress/inflate.c:221-239 | Inflating an encoded stored, fixed or dynamic block appends exactly the bytes it denotes and stops at its end. |
| `DeflateStream.InflateInverts` | src/compress/inflate.c:221-239 | The same for every list of well-formed blocks, wherever it starts and whatever was output before. |
| `DeflateStream.StreamBehind` | src/compress/inflate.c:165-178 | Matches reach into what the stream itself has put out: behind any earlier output it is well-formed too, denotes the same bytes and has the same encoding. |
| `DeflateSound.RunLoopSound` | src/compress/inflate.c:180-211 | The converse of the round trip, for any lengths and any input: compressed data that is accepted is the encoding of some literals and matches, and what is put out is what they denote. |
| `DeflateSound.DecodeLensSound` | src/compress/inflate.c:66-101 | Code lengths that are accepted are the beginning of what some items stand for; only the last run may be too long. |
| `DeflateSound.ReadDynamicSound` | src/compress/inflate.c:103-130 | Every accepted dynamic header is three counts, a length code in its order, and such items. |
| `DeflateSound.StoredSound` | src/compress/inflate.c:25-40 | Every accepted stored block is a length at the next byte boundary and as many bytes, which are put out; only the place of NLEN is not looked at. |
| `DeflateSound.FixedSound` | src/compress/inflate.c:221-239 | Every accepted block with fixed codes is the encoding of one; with BlockInverts, exactly the encodings are accepted. |
| `DeflateSound.DynamicSound` | src/compress/inflate.c:221-239 | Every accepted block with dynamic codes is such a header and the encoding, in the codes it describes, of what is put out. |
| `InflateBounds.BlockBounded` | src/compress/inflate.c:221-239 | On every input a block adds at most 129 bytes for each bit consumed. |
| `InflateBounds.InflateBounded` | src/compress/decompress.c:109-115 | Nothing inflates to more than 1032 times its length. |
| `InflateBounds.CodeLengthsNeed` | src/compress/inflate.c:103-118 | The unchecked read of the number of code lengths does no harm: when it fails, reading the lengths fails. |
| `InflateBounds.CutBlock` | src/compress/inflate.c:221-239 | A cut fixed or dynamic block that is accepted at all was cut behind its last bit. |
| `InflateBounds.TruncationRejected` | src/compress/inflate.c:199-239 | A fixed or dynamic block cut at any byte before its last consumed bit is rejected. |
| `InflateBounds.StoredAccepted` | src/compress/inflate.c:25-40 | Exactly when stored data is accepted: a missing NLEN goes unnoticed. |
| `InflateBounds.StoredTruncation` | src/compress/inflate.c:25-40 | Exactly which cuts of an accepted stored block are accepted too: those before the end of NLEN that leave as many bytes behind LEN as it says; this happens to blocks of no byte or one only. |
| `Gzip.SkipString` | src/compress/decompress.c:37-45 | Goes behind the terminating zero, or fails at the end of the input. |
| `Gzip.SkipFextra` | src/compress/decompress.c:29-35 | Goes behind the extra field as its length says, or fails. |
| `Gzip.SkipTail` | src/compress/decompress.c:47-63 | Skips the optional fields that the flags announce, in order. |
| `Gzip.SkipHeader` | src/compress/decompress.c:65-74 | Where the DEFLATE data starts, or -1. |
| `Gzip.CheckTrailer` | src/compress/decompress.c:84-97 | Compares CRC-32 and length modulo 2^32 with the last eight bytes. |
| `Gzip.DecompressGzip` | src/compress/decompress.c:99-117 | Result and output agree with the specification on every input. |
| `GzipFormat.SkipsHeader` | src/compress/decompress.c:65-74 | Any header (section 2.3 of RFC 1952), with any choice of optional fields, is skipped to its end. |
| `GzipFormat.HeaderIff` | src/compress/decompress.c:65-74 | Exactly the headers of the format, in front of enough input, are accepted, and skipped to their end. |
| `GzipFormat.AcceptedHeader` | src/compress/decompress.c:8-17 | What is accepted starts with 31, 139 and 8, and gives back its optional fields. |
| `GzipFormat.FlagValue` | src/compress/decompress.c:47-63 | The flags as numbers (section 2.3.1 of RFC 1952): 1 for text, 2 for the header's checksum, 4 for extra data, 8 for a name, 16 for a comment. |
| `GzipFormat.StreamOfPack` | src/compress/bitread.c:5-14 | Bits packed into bytes are read back as those bits. |
| `GzipFormat.GzipInverts` | src/compress/decompress.c:99-117 | The gzip round trip: decompressing a member into an empty buffer gives the payload that its blocks denote. |
| `GzipFormat.MemberBehind` | src/compress/decompress.c:84-117 | Behind any earlier output a member appends its payload, and is accepted exactly when the length of that output is a multiple of 2^32 and its bytes leave the checksum unchanged, since the trailer is compared with the whole buffer. |
| `GzipFormat.AcceptedIffEmpty` | src/compress/decompress.c:84-97 | So, with less than 2^32 bytes in the buffer, a member is accepted exactly when there are none. |
| `GzipFormat.EveryPayload` | src/compress/decompress.c:99-117 | Every byte string is the payload of some member, for any header, and is read back. |
| `GzipFormat.Crc32IsRemainder` | src/compress/crc32.c:6-30 | The checksum of a payload from its definition (section 8 of RFC 1952): first 32 bits complemented, times x^32, divided by the polynomial, remainder complemented. |
| `GzipFormat.TrailerIs` | src/compress/decompress.c:84-97 | A trailer is accepted exactly when its first four bytes are that remainder, bit by bit, and its last four the length modulo 2^32. |
| `GzipFormat.AcceptedIsChecked` | src/compress/decompress.c:99-117 | What acceptance means for any input: the trailer's checksum and length are the output's, nothing earlier was overwritten, and the output is at most 1032 times the data. |
| `Crc.Table.Init` | src/compress/crc32.c:6-21 | Each table entry is its index after eight steps of polynomial division. |
| `Crc.Table.UpdateCrc` | src/compress/crc32.c:23-30 | The table-driven loop computes the register that bitwise division gives, for any polynomial; with the other polynomial it is ext4_crc32c (src/ext4/csum.c:15-28). |
| `Crc.ByteAtOnce` | src/ext4/csum.c:15-28 | One table look-up does the work of eight steps. |
| `Crc.UpdateIsRemainder` | src/compress/crc32.c:23-30 | The checksum is the remainder of polynomial division over GF(2), with the register complemented at both ends (section 8 of RFC 1952). |
| `Crc.Crc32Terms` | src/compress/crc32.c:14 | The polynomial of CRC-32 by its exponents. |
| `Crc.Crc32cTerms` | src/ext4/csum.c:3 | That of CRC-32C. |
| `Crc.UpdateSplit` | src/compress/crc32.c:23-30 | Checksumming in pieces is checksumming the concatenation. |
| `Crc.E2fsPieces` | src/ext4/csum.h:12-15 | A checksum carried on over three pieces is the remainder of polynomial division of their concatenation. |
| `Crc.E2fsIsRemainder` | src/ext4/csum.h:12-15 | An ext4 checksum is the remainder of the message with the seed added to its first 32 bits. |
| `Ext4Checksum.Crc32cE2fs` | src/ext4/csum.h:12-15 | The complements of ext4_crc32c are undone at both ends. |
| `Ext4Checksum.InodeSetCsum` | src/ext4/util.c:97-109 | Afterwards the two halves stored in an inode are the checksum of its number, its generation and itself with both fields cleared, and nothing but those fields has changed. |
| `Ext4Checksum.InodeSignedIs` | src/ext4/util.c:97-109 | What a signed inode is, by definition: the four bytes at 0x7C and 0x82 are the remainder of number, generation and the inode with zeros there. |
| `Ext4Checksum.GdtSetCsum` | src/ext4/util.c:111-119 | Afterwards a descriptor holds the lower half of the checksum of its number and itself with that field cleared, and nothing else has changed. |
| `Ext4Checksum.DescSignedIs` | src/ext4/util.c:111-119 | What a signed descriptor is: the two bytes at 0x1E are the lower half of the remainder of number and descriptor with zeros there. |
| `Ext4Checksum.DirCsum` | src/ext4/util.c:139-148 | The checksum of a directory block covers inode number, generation and all but its tail of twelve bytes. |
| `Handshake.ParentStep` | src/core/cage.c:62-99 | What a parent step can do to the child: nothing, wake it out of its wait, or reap it. |
| `Handshake.NextKeepsInv` | src/core/cage.c:276-288 | Every step of either process, and the child's death anywhere, keeps the invariant. |
| `Handshake.RunInv` | src/sandbox/nssetup.c:122-139 | The invariant holds at every instant of every interleaving. |
| `Handshake.Safety` | src/core/child.c:214-228 | In every run: the child configures its network only after the host-side work and, if it has one, always before its setup and its command; the root is removed early only after the child has left it, and before the parent waits for a living child; never twice; and at the end the child is reaped and the root is gone. |
| `Handshake.CommandRan` | src/sandbox/nssetup.c:122-139 | A child that ends without dying on the way has had its command in its own root and, if it has a network, with the network configured. |
| `Handshake.NoDeadlock` | src/core/cage.c:62-99 | No reachable state blocks both processes, and a child asleep in its wait always finds the parent able to move. |
| `Handshake.Progress` | src/core/cage.c:62-74 | Every step uses up a finite measure except a round of polling, during which the child can move. |
| `Handshake.Termination` | src/core/cage.c:203-227 | Every run in which the child always moves again, its command included, ends with the child reaped and the root removed once. |
| `Handshake.SpuriousReturnOrder` | src/core/child.c:214-221 | After a futex wait that returns without wake or change, the two sides stay in order in every continuation exactly when the parent has finished its host-side work, that is, is about to store 2 or has stored it; otherwise the next step of the child breaks the order. |
| `Handshake.SpuriousReturnBreaksOrder` | src/core/child.c:214-221 | From every start with a network, five steps of the child lead to a state where such a return lets it configure its network before the host-side work. |
| `EnvMap.EnvMap.Alloc` | src/util/env_map.c:19-35 | An empty map of the given capacity. |
| `EnvMap.EnvMap.Lookup` | src/util/env_map.c:93-105 | The probe ends, finds the key exactly when the map has it, and else stops at the empty slot where the key belongs. |
| `EnvMap.EnvMap.Rehash` | src/util/env_map.c:37-50 | Moves every entry into an empty larger table, which then holds the same map. |
| `EnvMap.EnvMap.Resize` | src/util/env_map.c:52-65 | A new capacity, the same map. |
| `EnvMap.EnvMap.MaybeGrow` | src/util/env_map.c:87-91 | Afterwards one more entry still leaves at most seven tenths of the slots used; the capacity stays below that and else doubles, by no less than 64. |
| `EnvMap.EnvMap.Put` | src/util/env_map.c:107-124 | The map is the old one with this key set, across growth and rehash, for any hash function. |
| `EnvMap.EnvMap.Get` | src/util/env_map.c:126-132 | The value of the key, or nothing exactly when the map lacks it. |
| `EnvMap.EnvMap.Ensure` | src/util/env.c:221-226 | Sets the key exactly when the map lacks it and the value is not empty. |
| `EnvMap.EnvMap.PutAll` | src/util/env_map.c:107-124 | Any sequence of puts leaves the map that the puts denote. |
| `EnvMap.EnvMap.Build` | src/util/env_map.c:146-162 | One "key=value" for each key of the map, no key twice and none left out. |
| `EnvMap.LinesRender` | src/util/env_map.c:146-162 | The lines of the first n slots are those of the entries in them, each key once. |
| `EnvMap.LastPutWins` | src/util/env_map.c:107-132 | After any puts a key has the value last put for it. |
| `EnvMap.OthersUnchanged` | src/util/env_map.c:107-132 | A key never put is as before. |
| `ProbeTable.EmptySlot` | src/util/env_map.c:87-91 | With fewer entries than slots there is an empty slot, so that every probe ends. |
| `ProbeTable.WalkMiss` | src/util/env_map.c:93-105 | A probe that meets an empty slot proves that the key is absent. |
| `ProbeTable.Insert` | src/util/env_map.c:107-124 | Filling the first empty slot of a key's probe path keeps every other key reachable. |
| `ProbeTable.Replace` | src/util/env_map.c:107-124 | Replacing the value in a key's slot changes that key only. |
| `Ext4Layout.IsPower` | src/ext4/util.c:63-70 | True exactly for the powers of b, starting with b^0. |
| `Ext4Layout.HasSuper` | src/ext4/util.c:72-77 | True exactly for groups 0 and 1 and the powers of 3, 5 and 7. |
| `Ext4Layout.HeaderCopies` | src/ext4/util.c:72-77 | Among the generator's 80 groups those are 0, 1, 3, 5, 7, 9, 25, 27 and 49. |
| `Ext4Layout.SparseIsOdd` | src/ext4/util.c:72-77 | Such groups but 0 are odd. |
| `Ext4Layout.InsideGroup` | src/ext4/util.h:35-52 | All a flex group's bitmaps and tables lie in its first group. |
| `Ext4Layout.RangesApart` | src/ext4/util.h:35-52 | In one group the ranges of two different uses do not meet. |
| `Ext4Layout.LayoutDisjoint` | src/ext4/util.h:35-52 | No block has two uses among bitmaps, inode bitmaps, inode tables, superblock and GDT copies, root directory, dindir block and journal, for any number of groups, flex size and group size where no copy but the first is in a group that starts a flex group. |
| `Ext4Layout.DisjointIffCopiesOff` | src/ext4/util.h:35-52 | That is the exact condition: the layout is disjoint if and only if no copy but the first is in such a group. |
| `Ext4Layout.CopyMeetsBitmap` | src/ext4/util.h:35-52 | In such a group, the copy and the block bitmap share the first block. |
| `Ext4Layout.EvenFlex` | src/ext4/util.c:72-77 | Flex groups of an even number of groups, as the 16 of the header, meet the condition. |
| `Ext4Layout.GeneratorJournal` | src/ext4/ext4.c:301-308 | The journal's place behind the last flex group's metadata is legal exactly when it fits there. |
| `Ext4Layout.HeaderPlaces` | src/ext4/util.h:35-52 | Some addresses in the generator's image, as numbers. |
| `Ext4Layout.FrontIsOwned` | src/ext4/ext4.c:24-52 | The blocks counted as used at the front of a group are exactly those that belong to some structure, if and only if the group does not start an incomplete flex group. |
| `Ext4Layout.NobodysBlock` | src/ext4/ext4.c:33-38 | In such a group, the bitmap's place of a group that does not exist is counted and belongs to nothing. |
| `Ext4Accounting.MarkBit` | src/ext4/util.c:134-137 | Sets one bit and leaves the others. |
| `Ext4Accounting.MarkRange` | src/ext4/ext4.c:24-58 | Sets the bits of a range and leaves the others: the loops of the bb_mark functions. |
| `Ext4Accounting.MarkMeta` | src/ext4/ext4.c:40-52 | The metadata bits of any group are its front. |
| `Ext4Accounting.BlockBitmapOf` | src/ext4/ext4.c:60-72 | A group's bitmap has exactly the bits of its blocks in use, for any legal journal. |
| `Ext4Accounting.InUseIsOwned` | src/ext4/ext4.c:60-72 | The blocks in use are, where flex groups are complete, exactly those of the structures and of the journal. |
| `Ext4Accounting.GdtCountUsed` | src/ext4/sb.c:122-142 | What a descriptor counts as used. |
| `Ext4Accounting.BitmapAgreesWithDescriptor` | src/ext4/sb.c:131-142 | In every group the bitmap has as many bits set as the descriptor counts, wherever the journal is. |
| `Ext4Accounting.SumOfDescriptors` | src/ext4/sb.c:122-142 | The descriptors of the first n groups, summed up in closed form. |
| `Ext4Accounting.CountBackupBlks` | src/ext4/sb.c:248-255 | Three blocks for each copy but the first. |
| `Ext4Accounting.ComputeUsedBlks` | src/ext4/ext4.c:278-285 | The superblock's total, computed separately, is the sum of what the descriptors count. |
| `Ext4Accounting.CountIsRight` | src/ext4/sb.c:144-151 | The stored free count is the number of free blocks exactly when that number fits 16 bits and is not negative; it is too high where more is placed in a group than it has, and else never too high. |
| `Ext4Accounting.FreeConserved` | src/ext4/sb.c:122-151 | Conservation: the free counts add up to all blocks less those used, but for what the single counts miss. |
| `Ext4Accounting.FreeCountsAddUp` | src/ext4/sb.c:144-151 | The descriptors' free counts add up to the superblock's exactly when no group has 2^16 free blocks, given that the last group has room for what is placed in it; and for smaller groups exactly when it has. |
| `Ext4Accounting.HeaderInstance` | src/ext4/ext4.c:278-308 | They do with the generator's own 80 groups, 5 flex groups, 2621440 blocks and journal of 16384. |
| `Ext4Accounting.WriteOneResizeGdt` | src/ext4/ext4.c:210-222 | Lists the copies of one reserved GDT block in ascending order and leaves the rest zero. |
| `Ext4Accounting.ResizeNblks` | src/ext4/ext4.c:179-186 | One block, the reserved GDT blocks, and as many again for each copy. |
| `Ext4Accounting.ListedExactly` | src/ext4/ext4.c:210-222 | The list in a reserved GDT block names exactly that block of every copy, each once. |
| `Ext4Accounting.WriteDindir` | src/ext4/ext4.c:224-237 | The first-level list starts behind two entries and goes round: every reserved block is entered at its place unless a later one replaces it, and nothing else is entered. |
| `Ext4Accounting.NamedOnce` | src/ext4/ext4.c:224-237 | That list names every reserved GDT block exactly when there are no more of them than it has room for, as with the 1024 of the header, each then in its place, and no block twice. |
| `Account.OneRecord` | src/user/user_resolve.c:34-80 | Every field of a known account comes from one record, the first that was asked for by number or by name. |
| `Account.UnknownAccount` | src/user/user_resolve.c:12-80 | What an unknown number or name resolves to, in every field: the number as its own group, root's defaults for 0, and the ids 65534 for a name when there is no "nobody" either. |
| `Account.NobodysRecord` | src/user/user_resolve.c:62-80 | An unknown name keeps its name and has all else from the first record of "nobody". |
| `Account.RecordDecides` | src/user/user.c:37-81 | A known account has the home and shell of its record and, given without groups, its group; but root given as 0 stays in group 0. |
| `Account.UnknownDecides` | src/user/user.c:37-81 | The home, shell and group of an unknown number or name, as constants. |
| `Account.NobodyDecides` | src/user/user.c:37-81 | An unknown name has the home, shell and group of "nobody". |
| `Account.GivenGroup` | src/user/user_parse.c:159-171 | A group that came with the user is the primary and only one. |
| `Account.EachTokenItsEntry` | src/user/user_resolve.c:107-122 | The k-th token of a name gets the k-th database entry of that name; numbers and what has no entry stay as they are. |
| `Account.OnceNamedGetsFirst` | src/user/user_resolve.c:107-122 | A name given once gets the first entry of that name. |
| `Account.GroupsExactly` | src/user/user.c:90-147 | The group list is strictly increasing and is exactly the primary group with every token that has a number. |
| `Account.NothingToAdd` | src/user/user.c:124-147 | A second get_groups changes nothing. |
| `Account.GroupsOfTokens` | src/user/user.c:90-147 | Which groups the list has, in terms of the given tokens and the database alone. |
| `Account.GroupsOfMember` | src/user/user_resolve.c:147-165 | For a user given by name alone: a group is in the list exactly when it is the account's or some entry of the database lists the user as a member. |
| `Account.GroupsWithoutFile` | src/user/user_resolve.c:167-184 | Without a group file: exactly the primary group and the numbers given. |
| `Account.PrimaryIsFirstNumber` | src/user/user.c:65-80 | Exactly when the primary group is the first token that has a number. |
| `Account.HiddenNumber` | src/user/user_resolve.c:167-184 | Without a group file a leading name hides the number behind it. |
| `User.User.constructor` | src/user/user_parse.c:144-171 | A user as the parser, or user_root_new, leaves it. |
| `User.User.ResolvePasswdNodb` | src/user/user_resolve.c:19-32 | The account without a database. |
| `User.User.ResolveByUid` | src/user/user_resolve.c:34-51 | The first record with the number, or the fallback. |
| `User.User.ResolveByName` | src/user/user_resolve.c:62-80 | The first record with the name, else nobody's. |
| `User.User.ResolvePasswd` | src/user/user_resolve.c:82-97 | Fills the account fields with the resolution, once. |
| `User.User.ResolveNamedInGroup` | src/user/user_resolve.c:107-122 | The nested loops over entries and tokens. |
| `User.User.MemberOfGroup` | src/user/user_resolve.c:124-133 | Whether the name is among the members. |
| `User.User.ResolveGroupsEnum` | src/user/user_resolve.c:147-165 | Groups from the member lists. |
| `User.User.ResolveGroupsByTokens` | src/user/user_resolve.c:167-184 | Groups from tokens, and the primary group as the first that has a number. |
| `User.User.ResolveGroups` | src/user/user_resolve.c:191-204 | Fills the groups with the resolution, once. |
| `User.User.GetUid` | src/user/user.c:13-20 | The resolution's user id, whatever was called before. |
| `User.User.GetName` | src/user/user.c:27-35 | The resolution's name, or none. |
| `User.User.GetHome` | src/user/user.c:37-43 | The resolution's home directory, or the default. |
| `User.User.GetShell` | src/user/user.c:45-51 | The resolution's shell, or the default. |
| `User.User.GetGid` | src/user/user.c:65-80 | The resolution's primary group, whatever was called before. |
| `User.User.EnsurePrimaryGidInGroups` | src/user/user.c:90-108 | Adds the primary group if it is not there. |
| `User.User.InsertGidSorted` | src/user/user.c:110-122 | The shifting insertion before the first group that is not smaller. |
| `User.User.AppendRemainingGids` | src/user/user.c:124-136 | Adds the numbers that are missing, in order. |
| `User.User.GetGroups` | src/user/user.c:138-147 | The same list on every call. |
| `User.User.Answers` | src/user/user.c:13-147 | Any getters in any order, any number of times: every answer is the one of the resolution. |
| `UserParse.CountTokens` | src/user/user_parse.c:33-42 | One more than there are colons, or 0 for nothing. |
| `UserParse.PiecesCounted` | src/user/user_parse.c:33-42 | That is the number of pieces, so that the room made is the room needed. |
| `UserParse.ParseOneToken` | src/user/user_parse.c:44-66 | A number of 32 bits, a name of at most 255 characters, or an error. |
| `UserParse.TokenIs` | src/user/user_parse.c:44-66 | What a token can be: a number of 32 bits, written in digits, is a group id, and anything else of at most 255 characters is a name. |
| `UserParse.NumberToken` | src/user/user_parse.c:22-31 | Every number of 32 bits is read back from its decimal digits. |
| `Decimals.InPlace` | src/user/user_parse.c:22-31 | A number read from digits has, in each place, the digit that stands there. |
| `UserParse.FillTokens` | src/user/user_parse.c:75-87 | Reads the tokens of all pieces behind those that were there, never beyond the room made, and succeeds exactly when every piece is legal. |
| `UserParse.AppendTokens` | src/user/user_parse.c:89-99 | An empty list is legal, an empty piece is not. |
| `UserParse.ParseUserBody` | src/user/user_parse.c:101-142 | The identity, then the groups given separately, then those behind the user. |
| `UserParse.SplitIsInverse` | src/user/user_parse.c:68-87 | The pieces joined by colons are the string. |
| `UserParse.JoinIsInverse` | src/user/user_parse.c:68-87 | Any list of pieces without colons is read back from its joined form. |
| `UserParse.ListOfPieces` | src/user/user_parse.c:75-99 | Any list of legal pieces is accepted and means their tokens in order. |
| `UserParse.ParsedWf` | src/user/user_parse.c:101-142 | A parsed user has a number or a name, never both: where the resolver starts from. |
| `UserParse.IdentityIs` | src/user/user_parse.c:101-114 | What comes before the first colon: a number of 32 bits is a uid, anything else of at most 255 characters is a name. |
| `UserParse.WholeUser` | src/user/user_parse.c:127-142 | The whole argument: identity, then the groups of the other argument, then those behind the user. |
| `UserParse.UserAlone` | src/user/user_parse.c:127-142 | Without a colon only the groups of the other argument; an empty user is root. |
| `UserParse.GroupsEitherWay` | src/user/user_parse.c:127-142 | Groups written behind the user mean what they mean as a separate argument. |
| `Netlink.PutAttr` | src/net/netlink.c:138-152 | Succeeds exactly when the attribute fits its 16-bit length and the buffer, and then the new bytes encode it and nothing else has changed; a failed put leaves buffer and offset as they were. |
| `Netlink.PutString` | src/net/netlink.c:154-161 | The string with its NUL, and the message length brought up to date. |
| `Netlink.PutU32` | src/net/netlink.c:163-167 | A 32-bit attribute. |
| `Netlink.NestStart` | src/net/netlink.c:169-178 | Leaves room for a header whose length is not known yet. |
| `Netlink.NestEnd` | src/net/netlink.c:180-184 | Fills in the length and nothing else. |
| `Netlink.PutHead` | src/net/rtnl.c:19-26 | The header in front of nested attributes. |
| `Netlink.PutTree` | src/net/netlink.c:138-184 | Any tree, put down by these operations, is encoded, and that succeeds exactly when it fits. |
| `Nlattr.Aligned` | src/net/netlink.c:138-184 | Offsets stay multiples of 4. |
| `Nlattr.RoundTrip` | src/net/netlink.h:19-21 | Any tree within the length limits is read back as it was written, at every level of nesting. |
| `Nlattr.WideIsLost` | src/net/netlink.c:180-184 | A nested attribute of 2^16 bytes or more is not read back, as its length is cut to 16 bits. |
| `Nlattr.ReadBackIffNarrow` | src/net/netlink.h:19-21 | A written tree is read back exactly when every nested attribute is shorter than 2^16 bytes. |
| `Nlattr.ReadsAsWalk` | src/net/netlink.h:19-21 | Reading back means that the walk hands out as many attributes as were written, each with its type and payload. |
| `Nlattr.SmallAreNarrow` | src/net/rtnl.c:245-253 | Nothing in a smaller buffer is that long. |
| `Rtnl.FillVethPeer` | src/net/rtnl.c:28-41 | The nested description of the peer. |
| `Rtnl.FillVethLinkinfo` | src/net/rtnl.c:43-58 | The two nested levels around it. |
| `Rtnl.FillHeaders` | src/net/rtnl.c:61-70 | The fixed bytes of the message and interface headers. |
| `Rtnl.FillCreateVeth` | src/net/rtnl.c:61-75 | Succeeds exactly when the request fits a buffer of any size and no name is too long for an attribute; the buffer then holds headers, length and tree, which the walk reads back at every level exactly when no nest is cut to 16 bits. What the tree asks for is LinkDump.RequestPeer. |
| `Rtnl.RequestFitsSmall` | src/net/rtnl.c:245-249 | In a buffer of less than 2^16 bytes, as the program's 512, nothing is too long or cut. |
| `LinkDump.RequestNames` | src/net/rtnl.c:88-96 | Walking the request finds one name, the host's end. |
| `LinkDump.RequestPeer` | src/net/rtnl.c:28-76 | What is read inside the request, level by level and by number: the host's end, the kind "veth", and behind the peer's zeroed header its name and its namespace, and nothing else. |
| `LinkDump.RequestHeaders` | src/net/rtnl.c:61-70 | The numbers in the request's headers. |
| `LinkDump.LinkHasName` | src/net/rtnl.c:88-96 | The pointer walk finds the name exactly when it is among the attributes. |
| `LinkDump.FindIfname` | src/net/rtnl.c:99-114 | The index of the first link with the name, in any dump where the loop stays inside: one that is padded, or has the name. |
| `LinkDump.RunsOn` | src/net/rtnl.c:99-115 | Why: behind an unpadded message the remainder, a size_t, wraps round to more than the buffer holds, and the loop would read behind it. |
| `LinkDump.FoundIffNamed` | src/net/rtnl.c:99-114 | A link is found exactly when some link of the dump has the name. |
| `LinkDump.DumpReads` | src/net/rtnl.c:99-115 | A dump of any links, in the kernel's format, is read link by link, and is padded. |
| `LinkDump.FindsFirst` | src/net/rtnl.c:99-115 | The index found in it is the one that the first link with the name was sent with. |
| `Veth.UsedVethScanAttrs` | src/net/veth.c:20-30 | Marks exactly the ids that a link's names stand for. |
| `Veth.VethScanUsed` | src/net/veth.c:32-43 | Marks exactly the ids that any link's names stand for, in a padded dump; this loop reads to the end. |
| `Veth.LowestFreeVethId` | src/net/veth.c:45-57 | The least id in 0..126 that no name stands for, and failure exactly when all 127 are taken. |
| `Veth.PrintReads` | src/core/cage.c:52 | A printed number is read back. |
| `Veth.PrintedParses` | src/net/veth.c:8-18 | The name printed for an id stands for that id. |
| `Veth.StrtolReads` | src/net/veth.c:8-18 | Spaces, a sign and digits are read as the digits say, within 64 bits. |
| `Veth.StrtolForm` | src/net/veth.c:8-18 | Nothing else is a number. |
| `Veth.FreeNameIsFresh` | src/core/cage.c:52 | No link of the dump is called what is printed for a free id. |
| `FileTree.ElsewhereSame` | src/util/io_cache.c:85-94 | A change at one path leaves the answers for paths that are neither it nor below it. |
| `FileTree.AboveFound` | src/util/io.c:207-222 | Above everything that is there are directories. |
| `FileTree.AddedWf` | src/util/io.c:197-205 | Making something in an existing directory keeps the tree well-formed. |
| `FileTree.RemovedWf` | src/util/io.c:41-49 | So does removing what nothing is below. |
| `IoCache.UnrelatedTells` | src/util/io_cache.c:85-107 | Entries that are not related to a changed path stay true. |
| `IoCache.BelowChangesToo` | src/util/io_cache.c:91-94 | Entries below it must go: where a file comes into being, everything below it turns from missing into an error. |
| `IoCache.Io.constructor` | src/util/io_cache.c:11-18 | The cache starts empty. |
| `IoCache.Io.CacheLookup` | src/util/io_cache.c:21-28 | The cached result, which is the truth, exactly when the path is cached. |
| `IoCache.Io.CacheStore` | src/util/io_cache.c:30-63 | Exactly one slot changes and then holds the answer: the path's own, else the first empty one, else the first of all, the other 31 being as they were; no path ever has two slots. |
| `IoCache.Io.IoExists` | src/util/io_cache.c:65-83 | The answer that access would give now, cached or not, and an answer is in the cache afterwards. |
| `IoCache.Io.CacheInvalidate` | src/util/io_cache.c:96-107 | Forgets exactly the related paths, after which every entry is true again. |
| `IoCache.Io.IoUnlink` | src/util/io.c:41-49 | Removes a file and keeps the cache true. |
| `IoCache.Io.UnlinkCached` | src/util/io.c:103-109 | Also counts a missing path as removed. |
| `IoCache.Io.RmtreeDir` | src/util/io.c:68-86 | Removes what is in a directory, or reports that something is left. |
| `IoCache.Io.IoRmtree` | src/util/io.c:111-128 | Removes a path with everything below it and nothing else; success means that nothing is left, and comes exactly when system calls can name all of it and no file is in the way. |
| `IoCache.Io.MkdirParent` | src/util/io.c:139-153 | The directory above a path. |
| `IoCache.Io.IoMkdir` | src/util/io.c:166-195 | Makes a directory and what is missing above it, changes nothing else, and succeeds exactly when no file is in the way. |
| `IoCache.Io.MkdirChown` | src/util/io.c:197-205 | One directory, kept also when only changing its owner fails. |
| `IoCache.Io.MkdirParents` | src/util/io.c:207-222 | Walks down the path and makes what is missing. |
| `IoCache.Io.IoMkdirOwn` | src/util/io.c:224-241 | Success means that the path exists and every prefix of it is a directory; it comes exactly when the path is not too long and no prefix is a file, unless a system call fails for other reasons. There is a directory afterwards exactly when there was no file at the path before; a file is left as it is. |
| `IoCache.OwnOnFile` | src/util/io.c:224-241 | A tree with one file: success is reported there, and the file is what there is. |
| `IoCache.Io.IoTouch` | src/util/io.c:273-283 | Creates a file or leaves the one that is there. |
| `Inflate.ReadClLens` | src/compress/inflate.c:108-112 | The code-length code, read in its permuted order. |
| `Inflate.LensByCode` | src/compress/inflate.c:113-117 | The lengths, decoded with that code. |
| `Inflate.BuildDynamic` | src/compress/inflate.c:126-129 | Both tables from the two parts of the lengths. |
| `Inflate.StoredBytes` | src/compress/inflate.c:32-38 | Copies whole bytes to the output, or stops at the end of the input. |
| `Gzip.Advance` | src/compress/decompress.c:21-27 | Moves forward if that stays within the input. |
| `EnvMap.EnvMap.FirstFree` | src/util/env_map.c:37-50 | The first empty slot on a hash's probe path; the probe ends. |
| `EnvMap.EnvMap.Store` | src/util/env_map.c:107-124 | Filling that slot adds exactly this key. |
| `EnvMap.EnvMap.SetValue` | src/util/env_map.c:107-124 | Overwriting a value changes exactly this key. |
| `EnvMap.EnvMap.PutWithRoom` | src/util/env_map.c:107-124 | Put, after growth. |
| `EnvMap.EnvMap.MoveSlot` | src/util/env_map.c:37-50 | One round of the rehash loop. |
| `EnvMap.EnvMap.Adopt` | src/util/env_map.c:52-65 | Taking over the new arrays keeps the map. |
| `User.User.SetRootFallback` | src/user/user_resolve.c:12-17 | Root without a record. |
| `User.User.AssignFromPasswd` | src/user/user_resolve.c:53-60 | All account fields but the name, from one record. |
| `User.User.AssignNamed` | src/user/user_resolve.c:62-80 | One pass over the database for a name. |
| `User.User.HasNamedTokens` | src/user/user_resolve.c:99-105 | Whether a name is still to be resolved. |
| `User.User.UserResolve` | src/user/user.c:22-25 | Fills the account fields. |
| `User.User.GetGidFromPasswd` | src/user/user.c:53-63 | The account's group, when no token settles it. |
| `User.User.GidAlreadyInList` | src/user/user.c:82-88 | Whether the number is in the list. |
| `UserParse.AllDigitsOf` | src/user/user_parse.c:12-20 | Whether there are only digits, and at least one. |
| `UserParse.SkipColon` | src/user/user_parse.c:68-73 | The end of a piece. |
| `Netlink.PutAll` | src/net/netlink.c:138-184 | Any list of trees, one behind the other. |
| `IoCache.Io.CacheFind` | src/util/io_cache.c:30-37 | The slot of the path, and -1 exactly when it has none. |
| `IoCache.Io.CacheEmpty` | src/util/io_cache.c:39-46 | The first empty slot, and -1 exactly when all are filled. |
| `IoCache.Io.IoIsdir` | src/util/io.c:19-27 | Whether a path is a directory. |
| `IoCache.Io.MkdirExisting` | src/util/io.c:166-172 | What is there already must be a directory. |
| `IoCache.Io.MkdirDeep` | src/util/io.c:174-182 | A directory below one that may be missing. |

## Left out

- Allocation failure: memory requests succeed, as everywhere in the model.
- Other system calls, mounts, namespaces, fork and exec, sockets, loop devices, cgroups, ACLs, GUI
  sockets, argument parsing and the xz and zstd filters: effects without a specification to meet.
- Mutual exclusion by pidfile (src/core/proc.c): its steps are separate, and exclusion over all
  interleavings is not what they provide.
- The encoder is a specification, not part of the program. NLEN, runs that are too long and
  oversubscribed codes are treated as the code treats them, and not as an encoder would.
- BitReader.Reader: the accumulator is a natural number of the bits it holds, not a 32-bit word; reads of
  more than 16 bits do not occur.
- Crc.Table: words are sequences of 32 bits, not machine words.
- Gzip.DecompressGzip: one member with its trailer in the last eight bytes, as in the code; files of several
  members are not read.
- Handshake: the parent's netlink commands are one step, and the parent itself does not die. The
  failure paths of cage before the child exists are not part of it.
- Handshake.Termination: the child is assumed not to be suspended for ever and the command in the container
  to end; a stopped child keeps the parent polling, a running command keeps it waiting.
- EnvMap.EnvMap: fnv1a is not modelled, since any hash function will do; freeing is not modelled.
- Ext4Accounting: contents of inodes, directories and journal, and the fixed fields of the superblock, are
  constants; only counts, placement and checksums are modelled. Inode bitmaps are one constant loop.
- Ext4Layout.LayoutDisjoint: a group has room for one flex group's metadata, a copy, the root directory and
  the dindir block; addresses are natural numbers, not 32-bit words.
- User.User: the databases do not change while a user is resolved, and user names are compared as strings.
- UserParse.FillTokens: the token array is a sequence, with the room that was made for it as a number.
- UserParse.ParseUserBody: a missing group argument is the empty one; both take the same branches.
- Netlink.PutTree: the order of calls that every writer in src/net/rtnl.c follows, for an arbitrary tree;
  numbers are little-endian.
- Rtnl.FillCreateVeth: the buffer has at least the 32 bytes that the code writes before its first check;
  the program's has 512.
- LinkDump.FindIfname, Veth.VethScanUsed and Veth.LowestFreeVethId: what is read behind the end of a dump
  whose last message is not padded.
- LinkDump.LinkHasName: a name without a NUL ends at the end of its attribute, where strcmp would read on.
- Address and route messages (src/net/rtnl.c:116-230): plain puts of attributes into the same buffer.
- FileTree: no symbolic links, no paths with "." or "..", no permissions, so no EACCES; io_symlink,
  io_mkdtmp, io_islink and the mutators of src/util/io_at.c are left out.
- IoCache.Io.OpenDir: readdir gives the names that were there at opendir.
- IoCache.Io: the cache belongs to one object, where the program has one static table.
