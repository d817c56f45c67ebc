# Verification of the Minecraft server

A Dafny model of the server's codecs, world storage and connection state, with proofs of what they promise.

Run `dafny verify dfyconfig.toml` to check all of it.

## What is modelled

* **Numbers and frames** (`VarInts`, `Frames`, `Streams`). VarInt and VarLong, the plain and the compressed packet frame,
  and the loop that drains a buffer after every read. The central results: what the decoder answers on *every* byte
  string; framing is undone by reading, exactly for lengths below 2^31; and the packets delivered do not depend on how
  the stream is cut, exactly if the stream is *orderly*, with a frame without a packet only at its end.
* **Packet bodies and phases** (`Packets`, `PacketIO`, `Connections`, `Handover`). The packets of `mc-proto`, the registry
  burst, the handshake-login-config-play machine, and the connection loop over raw bytes.
* **Play** (`Views`, `Inventories`, `Stacking`, `Pickups`, `BlockPositions`, `Play`, `PlayServer`, `PlayPackets`,
  `Sessions`). Chunk streaming, packed block positions, dropped items and the inventory over whole runs, and the play loop
  with its ticks, from any bytes a client sends to the items and chunks it ends up with, or the panic it causes.
* **World** (`Nbt`, `NbtGrammar`, `NbtTheorems`, `NbtPanics`, `NbtReader`, `Sections`, `Chunks`, `Decimals`, `Regions`,
  `Worlds`, `RegionWriter`, `WrittenWorlds`). The NBT parser against a grammar, packed sections against one big number and
  a plain array, region files, the region cache, and the whole way from a region file's bytes to the name of a block.
* **Formats byte by byte** (`KnownBytes`). The byte strings of the repository's tests, and others like them, so that writer
  and reader are tied to the bytes and not only to each other.

Code that updates a buffer, an inventory or a cache in place is a method on a class or an array, proved equal to a
function of the old state; the theorems are about those functions. `Bits` and `Common` hold the arithmetic.

## Conventions

* A Rust panic is an outcome of its own (`Crash`, `Panic`, `Panicked`, `None` where the comment says so), never a
  precondition. Arithmetic overflow panics, as in a debug build. Casts wrap or truncate as Rust's `as` does.
* `usize` has 64 bits. No slice is longer than `isize::MAX` bytes; where a theorem needs that, it says so.
* Strings are their UTF-8 bytes, valid in the sense of section 4 of RFC 3629. Floats in NBT are bit patterns; the
  player's coordinates are reals, so rounding, infinities and NaN are outside the model.
* A compressor and its decompressor are arbitrary functions. Round trips assume only that decompressing undoes
  compressing; a decompressor may reject any other input. Where a byte too many is read, that it is ignored or rejected.
  Files are a fixed map from names to bytes.
* A socket is a sequence of pieces, with an empty one when the peer has closed; a timer tick is an event; random numbers
  are an arbitrary sequence.

## Where the code and its documentation disagree

The model follows the code.

* `crates/mc-world/src/chunk.rs:380-382` promises widths up to 64 and entries packed from the most significant end; the
  code panics at 64 and packs from the least significant end (`Sections.ExtractExactly`).
* `crates/mc-world/src/chunk.rs:78` iterates over "non-air" blocks, but a cell that points outside its palette reads as a
  nameless block and is yielded (`Sections.FallbackNeverYieldedExactly`).
* `develop.md:147` puts picked-up items onto stacks of their kind first; the code takes the slots in one pass
  (`Stacking.DocumentedExactly` says when that is the same). It also removes an item entity that found no room
  (`Pickups.FullInventoryLosesItems`).
* `crates/mc-world/src/region.rs:104` speaks of chunks "in this region"; east of it the table answers for other chunks
  (`Regions.OutsideAnsweredExactly`, `Regions.AliasesExactly`).
* `crates/mc-world/src/region.rs:131` takes the length in front of a chunk for that of its payload. In the standard
  layout of region files it counts the byte for the kind of compression as well, so the code reads one byte more than is
  stored (`RegionWriter.Taken`).

## Properties that hold only under a condition

Each is proved as an equivalence.

* Delivery is independent of the cuts iff no frame without a packet precedes another frame (`Streams.CutIndependentExactly`,
  failing on `Streams.DisorderlyStream`).
* A packet's body is what follows its number iff the last byte read for the number holds one of its upper bits: it is the
  only byte, or not idle, or a fifth byte whose low four bits are not all zero (`Frames.BodyStartsAfterId`, failing on
  `Frames.IdleByteLeaksIntoBody` and `Frames.LostBitsLeakIntoBody`).
* A frame reads back iff its payload is shorter than 2^31 bytes and, if it is compressed, the length of its content is not
  a multiple of 2^32 (`Frames.FrameReadsBackExactly`).
* A packet body reads back iff it is not a handshake into a state without a number and no registry entry but the last
  carries data (`Packets.ReadsBackExactly`).
* Play sees all the client sends after the configuration iff some read ends exactly there
  (`Handover.PlaySeesEverythingExactly`, failing on `Handover.LossyRead`).
* Picked-up items go where the document says iff the inventory is settled (`Stacking.DocumentedExactly`, failing on
  `Stacking.UnsettledInventory`).
* The client's window shows a slot rightly iff nothing was used from it since it was last announced
  (`Play.ShownWronglyExactly`).
* Reading NBT does not panic iff no negative length is reached (`NbtPanics.PanicsExactly`, failing on
  `NbtPanics.NegativeListPanics`).
* A tick conserves items iff each entity in reach fits when its turn comes (`Pickups.ConservedExactly`); in a tidy
  inventory, iff there is an empty slot for every 64 items that find no room in a stack (`Pickups.TidyConservedExactly`).
* The play loop runs through iff no bytes make it panic at once, nothing is placed from a slot outside the inventory, no
  more blocks are dug than there are entity ids, and the chunks around every place can be numbered
  (`Sessions.AnyBytesPlayOut`, `Sessions.BytesToChunks`, failing on `Sessions.PlacingFromNowhere`, `Play.OverreachPanics`).
* The lookup of a block does not panic iff its chunk's NBT is not poisoned and the words of its section reach its cell
  (`Worlds.BlockPanicsExactly`, failing on `WrittenWorlds.PoisonedLookupPanics`).
* A chunk written in the standard layout is found iff one more byte follows its own in the file and its decompressor does
  not mind it (`WrittenWorlds.WrittenWorldReadsBack`).
* A block position unpacks to itself iff z is not negative (`BlockPositions.UnpackExactly`); otherwise the drop lies out
  of reach (`Play.DropPlacedExactly`).
* A height is looked up in its own section iff it lies in -2048..2047 (`Chunks.HeightExactly`).

## Model

| member | source | states |
|---|---|---|
| VarInts.Write | crates/mc-core/src/varint.rs:38-51 | the writing loop appends the shortest base-128 form of the value, for both widths |
| VarInts.Read | crates/mc-core/src/varint.rs:54-71 | on every buffer: the decoded value, or the error, and exactly what is left of the buffer in each case |
| VarInts.FromBytes | crates/mc-core/src/varint.rs:82-87 | the answer on any slice, with the number of bytes consumed |
| VarInts.EncodedLenIsLength | crates/mc-core/src/varint.rs:28-35 | the threshold chain gives the number of bytes that `write` produces, for every i32 |
| VarInts.EncodedLenLong | crates/mc-core/src/varint.rs:111-121 | the shifting loop counts the bytes that `write` produces, for every i64 |
| VarInts.ReadVarIntFromSlice | crates/mc-proxy/src/chunk.rs:65-81 | the second reader agrees with the first on every byte string |
| VarInts.RoundTrip | crates/mc-core/src/varint.rs:124-157 | reading what was written, whatever follows, gives the value and its length, for both widths |
| VarInts.Shortest | crates/mc-core/src/varint.rs:54-71 | no accepted spelling of a value is shorter than the written one |
| VarInts.CanonicalExactly | crates/mc-core/src/varint.rs:140-157 | an accepted spelling is the written one iff no bits are lost above the word and the last byte is not idle |
| VarInts.PrefixFree | crates/mc-core/src/varint.rs:38-51 | no written value is the beginning of another |
| VarInts.DecodePrefix | crates/mc-core/src/varint.rs:58-60 | every proper part of an accepted spelling is reported as incomplete |
| VarInts.DecodeStable | crates/mc-core/src/varint.rs:54-71 | an answer other than incomplete does not depend on later bytes |
| Frames.FramePacket | crates/mc-proxy/src/config_handler.rs:71-113 | the three layouts: plain, below the threshold, and deflated from 256 bytes on |
| Frames.EncodePacket | crates/mc-proto/src/packet.rs:83-94 | writes the same bytes as the proxy's framer without compression |
| Frames.TryReadFrameCompressed | crates/mc-proxy/src/config_handler.rs:117-158 | for every buffer: what is returned and what is left, including frames consumed without a packet and the overflowing length |
| Frames.TryReadFrame | crates/mc-proto/src/packet.rs:45-78 | the protocol crate's reader takes the same frames and reports a bad packet number as an error |
| Frames.FrameRoundTrip | crates/mc-proxy/src/config_handler.rs:71-158 | a packet that can be framed is read back whole whatever follows, with and without compression |
| Frames.PartOfFrameWaits | crates/mc-proxy/src/config_handler.rs:118-126 | every proper part of a frame makes the reader wait and consume nothing |
| Frames.FrameReadsBackExactly | crates/mc-proxy/src/config_handler.rs:71-158 | for either setting and in front of any bytes, a frame is read back iff its payload is shorter than 2^31 bytes and, if compressed, its content is not a multiple of 2^32 bytes long |
| Frames.DeflatedFrom256 | crates/mc-proxy/src/config_handler.rs:75-95 | contents of 256 bytes and more are deflated behind their length, shorter ones stored behind a zero |
| Frames.OverflowExactly | crates/mc-proxy/src/config_handler.rs:121-126 | the lengths that overflow the address space are -5 to -1 |
| Frames.TryFrameStable | crates/mc-proxy/src/config_handler.rs:117-158 | once the reader acts, later bytes do not change what it does |
| Frames.FrameLocal | crates/mc-proxy/src/config_handler.rs:117-158 | what follows a frame may be replaced without changing what is read |
| Frames.BodyStartsAfterId | crates/mc-proto/src/packet.rs:68-72 | the body starts right after the packet number iff the last byte the number was read from holds one of its upper bits, of which the fifth byte has four |
| Frames.IdleByteLeaksIntoBody | crates/mc-proxy/src/config_handler.rs:153-155 | a concrete number with an idle byte whose last byte becomes part of the body |
| Frames.LostBitsLeakIntoBody | crates/mc-proxy/src/config_handler.rs:153-155 | a concrete number whose last byte is not idle but lies beyond the 32 bits, and becomes part of the body |
| Streams.DrainBuffer | crates/mc-proxy/src/server.rs:163 | the draining loop delivers the packets of the specification and keeps its remainder |
| Streams.ReadLoop | crates/mc-proxy/src/server.rs:160-163 | the read loop over arbitrary pieces, up to an empty one, which means that the peer has closed |
| Streams.CutIndependentExactly | crates/mc-proxy/src/config_handler.rs:117-158 | on any byte stream and for either setting, the outcome is the same for every cut iff the stream is orderly |
| Streams.DisorderlyStream | crates/mc-proxy/src/config_handler.rs:151-153 | a concrete stream that is delivered differently in one read and in two |
| Streams.PacketsSurviveAnyCut | crates/mc-proxy/src/server.rs:160-163 | at every moment of a stream of packets that can be framed, however cut, exactly the complete packets have been delivered in order and exactly the unfinished frame is kept |
| Streams.PlainStreamExactly | crates/mc-proxy/src/config_handler.rs:105-112 | without compression a stream is delivered as it was sent iff every packet in it can be framed |
| Streams.DrainInTwo | crates/mc-proxy/src/server.rs:160-163 | draining a beginning and then the rest comes to the same as draining the whole |
| Packets.ReadsBackExactly | crates/mc-proto/src/config.rs:62-253 | for every packet kind, lists of any length: reading undoes writing iff the packet is a readable one |
| Packets.HandshakeBack | crates/mc-proto/src/handshake.rs:20-58 | a written handshake is read back for status and login, and rejected for every other state |
| Packets.LoginStartBack | crates/mc-proto/src/login.rs:24-40 | a written login start is read back |
| Packets.EntriesBack | crates/mc-proto/src/config.rs:65-105 | registry entries are read back iff only the last one carries data, since data runs to the end of the packet |
| Packets.EntryCut | crates/mc-proto/src/config.rs:82-105 | an entry that ends after its name lacks the byte that says whether data follows |
| Packets.ClientInformationBack | crates/mc-proto/src/config.rs:228-253 | client information is read back |
| Packets.HandshakeCut | crates/mc-proto/src/handshake.rs:28-58 | every proper part of a handshake is an error, and which bytes it says are missing |
| Packets.LoginStartCut | crates/mc-proto/src/login.rs:24-40 | the same for a login start |
| Packets.ClientInformationCut | crates/mc-proto/src/config.rs:228-253 | the same for client information, where a missing field of one byte is a panic |
| Packets.StringCut | crates/mc-proto/src/handshake.rs:63-72 | a string cut short is reported with its length and the bytes that are there |
| Packets.StringRejected | crates/mc-proto/src/handshake.rs:63-72 | a string that is written but is no UTF-8 is refused |
| Utf8.ValidExactly | crates/mc-proto/src/handshake.rs:63-72 | the strings that are accepted are exactly the spellings of sequences of Unicode scalar values |
| Packets.EndToEnd | crates/mc-proto/src/packet.rs:45-94 | framed and followed by anything, a packet is cut off whole and read back iff it can be framed and is a readable one |
| PacketIO.TakeString | crates/mc-proto/src/handshake.rs:63-72 | reading a string on any buffer, with each of its errors |
| PacketIO.PutBody | crates/mc-proto/src/config.rs:121-126 | the writers' loops append the specified body |
| PacketIO.TakeBody | crates/mc-proto/src/config.rs:128-151 | the readers' loops return the specified packet or error and leave the specified rest |
| Connections.BuildRegistryPackets | crates/mc-proxy/src/config_handler.rs:24-62 | features, known packs, each registry in order, tags, finish; `BurstExactly` says packet by packet what that is |
| Connections.BurstReadsBack | crates/mc-proxy/src/config_handler.rs:42-51 | each registry packet of the burst is read as its registry's key and ids, without data |
| Connections.BurstExactly | crates/mc-proxy/src/config_handler.rs:14-62 | the burst is four packets longer than the registries: 0x0c with the feature minecraft:vanilla, 0x0e with the pack minecraft:core 26.2, 0x07 for each registry in order with its ids and no data, 0x0d with the tags, and 0x03 with nothing, which no earlier one is |
| Connections.Connection.Handle | crates/mc-proxy/src/server.rs:164-228 | one packet: the next phase, what is sent, and when the connection fails or panics |
| Connections.PlayEnteredExactly | crates/mc-proxy/src/server.rs:154-233 | over any packets: play is entered with the n-th iff a login handshake came first, then acceptable login packets up to an 0x03, then packets up to an 0x03; by then the burst was sent once, last |
| Connections.HandshakeJudged | crates/mc-proxy/src/server.rs:166-180 | the server accepts a client's well-formed handshake iff it asks for a login |
| Connections.LoginJudged | crates/mc-proxy/src/server.rs:183-187 | the server accepts a client's well-formed login start and reads its name and uuid |
| Connections.HandshakeCutJudged | crates/mc-proxy/src/server.rs:169-179 | a handshake cut short in its port makes the server panic; cut anywhere else it is refused |
| Connections.LoginCutJudged | crates/mc-proxy/src/server.rs:183-186 | a login start cut short in its uuid makes the server panic; cut in its name it is refused |
| Connections.LoginConfirmed | crates/mc-proxy/src/server.rs:189-195 | the answer to a login start is packet 0x02, in which the client reads its uuid, its name, no properties and the random number |
| Connections.BrandNamed | crates/mc-proxy/src/server.rs:197-201 | the packet after it is 0x01, in which the client reads the channel minecraft:brand and the brand vanilla |
| Connections.ClientEntersPlay | crates/mc-proxy/src/server.rs:164-228 | a client that follows the protocol enters play under its own uuid, its login answered and the burst sent, whatever else it says during configuration |
| Connections.PlayWithoutLoginStart | crates/mc-proxy/src/server.rs:201-222 | play is entered without a login start too, under the uuid zero |
| Handover.HandleConnection | crates/mc-proxy/src/server.rs:154-234 | the connection loop over raw pieces, up to an empty one, is the specified service |
| Handover.ServeExactly | crates/mc-proxy/src/server.rs:163-232 | on any bytes: one buffer is served by taking its packets and handling them in order; what ends the handling or makes taking panic ends the connection, and on entering play exactly the frames handled are gone |
| Handover.AnyBytesServed | crates/mc-proxy/src/server.rs:154-234 | on any bytes, however cut: the connection is closed, waits or enters play, in the state that the packets taken lead to |
| Handover.NothingElseIsLost | crates/mc-proxy/src/server.rs:160-224 | however the bytes are cut, play is entered with the piece that completes the last packet, and later bytes are lost with that piece or read by play |
| Handover.ClientReachesPlay | crates/mc-proxy/src/server.rs:154-234 | the same from bytes: that client's packets, framed and cut in any way, reach play |
| Handover.PlaySeesEverythingExactly | crates/mc-proxy/src/server.rs:219-224 | nothing after the configuration is lost iff a read ends exactly at its last frame |
| Handover.LossyRead | crates/mc-proxy/src/server.rs:219-224 | after the shortest way into play, sent in a single read with it, any bytes are lost |
| Views.ChunkCoordExactly | crates/mc-proxy/src/server_state.rs:93-97 | a position lies in chunk c iff it is one of the sixteen blocks from 16 c on; beyond the i32 range it lies in the first or the last chunk |
| Views.ChunkState.VisibleChunks | crates/mc-proxy/src/server_state.rs:93-114 | the nested loops list the 81 chunks at most four from the player's position, each once, or panic within five chunks of the ends of the i32 range |
| Views.ListedIsSquare | crates/mc-proxy/src/server_state.rs:105-114 | the list is the square around the player, each chunk once |
| Views.ChunkState.NewVisibleChunks | crates/mc-proxy/src/server_state.rs:117-122 | the visible chunks that are not loaded, in order |
| Views.ChunkState.MarkChunksLoaded | crates/mc-proxy/src/server_state.rs:125-130 | the new set of loaded chunks and the new last chunk |
| Views.ChunkState.CheckChunks | crates/mc-proxy/src/server.rs:515-525 | the check after each read: what is sent, loaded and remembered |
| Views.LastExactly | crates/mc-proxy/src/server.rs:515-525 | the last chunk becomes the checked one unless everything around that was loaded already |
| Views.ChunkState.StartPlay | crates/mc-proxy/src/server.rs:458-461 | what is loaded and sent when the play loop starts, with and without templates |
| Views.StreamingOverRuns | crates/mc-proxy/src/server.rs:492-532 | over every path: the square around the player is loaded after each check, what is loaded is the union of the checked squares, each chunk was sent once, and without templates the first square twice |
| Views.StepCost | crates/mc-proxy/src/server_state.rs:100-122 | a move by (dx, dz) sends at most 81 minus the overlap of the squares, all distinct, and exactly that many if nothing else is known of the new square |
| Inventories.InsertFrom | crates/mc-proxy/src/server.rs:724-742 | one pass stores exactly the lesser of the count and the free capacity, touches no other kind and keeps every stack at 1 to 64 |
| Stacking.DocumentedExactly | crates/mc-proxy/src/server.rs:724-742 | the single pass fills the slots as the documented two steps would iff for each empty slot before an unfilled stack the items run out before the one or fill the other |
| Stacking.UnsettledInventory | crates/mc-proxy/src/server.rs:724-742 | a concrete inventory in which an item opens a slot although it was to go onto a stack |
| Stacking.SameLeftOver | crates/mc-proxy/src/server.rs:724-742 | both orders leave the same number of items over, always |
| Pickups.ReachExactly | crates/mc-proxy/src/server.rs:701-709 | an entity is in reach iff its distance from the player is less than 4 |
| Pickups.PickUpAccounts | crates/mc-proxy/src/server.rs:717-757 | what the inventory gains and what finds no place are together what was picked up, for every kind |
| Pickups.TickAccounts | crates/mc-proxy/src/server.rs:696-811 | over a tick: inventory and ground afterwards are what they were, less what found no place |
| Pickups.ConservedExactly | crates/mc-proxy/src/server.rs:744-746 | nothing is lost iff each entity in reach fits when its turn comes |
| Pickups.OneKindLoss | crates/mc-proxy/src/server.rs:724-746 | for items of one kind, what is lost is what exceeds the free capacity before the tick |
| Pickups.EmptySlotsSuffice | crates/mc-proxy/src/server.rs:724-742 | nothing is lost if, summed over the kinds in reach, there is an empty slot for every 64 items that find no room before the first empty slot |
| Pickups.EmptySlotsNeeded | crates/mc-proxy/src/server.rs:724-742 | if nothing is lost there were, summed over any kinds, as many empty slots as stacks of 64 of what finds no room in any stack |
| Pickups.TidyConservedExactly | crates/mc-proxy/src/server.rs:724-746 | in an inventory with no unfilled stack of a reached kind behind an empty slot, nothing is lost iff the kinds need no more empty slots than there are before the tick |
| Pickups.FullInventoryLosesItems | crates/mc-proxy/src/server.rs:808-810 | an item in reach that does not fit is removed from the ground all the same |
| BlockPositions.PackAsSum | crates/mc-proxy/src/server.rs:427 | the shifts and masks give x 2^38 plus the low 26 bits of z times 2^12 plus the low 12 bits of y |
| BlockPositions.UnpackPacked | crates/mc-proxy/src/server.rs:581-583 | unpacking a packed position gives x and y back, and z modulo 2^26 |
| BlockPositions.PackInjective | crates/mc-proxy/src/server.rs:427 | different positions that fit are packed differently |
| BlockPositions.UnpackExactly | crates/mc-proxy/src/server.rs:583 | unpacking undoes packing iff z is not negative |
| Play.InvariantReachable | crates/mc-proxy/src/server.rs:584-646 | in every reachable state: stacks of 1 to 64, slots 36 to 45 empty, entity ids increasing and below the next one |
| Play.RunAccounts | crates/mc-proxy/src/server.rs:537-811 | over every run and for every kind: held and lying items are those at the start plus those dug up, less those used and those that found no place |
| Play.NothingUnaccounted | crates/mc-proxy/src/server_state.rs:51-72 | the same from the start of play |
| Play.PanicsExactly | crates/mc-proxy/src/server.rs:584-646 | from the start of play, a run of events panics iff an item is used while a slot outside the inventory is held, or more blocks are dug than there are entity ids |
| Play.RunPanicsExactly | crates/mc-proxy/src/server.rs:537-811 | the same from any state whose counter of updates is no higher than its entity ids allow; that counter never overflows first |
| Play.OverreachPanics | crates/mc-proxy/src/server.rs:637-644 | the shortest run that can panic does iff the slot selected before the use is 46 or above |
| Play.SyncKeepsMirror | crates/mc-proxy/src/server.rs:766-805 | a client that saw the hotbar at window slots 36 to 44 and the main slots at 9 to 35 before a pickup sees them there after applying the updates, though only filled slots are sent |
| Play.SyncExactly | crates/mc-proxy/src/server.rs:769-780 | the updates after a pickup are those of window slots 36 to 44 whose hotbar slot, and of 9 to 35 whose main slot, holds something, with what it holds |
| Play.ShownWronglyExactly | crates/mc-proxy/src/server.rs:637-805 | after any run, a slot is shown wrongly iff items were used from it since it was last announced; it then shows items that are gone |
| Play.DropIs | crates/mc-proxy/src/server.rs:579-624 | what drops from a packed position: bedrock (85) at height -64 and dirt (55) anywhere else, one of it, in the middle of the block, with z modulo 2^26 |
| Play.DropPlacedExactly | crates/mc-proxy/src/server.rs:581-593 | a drop lies where the block stood iff z is not negative; otherwise it is reached exactly from 2^26 blocks further on, and by no player who reaches the block's place |
| PlayServer.FoundAreReached | crates/mc-proxy/src/server.rs:703-712 | the positions found select the entities in reach, and removing them from the last to the first leaves the others in order |
| PlayServer.ItemState.InsertItem | crates/mc-proxy/src/server.rs:724-742 | the loop over the slots, in place, is the specified pass |
| PlayServer.ItemState.TickPickup | crates/mc-proxy/src/server.rs:697-811 | the pickup of a tick: new inventory, ground and counter, and what the client is told, or the overflow |
| PlayServer.TickTells | crates/mc-proxy/src/server.rs:748-805 | a tick says nothing but what is taken and which slots hold what, the slots under the next state number, at windows 36 to 44 and 9 to 35 |
| PlayServer.TakesAccount | crates/mc-proxy/src/server.rs:744-762 | what the client is told is taken is, for every kind, what the inventory gains |
| PlayServer.FirstBlockPickedUp | crates/mc-proxy/src/server.rs:576-810 | from the start of play: the drop of the first block is entity 1000, and the next tick puts it into the first slot, removes it from the ground, and announces both |
| PlayServer.HomeReach | crates/mc-proxy/src/player.rs:17-29 | a player who has not moved reaches the drops closer than 4 to the origin at height -59 |
| PlayServer.ItemState.RemoveReached | crates/mc-proxy/src/server.rs:808-810 | removal from the last position to the first |
| PlayServer.ItemState.FinishDigging | crates/mc-proxy/src/server.rs:584-624 | the drop, its new id and the three packets that announce it, or the overflow |
| PlayServer.ItemState.UseHeldItem | crates/mc-proxy/src/server.rs:637-644 | one item fewer in the held slot, or a panic for a slot out of range |
| PlayPackets.HandlePacket | crates/mc-proxy/src/server.rs:537-662 | for every packet number and body: the event it stands for, ignored, or the panic of a body that is too short |
| PlayPackets.PlayHears | crates/mc-proxy/src/server.rs:492-532 | on every sequence of bytes, cut in any way and with ticks anywhere, the items are those of running the events that the bytes are heard as, and a panic is theirs or that of bytes no event stands for |
| PlayPackets.AnyBytesAccounted | crates/mc-proxy/src/server.rs:492-811 | whatever a client sends, if the server survives it the invariants hold and every item of every kind is accounted for |
| PlayPackets.AnyBytesPanicExactly | crates/mc-proxy/src/server.rs:492-662 | whatever a client sends, the server survives it iff no bytes make it panic at once, nothing is used from outside the inventory and the entity ids suffice |
| PlayPackets.IdleExactly | crates/mc-proxy/src/server.rs:537-662 | the packets that change no items and cause no panic, for every number and body |
| PlayPackets.CutActions | crates/mc-proxy/src/server.rs:537-650 | the packet of an action cut short inside its frame: a move is ignored, a slot taken for zero, and a dig or a place makes the server panic unless only its last number is missing |
| PlayPackets.IntOrZeroLong | crates/mc-core/src/varint.rs:54-71 | a number that is too long is taken for zero, and five bytes are skipped |
| PlayPackets.DeedsFollowTimeline | crates/mc-proxy/src/server.rs:497-503 | framed packets, cut in any way, are heard in the reads that complete them |
| PlayPackets.PlayFollowsTimeline | crates/mc-proxy/src/server.rs:492-532 | over any schedule of reads and ticks, each framed packet is acted on once, in order, in the read that completes it |
| PlayPackets.Understood | crates/mc-proxy/src/server.rs:541-650 | the packet of each client action is understood as that action: eight bytes each for x, y and z of a move, with or without a rotation, a packed position, a slot; packets without effect are ignored |
| PlayPackets.ActionsHappen | crates/mc-proxy/src/server.rs:492-532 | over any schedule of reads and ticks: a client's actions, framed and cut in any way, come to the run of their events with the ticks in between, every pickup in its place |
| PlayPackets.ActionsAccounted | crates/mc-proxy/src/server.rs:492-811 | the books of such a schedule from the start of play, for every kind of item, and the invariants at its end |
| PlayPackets.ActionsPanicExactly | crates/mc-proxy/src/server.rs:492-662 | such a run goes through iff the actions that have come whole place nothing from a slot outside the inventory and dig no more blocks than there are entity ids |
| Sessions.PlayLoop | crates/mc-proxy/src/server.rs:492-532 | the play loop over reads and ticks up to an empty read, with the check of the chunks after each read |
| Sessions.GameExactly | crates/mc-proxy/src/server.rs:492-532 | on any bytes, the loop panics iff what is heard does or the chunks around a visited place cannot be numbered; otherwise items and chunks do not interfere |
| Sessions.AnyBytesPlayOut | crates/mc-proxy/src/server.rs:458-532 | whatever a client sends, in any cuts and with ticks anywhere: exactly when the loop runs through, and then its items, what is loaded around every place, and how often each chunk was sent |
| Sessions.PlayerSurrounded | crates/mc-proxy/src/server.rs:492-525 | whatever a client sends, at the end every chunk at most four from its position has been loaded |
| Sessions.SentExactly | crates/mc-proxy/src/server.rs:497 | what a client sends are the pieces read before an empty one |
| Sessions.VisitsArePlaces | crates/mc-proxy/src/server.rs:497-516 | the chunks the server sees the client in after each read are those it said it was in, by the packets that had come whole |
| Sessions.BytesToChunks | crates/mc-proxy/src/server.rs:458-532 | over any actions, cuts and ticks: the loop runs through iff the actions that have come whole are harmless and all places viewable, and then its items, what is loaded around every place the client was seen at, and how often each chunk was sent |
| Sessions.PlacingFromNowhere | crates/mc-proxy/src/server.rs:637-644 | a client that selects a slot outside the inventory and places an item from it ends the loop with a panic, however its bytes are cut |
| Sessions.WholeSession | crates/mc-proxy/src/server.rs:154-535 | from a client's first byte: it is let in under its uuid, the play loop gets every later byte, runs through iff the actions are harmless and the places viewable, and ends with the items of the actions and the chunks of the places |
| NbtReader.ReadTagName | crates/mc-world/src/nbt.rs:198-209 | reading a name on any buffer, with each of its errors |
| NbtReader.ReadPayload | crates/mc-world/src/nbt.rs:228-343 | on any buffer and for every tag: the parsed value and exactly its bytes gone, or the error |
| NbtReader.ReadField | crates/mc-world/src/nbt.rs:217-224 | one field on any buffer: the parsed field and exactly its bytes gone, or the error |
| NbtReader.ReadCompoundBody | crates/mc-world/src/nbt.rs:211-226 | the loop over the fields is the parser of the grammar |
| NbtReader.ReadCompound | crates/mc-world/src/nbt.rs:95-111 | the root: value and bytes consumed, each error, and the panic on no input |
| NbtGrammar.ParseExactly | crates/mc-world/src/nbt.rs:228-343 | for every tag but End, on every input: the parser answers v after n bytes iff those n bytes spell v |
| NbtPanics.PanicsExactly | crates/mc-world/src/nbt.rs:228-343 | on every input, the reader panics iff well-spelled values lead up to a list, or an array of ints or longs, of negative length |
| NbtPanics.RootPanicsExactly | crates/mc-world/src/nbt.rs:95-111 | the same for whole files, which also panic when empty |
| NbtPanics.NegativeListPanics | crates/mc-world/src/nbt.rs:297-298 | a file of eleven bytes that makes the reader panic |
| NbtTheorems.RootExactly | crates/mc-world/src/nbt.rs:95-111 | a file is read iff it begins with a root compound |
| NbtTheorems.RoundTrip | crates/mc-world/src/nbt.rs:228-343 | parsing a printed value, whatever follows, gives it back and stops at its end |
| NbtTheorems.SpellableExactly | crates/mc-world/src/nbt.rs:228-343 | the values the parser can answer are exactly the well-typed ones |
| NbtTheorems.SpellingsPrefixFree | crates/mc-world/src/nbt.rs:228-343 | no spelling is the beginning of another of the same tag |
| NbtTheorems.LocalPayload | crates/mc-world/src/nbt.rs:228-343 | what follows a value does not matter |
| NbtTheorems.PayloadCut | crates/mc-world/src/nbt.rs:228-343 | every proper part of a value is reported as incomplete |
| NbtTheorems.RootCut | crates/mc-world/src/nbt.rs:100-111 | every nonempty proper part of a file is reported as incomplete |
| NbtTheorems.ParsedSize | crates/mc-world/src/nbt.rs:211-226 | a payload takes at least one byte, and the value has no more nodes and is no deeper than the bytes it took |
| Sections.CalculateBitsPerBlock | crates/mc-world/src/chunk.rs:368-375 | the least width from 4 up and 16 at most at which every palette index fits |
| Sections.ExtractExactly | crates/mc-world/src/chunk.rs:383-403 | shifting and masking read a digit of one big number, across words too; it answers iff the entry begins in a word that is there and has at most 63 bits |
| Sections.ReadableExactly | crates/mc-world/src/chunk.rs:59-65 | no cell of a section panics iff there are at least 64 words for each bit of the width |
| Sections.SectionIsArray | crates/mc-world/src/chunk.rs:59-71 | for 1 to 65536 states and any assignment to the 4096 cells, a section that stores it reports the assigned state everywhere |
| Sections.WidePaletteUnreachable | crates/mc-world/src/chunk.rs:374 | with more than 65536 states those from number 65536 on are never reported |
| Sections.BlockIter.Next | crates/mc-world/src/chunk.rs:112-125 | everything skipped is air, what is yielded is not, and its coordinates are those of the cell before the new position |
| Sections.CollectNonAir | crates/mc-world/src/chunk.rs:79-84 | a whole iteration lists by its coordinates each cell whose block is not air, once and in order, with that block, and panics iff some cell does |
| Sections.BlockAtExactly | crates/mc-world/src/chunk.rs:59-71 | what each cell reads as on any words: nothing if its entry does not begin in one, else the palette entry stored for it, else the nameless fallback |
| Sections.FallbackNeverYieldedExactly | crates/mc-world/src/chunk.rs:120 | the nameless fallback is never yielded iff every index that the words store lies inside the palette |
| Sections.EmptySectionYieldsEveryCell | crates/mc-world/src/chunk.rs:290-299 | a section without block states is listed whole, every cell with the nameless fallback |
| Chunks.LeastWidth | crates/mc-world/src/chunk.rs:370-373 | the least width at which the palette fits |
| Chunks.WidthUnique | crates/mc-world/src/chunk.rs:368-375 | only one width is the least |
| Chunks.DescribedBlock | crates/mc-world/src/chunk.rs:167-226 | a chunk whose NBT holds a section at this height, first among those at it, reports at every position the name of the palette entry assigned to the cell |
| Chunks.DescribedSection | crates/mc-world/src/chunk.rs:280-322 | a described section is parsed with its height and palette and stores its cells |
| Chunks.ChunkExactly | crates/mc-world/src/chunk.rs:166-206 | a chunk is found iff both its coordinates are ints under their names; version, status and least height, or their defaults |
| Chunks.FindExactly | crates/mc-world/src/nbt.rs:126-195 | a field is looked up by its name, and the first one of that name decides |
| Chunks.EntryExactly | crates/mc-world/src/chunk.rs:324-348 | a palette entry has the name and, in order, the properties of its compound, numbers in decimal |
| Chunks.BlockExactly | crates/mc-world/src/chunk.rs:59-226 | what every position of every parsed chunk reads as, whatever its words: the stored palette entry's name, air where there is no section, no name outside the palette, and a panic iff the words end before the cell's entry |
| Chunks.LowestExactly | crates/mc-world/src/chunk.rs:200-203 | the least world height of a chunk is the foot of some section and of none a lower one |
| Chunks.HeightExactly | crates/mc-world/src/chunk.rs:220-221 | section and remainder give the height back iff it lies in -2048..2047 |
| Chunks.HeightAliasesExactly | crates/mc-world/src/chunk.rs:220-221 | two heights are looked up alike iff they differ by a multiple of 4096 |
| Decimals.DecimalBack | crates/mc-world/src/world.rs:75 | every i32 written in decimal is parsed back, without dots in it |
| Decimals.ParseIntExactly | crates/mc-world/src/region.rs:71-72 | what `parse::<i32>` accepts: at least one digit behind a plus, a minus or nothing, of a value in range |
| Regions.NameBack | crates/mc-world/src/region.rs:69-77 | the coordinates read from a region's file name are those it was made from, negative ones too |
| Regions.OtherNames | crates/mc-world/src/region.rs:69-77 | any other first part, or fewer than three, stand for region (0, 0), and a part that is not a number for zero |
| Regions.OddNames | crates/mc-world/src/region.rs:68-75 | a name that is not UTF-8 stands for region (0, 0) |
| Regions.RegionFile.Open | crates/mc-world/src/region.rs:69-102 | a missing file, a short one, or the region with both tables read |
| Regions.IndexExactly | crates/mc-world/src/region.rs:179-183 | when the table can be asked about a chunk without a panic, and the index then |
| Regions.IndexInside | crates/mc-world/src/region.rs:105-108 | inside its region every chunk has its own entry |
| Regions.OutsideAnsweredExactly | crates/mc-world/src/region.rs:105-108 | the chunks outside the region that are answered for rather than refused |
| Regions.AliasesExactly | crates/mc-world/src/region.rs:105-108 | two chunks share an entry iff they differ by a multiple of 32 to one side and 1 to the other |
| Regions.RegionFile.LoadChunk | crates/mc-world/src/region.rs:111-161 | the loaded chunk or the error, whatever the cursor was left at |
| Regions.LoadErrors | crates/mc-world/src/region.rs:111-154 | where the bytes of a chunk are looked for, and which error it gives if they are not whole, of an unknown kind, not decompressed or no NBT |
| Regions.LoadNeedsEntry | crates/mc-world/src/region.rs:105-117 | `load_chunk` reports a chunk as not present iff `has_chunk` denies it |
| Regions.RegionFile.ChunkCoords | crates/mc-world/src/region.rs:164-177 | lists each chunk of the region that `has_chunk` finds once, in order, and panics iff there is one and the region's corner does not fit an i32 |
| Worlds.World.GetChunk | crates/mc-world/src/world.rs:28-46 | through the cache, after any earlier queries, the answer is the one of opening the file now; at most this one region is added |
| Worlds.World.GetBlockName | crates/mc-world/src/world.rs:50-60 | the block's name, or nothing for air, through the cache |
| Worlds.IndexOfChunk | crates/mc-world/src/world.rs:29-41 | for every pair of i32 the index is the low five bits of each coordinate, below 1024 |
| Worlds.AddressesDiffer | crates/mc-world/src/world.rs:72-76 | no two chunks of the world share a file and an entry |
| Worlds.PanicsExactly | crates/mc-world/src/world.rs:28-46 | a lookup panics iff the NBT stored for the chunk is poisoned: empty, or with a negative length after well-spelled values |
| Worlds.BlockPanicsExactly | crates/mc-world/src/world.rs:50-60 | the lookup of a block panics iff the NBT stored for its chunk is poisoned, or begins with a chunk whose section at this height has words that end before the entry of the block's cell |
| WrittenWorlds.PoisonedLookupPanics | crates/mc-world/src/world.rs:28-46 | a region file, in order but for one negative length, that makes the lookup of its chunk panic |
| Worlds.FoundExactly | crates/mc-world/src/world.rs:41-45 | which chunk is found: the one described by the root compound that the stored bytes begin with, in whatever spelling |
| Worlds.StoredBlockIsFound | crates/mc-world/src/world.rs:50-60 | from a region file's bytes to a block: the name assigned to its cell is what is found at every position, and nothing if that is minecraft:air or empty |
| RegionWriter.RegionHolds | crates/mc-world/src/region.rs:80-133 | in a file laid out with any chunks, each entry leads to the bytes, the kind and the time of the chunk stored for it, and no other entry leads anywhere; in the standard layout to one byte more, or to nothing if that lies past the end |
| WrittenWorlds.WrittenWorldReadsBack | crates/mc-world/src/world.rs:50-60 | draw any sections in any chunks of any regions, compress each chunk in any of the three ways, write the files in either layout: at every position of the world the name drawn is found, and nothing where minecraft:air, no name or nothing was drawn, or in a chunk in the standard layout whose extra byte is missing or rejected |
| WrittenWorlds.PlotLoads | crates/mc-world/src/region.rs:111-161 | such a chunk is loaded under its coordinates with its root compound and the time of its own entry |
| KnownBytes.VarIntBytes | crates/mc-core/src/varint.rs:190-259 | the numbers of the tests and their bytes, negative ones too |
| KnownBytes.VarIntErrors | crates/mc-core/src/varint.rs:293-313 | the incomplete and the too long numbers of the tests |
| KnownBytes.BigEndianBytes | crates/mc-world/src/nbt.rs:228-262 | numbers of one, two and four bytes, most significant first, in two's complement |
| KnownBytes.FrameBytes | crates/mc-proxy/src/config_handler.rs:71-113 | a small frame with and without compression |
| KnownBytes.HandshakeBytes | crates/mc-proto/src/handshake.rs:116-132 | the handshake of the tests, byte by byte, for each next state |
| KnownBytes.LoginBytes | crates/mc-proto/src/login.rs:24-40 | a login start and a disconnect, byte by byte |
| KnownBytes.RegistryBytes | crates/mc-proto/src/config.rs:65-105 | registry data with an entry of each sort, byte by byte |
| KnownBytes.ListBodies | crates/mc-proto/src/config.rs:118-188 | features and packs, byte by byte |
| KnownBytes.ClientInformationBytes | crates/mc-proto/src/config.rs:228-253 | client information with its eight fields, byte by byte |
| KnownBytes.NumberBytes | crates/mc-world/src/nbt.rs:228-262 | a compound with one number, for each of the six tags, byte by byte |
| KnownBytes.ArrayBytes | crates/mc-world/src/nbt.rs:264-340 | the same for the three arrays |
| KnownBytes.ContainerBytes | crates/mc-world/src/nbt.rs:291-312 | the same for a list and for a compound |
| KnownBytes.RootBytes | crates/mc-world/src/nbt.rs:350-373 | a whole file like the one of the tests, byte by byte |
| KnownBytes.ShortInputs | crates/mc-world/src/nbt.rs:228-262 | what each number reports when fewer bytes are left than it takes |
| KnownBytes.ShortContainers | crates/mc-world/src/nbt.rs:211-335 | the same for strings, lists, fields and files |
| KnownBytes.ShortArrays | crates/mc-world/src/nbt.rs:264-340 | the same for arrays |
| KnownBytes.CutPayloads | crates/mc-world/src/nbt.rs:262-340 | a string or an array that declares more than there is says how much it lacks |
| KnownBytes.WrongTags | crates/mc-world/src/nbt.rs:43-62 | numbers that are no tag, and roots that are no compound |
| KnownBytes.PackedEntries | crates/mc-world/src/chunk.rs:410-430 | the packed entries of the tests, one of them in the second word |
| KnownBytes.PositionBytes | crates/mc-proxy/src/server.rs:427 | two packed positions as numbers |
| KnownBytes.DecimalText | crates/mc-world/src/world.rs:72-76 | numbers in decimal and the file names made of them |

## Left out

* Sockets, `select!`, printing, directory scans and writing to the socket: reads are arbitrary pieces, ticks are events.
* zlib and gzip (RFC 1950 to 1952): arbitrary functions, as said above.
* Release builds, where overflow wraps instead of panicking. Limits of memory and stack: a list that reserves room for
  2^31 values, or NBT nested too deeply for the stack, ends the process rather than returning.
* The exact text of errors, and which I/O error it was.
* Rounding of f64: `floor`, the distance and the range test are over reals.
* `BLOCK_CHANGES`, the set shared by all connections, and its replay when play starts.
* The initial burst of play (fixed packets and captured templates) apart from the chunks it sends; the registry and tag
  tables themselves; packet number tables; the bodies of the chunk packets sent, and their batch markers.
* Health, experience, commands, chat and the other packets that change no modelled state; the tick counters.
* Block entities, heightmaps and biomes of a chunk: `parse_block_entity`, `get_top_y`, `get_biome`.
* `ChunkBlockIter`: it advances its section before emitting that section's blocks, so its coordinates do not agree with
  `get_block`; the model stays at one section.
* `read_named`, `relay.rs`, `main.rs`, `ping.rs`, `inspect.rs`, status JSON, `parse_chunk_sections`: plumbing or data.
* Region files that change after they were opened: the file system is fixed.
- Streams.PacketsSurviveAnyCut: assumes that every packet can be framed; for plain frames `Streams.PlainStreamExactly` shows the condition to be exact, with compression the decompressor is free to make sense of a wrongly cut frame.
- Pickups.EmptySlotsSuffice: a sufficient condition; `Pickups.TidyConservedExactly` shows it to be exact in a tidy inventory, `Pickups.ConservedExactly` has the condition for any other, which follows the pass.
- Pickups.EmptySlotsNeeded: a necessary condition, exact in the same cases.
- Play.DropPlacedExactly: measures reach over reals.
