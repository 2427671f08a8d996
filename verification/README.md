# Delay-tolerant networking: a verified model

This project models the Bundle Protocol version 7 node `dtnd7-go` (Go) and the compute framework
`rec/dtn` (Python) that runs on top of it, and proves what their core promises:

- **The wire format.** What is written is the CBOR tree that RFC 9171 prescribes, each block ending in
  the checksum of its own bytes. The hand-written parser refines a generic CBOR decoder: it returns a
  bundle exactly for the streams that decode to its blocks, with the right checksums, if the bundle is
  valid. Parsing undoes writing, whatever follows on the stream, exactly for the bundles that can be
  represented on the wire; a skipping parser that decodes only some blocks agrees with the full one on
  every stream the full one accepts.
- **Fragmentation.** When a bundle can be fragmented, what each fragment keeps of it, and when all
  fragments fit the MTU although their overhead is only estimated, each as an exact condition. Any
  arrangement of the fragments, with repetitions, reassembles to the bundle, also after each was
  written and parsed; a collection of fragments is found complete exactly when none is missing.
  Overlapping fragments from anywhere reassemble, however ties are sorted, exactly when no byte is
  missing and no fragment is nested in another.
- **Store, carry and forward.** What every reachable descriptor state keeps, and exactly which
  operation deletes a bundle; and, in networks of any size with lost and reordered transmissions,
  the copy bounds of spray-and-wait and the flooding argument of epidemic routing.
- **Convergence layers.** The MTCP stream decodes to exactly the bundles sent; the adaptor registry
  never holds an address twice in any interleaving.
- **Placement, data and association.** Highest-random-weight selection is stable under membership
  changes; the cached, deduplicating datastore answers with what was first stored; a node is only
  associated with a broker that lists it, and from every reachable state it can get there.

Every module stands for a component: `Cbor`, `Endpoint`, `Block`, `Primary`, `Bundle`,
`PartialParse`, `Numbering`, `Fragmentation`, `Reassembly` (package `bpv7`), `Mtcp`, `ClaRegistry`
(`cla`), `Descriptor`, `Store` (`store`), `Routing`, `SprayNetwork`, `EpidemicNetwork` (`routing` and
`processing`), `Hrw` (`placement`), `Datastore`, `Association`; or for a group of theorems about
them: `WireFormat`, `Sealing`, `Decoding`, `Acceptance`, `BlockStreams`, `Skipping`, `Validity` and
`Lifetime` about written and parsed bundles, `Pieces`, `MtuBound`, `MtuOverruns`, `Arrangements` and
`EndToEnd` about fragments, `Identity` about stored ones. `Bytes`, `Sums`, `Sorting` and `Subsequences` hold what they share.

Code that changes state step by step is a class or a method with loops, proved against a function.
The theorems are about that function, over all its inputs and all runs, and say what it does in
other terms than its own: as bytes, positions of elements, or histories.

`dafny verify dfyconfig.toml` checks the whole project.

## How the model reads the code

- The CBOR library is modelled from RFC 8949: shortest-form heads are written, and any well-formed
  head of at most 64 bits is read. The break code is an error that a caller may test for. The block
  parsers test for it anywhere inside a block header or checksum head, not only in front of a block,
  and so does the model.
- The two checksum algorithms, the SHA-1 digest and the placement hash are parameters, and so is the
  clock (`now`, in nanoseconds for bundles, in seconds for heartbeats). The checksum fields that the
  code caches in its blocks are not part of a block's value.
- `int` is 64 bits wide. Offsets, lengths, counters and flags are 64-bit unsigned where the code has
  `uint64`. Conversions to `int` wrap (`WrapInt64`); a payload holds at most 2^53 bytes, which
  is what the `float64` minimum in `Fragment` represents exactly, and a bundle as many blocks.
- `sort.Slice` is not stable. Theorems about sorted fragments hold for every sorted permutation.
- A dereferenced missing value and a slice out of range are the error `Panic`.
- Networks take one whole select-and-send per step. Two selections at the same node at the same time,
  which would read and write the copy counter in turns, are left out. Storing a bundle, new or
  received, and telling the router about it are two steps, as in `receiveAsync`.

Where the code does not do what its comments or its callers take for granted:

- The validity pattern of dtn endpoints is not anchored, so `CheckValid` accepts endpoints that no
  parser returns (`Endpoint.ValidIsNotWire`). Round trips hold exactly for the anchored pattern.
- The gap check of reassembly overwrites the end offset instead of taking the maximum. A fragment
  nested in its predecessor passes it and then panics in the merge (`Reassembly.NestedFragmentPanics`).
- The overhead of a fragment is estimated with the original block numbers. Renumbering never needs
  more bytes for distinct numbers of at least 2, which `AddExtensionBlock` gives out, but it can for
  the numbers 0 and 1, which `CheckValid` lets pass (`MtuOverruns.LowNumbersOverrun`). A fragment
  that comes back whole keeps its own offset and length, which the estimate does not see
  (`MtuOverruns.WideFragmentOverrun`). `MtuBound.FragmentsFitIff` has the exact condition.
- A node that selects peers between storing a bundle and storing its copy counter assumes the
  configured number of copies, in both modes (`SprayNetwork.EarlySelectDoublesCopies`,
  `SprayNetwork.EarlyRelaySelects`). The bounds count such selections, at most one per node; a
  selection conserves copies, and a relay stays silent, exactly when it is none of these
  (`SprayNetwork.SelectConservesIffCounted`, `SprayNetwork.RelaySelectsIffEarly`).
- `BinarySprayBlock` is not registered, so a parser returns it as a generic block, whose type
  reception then asserts wrongly. The wire format model has it so (`Block.ContentRoundTrip`); the
  network model takes the block as decoded.
- A cached answer of the datastore misses longer names stored since it was cached
  (`Datastore.CachedAnswer`, `Datastore.StaleAnswer`).
- With a limit of 0 the data cache holds one entry (`Datastore.LimitHoldsIffPositive`).
- A bundle without a clock needs its age block in every fragment, but the block is only copied if its
  flags say so. Otherwise fragmentation fails (`Pieces.FragmentSucceedsIff`).
- Lifetimes are converted to a signed number of nanoseconds. From 2^63 on they overflow, and a bundle
  with a lifetime of 293 years has expired when it is made (`Lifetime.DeadlineExactIff`,
  `Lifetime.LongLifetimeExpires`).
- The store computes when a bundle without a clock expires as if it had been made in the year 2000
  (`Identity.StoreExpires`).
- A bundle without payload block makes the parser panic (`BlockStreams.NoPayloadPanics`). A break code
  inside a block, in place of one of its first four elements or of its checksum, ends the blocks
  without an error (`Acceptance.BreakReadIff`).
- The skipping parser does not notice a payload that is cut off if its reader can seek, and panics
  otherwise (`Skipping.CutOffPayload`).
- Key and node are hashed with a separator that both may contain, so different pairs can share a
  weight (`Hrw.SharedWeight`). For a fixed key, or a fixed node, they cannot (`Hrw.WeightsTellApart`).

## Model

| member | source | states |
|---|---|---|
| `Cbor.HeadRoundTrip` | dtnd7-go/pkg/bpv7/primary_block.go:99-132 | reading a shortest-form head returns its major type and argument and leaves what follows |
| `Cbor.ByteStringRoundTrip` | dtnd7-go/pkg/bpv7/extension_block.go:108-155 | reading a byte string returns the data written and leaves what follows |
| `WireFormat.ShortestHead` | dtnd7-go/pkg/bpv7/primary_block.go:99-132 | whatever head was read, the one that is written for the same meaning is not longer |
| `WireFormat.StandardHeads` | dtnd7-go/pkg/bpv7/primary_block.go:99-132 | heads have the bytes that appendix A of RFC 8949 lists |
| `Endpoint.ParseSspInverts` | dtnd7-go/pkg/bpv7/endpoint_dtn.go:44-65 | splitting `//node/demux` gives node and demux back exactly if the node is a non-empty name of allowed characters and the demux has no line break |
| `Endpoint.ParseSspIff` | dtnd7-go/pkg/bpv7/endpoint_dtn.go:44-65 | every text is parsed to an endpoint exactly if it is that endpoint's text |
| `Endpoint.NewDtn` | dtnd7-go/pkg/bpv7/endpoint_dtn.go:68-89 | an endpoint built from a URI passes the validity check and can be represented on the wire |
| `Endpoint.NewDtnInvertsUri` | dtnd7-go/pkg/bpv7/endpoint_dtn.go:139-145 | building from the printed URI returns the endpoint exactly for wire-representable endpoints |
| `Endpoint.NewDtnIff` | dtnd7-go/pkg/bpv7/endpoint_dtn.go:68-89 | an endpoint is built exactly from its own URI text, and from no other |
| `Endpoint.WireDtnIsValid` | dtnd7-go/pkg/bpv7/endpoint_dtn.go:128-137 | every wire-representable dtn endpoint passes the unanchored check |
| `Endpoint.ValidIsNotWire` | dtnd7-go/pkg/bpv7/endpoint_dtn.go:133 | the converse fails: an endpoint that is valid and that no parser returns |
| `Endpoint.ValidWithoutSlashes` | dtnd7-go/pkg/bpv7/endpoint_dtn.go:128-137 | without slashes in node and demux the check accepts exactly the non-empty names of allowed characters |
| `Endpoint.ReadEid` | dtnd7-go/pkg/bpv7/endpoint.go:148-176 | whatever was read consumed input and is wire-representable |
| `Endpoint.DtnRoundTrip` | dtnd7-go/pkg/bpv7/endpoint_dtn.go:148-187 | reading a written dtn endpoint returns it and leaves what follows |
| `Endpoint.IpnRoundTrip` | dtnd7-go/pkg/bpv7/endpoint_ipn.go:100-131 | reading a written ipn endpoint returns it and leaves what follows |
| `Endpoint.EidRoundTrip` | dtnd7-go/pkg/bpv7/endpoint.go:125-176 | for every endpoint, reading undoes writing exactly if it is wire-representable |
| `Decoding.EidReadIff` | dtnd7-go/pkg/bpv7/endpoint.go:148-176 | on every stream an endpoint is read exactly where a generic decoder finds its CBOR item, with any number for dtn:none |
| `WireFormat.EidFormat` | dtnd7-go/pkg/bpv7/endpoint.go:125-146 | a written endpoint is the CBOR array of scheme number and scheme-specific part |
| `Block.ReadContent` | dtnd7-go/pkg/bpv7/extension_block.go:131-155 | a decoded value has the type code asked for, is wire-representable, and is never of an unregistered type |
| `Block.ContentRoundTrip` | dtnd7-go/pkg/bpv7/extension_block.go:98-155 | decoding a written value by its code returns it, as a generic block if its type is not registered |
| `WireFormat.ContentFormat` | dtnd7-go/pkg/bpv7/extension_block.go:98-125 | a written value is the CBOR item of its type: an endpoint, a number, a pair of limit and count |
| `Decoding.ContentReadIff` | dtnd7-go/pkg/bpv7/extension_block.go:131-155 | a value is read exactly where its bytes decode to the item of its type, or are taken as they are for payload and unregistered types |
| `Block.CrcRoundTrip` | dtnd7-go/pkg/bpv7/crc.go:51-96 | a written checksum field is accepted by the reader that replays the same bytes, for all three checksum types; `Sealing` says what the field is |
| `Sealing.WrittenBlockIsSealed` | dtnd7-go/pkg/bpv7/crc.go:51-96 | a written block ends in the big-endian checksum of all its own bytes with zeros in the place of the checksum: two bytes for CRC16, four for CRC32 |
| `Sealing.WrittenPrimaryIsSealed` | dtnd7-go/pkg/bpv7/crc.go:51-96 | so does a written primary block |
| `Sealing.ReadBlockIsSealed` | dtnd7-go/pkg/bpv7/canonical_block.go:230-294 | on every stream, a six-element block with a checksum type that is read ends in a byte string that meets this equation over the bytes consumed, and the type is known |
| `Sealing.ReadPrimaryIsSealed` | dtnd7-go/pkg/bpv7/primary_block.go:167-242 | so does a primary block of nine or eleven elements that is read |
| `Sealing.OnlyItsChecksum` | dtnd7-go/pkg/bpv7/canonical_block.go:270-291 | behind the bytes of a block exactly one checksum of its width is accepted: the one it was written with, which is the one that seals those bytes |
| `Block.ReadCanonical` | dtnd7-go/pkg/bpv7/canonical_block.go:230-294 | whatever was read consumed input and is wire-representable; a break code leaves less input than there was |
| `Block.BreakEndsBlocks` | dtnd7-go/pkg/bpv7/canonical_block.go:230-239 | the break code in front of a block is reported as such, with what follows it unread |
| `Block.WrittenBlockStages` | dtnd7-go/pkg/bpv7/canonical_block.go:95-133 | the header of a written block is read back field by field, and its checksum accepted behind the value |
| `Block.CanonicalRoundTrip` | dtnd7-go/pkg/bpv7/canonical_block.go:95-294 | reading a written block returns it, with its checksum accepted and what follows unread |
| `WireFormat.BlockFormat` | dtnd7-go/pkg/bpv7/canonical_block.go:95-133 | a written block is the CBOR array of type, number, flags, checksum type, the value as byte string, and a checksum that seals it |
| `Decoding.BlockReadIff` | dtnd7-go/pkg/bpv7/canonical_block.go:230-294 | on every stream a block is read, and reading stops behind it, exactly where a generic decoder finds a list of its five elements, or of six with the checksum that seals the first five as they are on the stream |
| `Acceptance.BreakReadIff` | dtnd7-go/pkg/bpv7/canonical_block.go:230-294 | on every stream the reader reports the break code exactly if it stands in front of a block, or inside one in place of one of its first four elements or of its checksum |
| `Block.AsReadBytes` | dtnd7-go/pkg/bpv7/extension_block_generic.go:14-52 | a block that came back as generic is written in the same bytes as the typed one |
| `Primary.ReadPrimary` | dtnd7-go/pkg/bpv7/primary_block.go:167-242 | endpoints read are wire-representable, and forms without fragment fields leave them zero |
| `Primary.PrimaryRoundTrip` | dtnd7-go/pkg/bpv7/primary_block.go:99-242 | reading undoes writing for the forms of 8, 9, 10 and 11 elements, with the checksum accepted |
| `Primary.PrimaryLengthRead` | dtnd7-go/pkg/bpv7/primary_block.go:99-112 | the first head of a written block announces the form its flags and checksum type call for |
| `WireFormat.PrimaryFormat` | dtnd7-go/pkg/bpv7/primary_block.go:99-165 | a written primary block is the CBOR array of its fields in the order of section 4.3.1 of RFC 9171, offset and length only in a fragment, and a checksum that seals it |
| `Decoding.PrimaryReadIff` | dtnd7-go/pkg/bpv7/primary_block.go:167-242 | on every stream a primary block is read exactly where a generic decoder finds a list of its eight or ten fields, or of one more with the checksum that seals them |
| `Bundle.MarshalBlocks` | dtnd7-go/pkg/bpv7/bundle.go:365-373 | blocks are appended in order, and the first one that cannot be written is an error |
| `Bundle.MarshalBundle` | dtnd7-go/pkg/bpv7/bundle.go:357-381 | the stream is start, primary block, extension blocks, payload, break; an error exactly if some part cannot be written |
| `WireFormat.BundleFormat` | dtnd7-go/pkg/bpv7/bundle.go:357-381 | every written bundle is the indefinite-length array of its primary block, its extension blocks in order, and its payload block, each in the prescribed form and sealed |
| `Bundle.UnmarshalBundle` | dtnd7-go/pkg/bpv7/bundle.go:384-413 | the parser's loop computes the recursive parse, errors and unread rest included |
| `Bundle.AsReadValid` | dtnd7-go/pkg/bpv7/bundle.go:289-337 | a bundle and what a reader sees of it are valid at the same times |
| `Bundle.ParsedBlocksAreWire` | dtnd7-go/pkg/bpv7/bundle.go:395-410 | on every stream the parser collects wire-representable blocks, with a payload block only in the payload's place |
| `BlockStreams.StreamParses` | dtnd7-go/pkg/bpv7/bundle.go:395-410 | from any sequence of written blocks, payload blocks in any number and place, the parser takes exactly the others, in order, as extension blocks, and the last payload block |
| `BlockStreams.NoPayloadPanics` | dtnd7-go/pkg/bpv7/bundle.go:384-413 | without any payload block the parser panics |
| `Acceptance.ParseIff` | dtnd7-go/pkg/bpv7/bundle.go:384-413 | for every stream, bundle and rest: the parser returns them exactly if the stream decodes to a primary block and a chain of blocks up to a break, with the bundle's extension blocks in order and its payload block the last one, and the bundle is valid |
| `Validity.ValidIff` | dtnd7-go/pkg/bpv7/bundle.go:289-337 | a bundle of parsed parts is valid exactly if it keeps the rules on flags, endpoint numbers, block numbers, single blocks of a type, hop counts, payload block and time, written out |
| `Validity.ParsedIsSound` | dtnd7-go/pkg/bpv7/bundle.go:289-337 | on every stream a parsed bundle keeps all these rules |
| `Validity.ByTypePicks` | dtnd7-go/pkg/bpv7/bundle.go:146-159 | the blocks of a type are exactly those with its code, in order |
| `Bundle.WrittenBundleParses` | dtnd7-go/pkg/bpv7/bundle.go:357-413 | parsing a written valid bundle returns it, unregistered types as generic blocks, and leaves what follows |
| `Bundle.ParseUndoesWrite` | dtnd7-go/pkg/bpv7/bundle.go:357-413 | for every valid bundle that can be written, parsing returns it and leaves what follows exactly if the bundle is wire-representable |
| `Bundle.RewriteIsStable` | dtnd7-go/pkg/bpv7/bundle.go:357-413 | writing the parsed bundle gives the same bytes again |
| `Lifetime.DeadlineExactIff` | dtnd7-go/pkg/bpv7/bundle.go:274-286 | the computed deadline is creation time and lifetime added up exactly if neither overflows 63 bits |
| `Lifetime.ExpiresByClock` | dtnd7-go/pkg/bpv7/bundle.go:274-286 | then a bundle with a clock has expired exactly behind that instant |
| `Lifetime.LongLifetimeExpires` | dtnd7-go/pkg/bpv7/bundle.go:274-286 | a lifetime of 293 years that overflows, and the bundle has expired at once |
| `Lifetime.ExpiresByAge` | dtnd7-go/pkg/bpv7/bundle.go:274-286 | a bundle without a clock has expired, at whatever time, exactly unless it has one age block with an age within the lifetime |
| `Lifetime.ExpiredForGood` | dtnd7-go/pkg/bpv7/bundle.go:274-286 | what has expired stays so |
| `PartialParse.ReadWanted` | dtnd7-go/pkg/bpv7/canonical_block.go:138-227 | every block that was seen, decoded or skipped, by a seekable reader or another, consumed input |
| `PartialParse.SameStep` | dtnd7-go/pkg/bpv7/canonical_block.go:138-294 | on every stream where the full reader reads a block, the skipping reader stops at the same place with the same type code, and with the same block if its type is wanted; where the full reader sees the end, so does it |
| `PartialParse.UnmarshalPartial` | dtnd7-go/pkg/bpv7/bundle.go:91-127 | the loop with its shrinking list of wanted codes computes the recursive partial parse |
| `PartialParse.CollectsFirstOfEach` | dtnd7-go/pkg/bpv7/bundle.go:105-126 | started anywhere in the stream, the loop ends with the first block of each wanted type |
| `BlockStreams.FirstOfEachPicks` | dtnd7-go/pkg/bpv7/bundle.go:105-126 | these are, in order, exactly the blocks of wanted types that no block of the same type precedes |
| `PartialParse.SkippingAgreesWithFull` | dtnd7-go/pkg/bpv7/bundle.go:91-127 | for either kind of reader, on every stream the full parser accepts and for every list of distinct codes: the full parser's primary block, and the first block of each wanted type in front of the payload, in stream order |
| `PartialParse.SkippingOnWrittenBundle` | dtnd7-go/pkg/bpv7/bundle.go:91-127 | for a written valid bundle: the first block of each wanted type among all extension blocks of the full parse |
| `Skipping.WantedReadIff` | dtnd7-go/pkg/bpv7/canonical_block.go:138-227 | on every stream a wanted block is read exactly where the full reader reads it |
| `Skipping.OthersAreSkipped` | dtnd7-go/pkg/bpv7/canonical_block.go:183-206 | any other list of five or six block elements is stepped over, whatever its value and checksum |
| `Skipping.CutOffPayload` | dtnd7-go/pkg/bpv7/canonical_block.go:183-206 | at a payload longer than the stream a seekable reader ends with what it has, and any other one panics |
| `Skipping.PartialIsSound` | dtnd7-go/pkg/bpv7/bundle.go:91-127 | on every stream it accepts: a primary block that keeps its rules, and blocks of wanted types that keep theirs |
| `Numbering.FreeNumber` | dtnd7-go/pkg/bpv7/bundle.go:194-217 | the search ends, at the least number from its start that no block uses |
| `Numbering.AddKeepsNumbering` | dtnd7-go/pkg/bpv7/bundle.go:189-222 | adding gives the block the least free number, keeps every other block, and keeps numbers distinct and sorted |
| `Numbering.AddAllRenumbers` | dtnd7-go/pkg/bpv7/bundle.go:183-222 | adding blocks one by one to a new bundle keeps their order and numbers them 2, 3, 4 and so on |
| `Numbering.RemoveTakesOne` | dtnd7-go/pkg/bpv7/bundle.go:240-247 | removing by number takes out that block only |
| `Numbering.DistinctNumbersAreKeys` | dtnd7-go/pkg/bpv7/canonical_block_sort.go:23-31 | the sort order of blocks tells two blocks apart exactly if their numbers differ |
| `Numbering.SortedMeans` | dtnd7-go/pkg/bpv7/canonical_block_sort.go:23-31 | sorted blocks have ascending numbers, and a block with the number 1 comes last |
| `Numbering.ForwardingReplacesPreviousNode` | dtnd7-go/pkg/processing/processing.go:71-84 | a valid bundle leaves with exactly one previous-node block, naming this node; every other block keeps number and content; numbers stay distinct and sorted |
| `Numbering.BundleObject.AddExtensionBlock` | dtnd7-go/pkg/bpv7/bundle.go:189-222 | the update in place, loops and sort included, is the one the lemmas are about |
| `Numbering.BundleObject.RemoveExtensionBlockByBlockNumber` | dtnd7-go/pkg/bpv7/bundle.go:240-247 | the update in place takes out the first block with the number |
| `Numbering.BundleObject.ReplacePreviousNode` | dtnd7-go/pkg/processing/processing.go:71-84 | remove and add in place, as the forwarding procedure does them |
| `Fragmentation.EstimateExtensionBlocks` | dtnd7-go/pkg/bpv7/fragmentation.go:123-183 | both sums are those of the blocks measured with CRC32; an error exactly if some block cannot be measured |
| `Fragmentation.CopyBlocks` | dtnd7-go/pkg/bpv7/fragmentation.go:66-77 | the first fragment gets all blocks, every other one those to be replicated, renumbered |
| `Fragmentation.CutPiece` | dtnd7-go/pkg/bpv7/fragmentation.go:41-89 | one round of the loop cuts the piece at its offset, or fails if there is no room or the piece is invalid; `Pieces` says what a piece keeps |
| `Fragmentation.FragmentBundle` | dtnd7-go/pkg/bpv7/fragmentation.go:19-97 | the loop computes the recursive cutting, with its errors; one piece means the original bundle |
| `Pieces.PiecesKeepBundle` | dtnd7-go/pkg/bpv7/fragmentation.go:41-94 | every fragment, at whatever offset: the bundle's primary block with only the fragment bit, offset and length changed; the payload bytes of its range under the payload's flags and checksum type; and all extension blocks, or behind the first exactly those with the replication bit, in order, numbered from 2 |
| `Pieces.PieceValidIff` | dtnd7-go/pkg/bpv7/fragmentation.go:66-89 | a fragment of a valid bundle is valid exactly if it is the first one, or the bundle has a clock or a replicated age block |
| `Pieces.FragmentSucceedsIff` | dtnd7-go/pkg/bpv7/fragmentation.go:19-97 | fragmentation succeeds exactly if the flags allow it, every round has room, and one piece is enough or the fragments behind the first are valid |
| `MtuBound.FromTwoIsShortest` | dtnd7-go/pkg/bpv7/fragmentation.go:123-183 | distinct numbers of at least 2 need, in any order, no shorter heads in total than 2, 3, 4 and so on |
| `MtuBound.RenumberingNeverGrows` | dtnd7-go/pkg/bpv7/bundle.go:189-222 | renumbered blocks are written in no more bytes than the originals |
| `MtuBound.RenumberingGrowth` | dtnd7-go/pkg/bpv7/bundle.go:189-222 | for any blocks, renumbering changes their size by exactly the change in the heads of their numbers |
| `MtuBound.CarriedSize` | dtnd7-go/pkg/bpv7/fragmentation.go:123-183 | what the blocks of a fragment really take is the estimate for them, what renumbering adds, and less the checksums that are narrower than CRC32 |
| `MtuBound.PayloadSize` | dtnd7-go/pkg/bpv7/fragmentation.go:156-183 | what the payload block really takes against its estimate, exactly |
| `MtuBound.PieceSize` | dtnd7-go/pkg/bpv7/fragmentation.go:41-89 | the exact number of bytes of every fragment, against the MTU and the estimates |
| `MtuBound.FullPieceSize` | dtnd7-go/pkg/bpv7/fragmentation.go:41-89 | a fragment that uses up its room takes the MTU, what renumbering adds, less what checksums and payload head have to spare |
| `MtuBound.RoundFitsByNumbers` | dtnd7-go/pkg/bpv7/fragmentation.go:41-89 | without a payload block among the extension blocks, a fragment fits exactly if the growth of the number heads is at most the spare bytes of checksums, payload head and room |
| `MtuBound.RoundsFitIff` | dtnd7-go/pkg/bpv7/fragmentation.go:41-90 | the fragments cut from an offset on all fit exactly if every round does |
| `MtuBound.OnePieceIff` | dtnd7-go/pkg/bpv7/fragmentation.go:92-94 | there is one piece exactly if the payload is not empty and there is room for all of it |
| `MtuBound.WholeFitsIff` | dtnd7-go/pkg/bpv7/fragmentation.go:92-94 | a bundle that comes back whole fits exactly if its own primary block makes up for no more than the spare bytes |
| `MtuBound.FragmentsFitIff` | dtnd7-go/pkg/bpv7/fragmentation.go:19-97 | for every valid bundle that can be written and every MTU, all bundles returned are written in at most `mtu` bytes exactly under a condition on sizes known before the call |
| `MtuBound.FragmentsFitMtu` | dtnd7-go/pkg/bpv7/fragmentation.go:19-97 | whatever the MTU, every bundle returned is written in at most `mtu` bytes if the checksums make up for what renumbering adds and for a fragment's own wide offset and length; and can be written if the bundle can |
| `MtuBound.NumberedFromTwoIsCovered` | dtnd7-go/pkg/bpv7/bundle.go:189-222 | bundles that are no fragments and have distinct block numbers of at least 2 always meet that condition |
| `MtuOverruns.LowNumbersOverrun` | dtnd7-go/pkg/bpv7/fragmentation.go:123-183 | a valid bundle with 23 blocks numbered from 0: its first fragment takes 1001 bytes for an MTU of 1000 |
| `MtuOverruns.WideFragmentOverrun` | dtnd7-go/pkg/bpv7/fragmentation.go:100-119 | a valid fragment with a wide offset and length comes back whole and takes 60 bytes for an MTU of 45 |
| `Reassembly.PrepareReassembly` | dtnd7-go/pkg/bpv7/fragmentation.go:186-213 | the slice is sorted in place, no fragment lost or added, and the verdict is the gap check's |
| `Reassembly.MergePayload` | dtnd7-go/pkg/bpv7/fragmentation.go:222-238 | the loop computes the recursive merge, a slice out of range included |
| `Reassembly.ReassembleFragments` | dtnd7-go/pkg/bpv7/fragmentation.go:241-273 | the slice is sorted in place and the result is that of reassembling the sorted slice |
| `Reassembly.MergeRestoresPayload` | dtnd7-go/pkg/bpv7/fragmentation.go:186-238 | for overlapping slices of one payload that pass the gap check: the merge stays in range exactly if end offsets never go backwards, and then returns the payload |
| `Reassembly.ReassembledFromFirst` | dtnd7-go/pkg/bpv7/fragmentation.go:241-273 | of whatever fragments: the primary block of the first sorted one without its fragment fields, its payload flags and checksum type, and its extension blocks numbered from 2 |
| `Arrangements.EveryArrangementReassembles` | dtnd7-go/pkg/bpv7/fragmentation.go:186-238 | an unsorted collection of slices reassembles to the payload whichever way it is sorted exactly if one way passes the gap check and no slice that starts not behind another one ends behind it |
| `Arrangements.CompleteTogether` | dtnd7-go/pkg/bpv7/fragmentation.go:191-213 | without such nesting the gap check does not depend on how ties are sorted |
| `Arrangements.ReassemblesIffCovered` | dtnd7-go/pkg/bpv7/fragmentation.go:186-238 | a collection of slices reassembles to the payload whichever way it is sorted exactly if it is not empty, all are fragments, every byte is in some slice, and none is nested in another |
| `Reassembly.NestedFragmentPanics` | dtnd7-go/pkg/bpv7/fragmentation.go:201-233 | three slices of a payload, one nested in another, that pass the gap check and panic in the merge |
| `Reassembly.PiecesTile` | dtnd7-go/pkg/bpv7/fragmentation.go:41-94 | the pieces of a fragmentation cover the payload, each non-empty, without gap or overlap |
| `Reassembly.CompleteIffAllPieces` | dtnd7-go/pkg/bpv7/fragmentation.go:186-219 | a collection drawn with repetition from the pieces is found complete exactly if every piece occurs |
| `Reassembly.RenumberedStaysValid` | dtnd7-go/pkg/bpv7/bundle.go:289-337 | renumbering the blocks of a valid bundle keeps it valid |
| `Reassembly.ReassemblyUndoesFragmentation` | dtnd7-go/pkg/bpv7/fragmentation.go:241-273 | any arrangement of all pieces, with repetitions, gives payload, primary block and blocks back, renumbered from 2; the very same bundle exactly if it was numbered so |
| `EndToEnd.PieceAsRead` | dtnd7-go/pkg/bpv7/fragmentation.go:41-89 | cutting a bundle and reading it over the wire can change places |
| `EndToEnd.FragmentsSurviveTheWire` | dtnd7-go/pkg/bpv7/fragmentation.go:19-273 | every fragment written, followed by anything, parsed at any time and any number of times but at least once, and put back together in any order: the bundle as a reader sees it, renumbered from 2 |
| `Mtcp.HandleSender` | dtnd7-go/pkg/cla/mtcp/server.go:90-146 | the read loop hands on the bundles of the recursive decoding of the stream |
| `Mtcp.KeepaliveSkipped` | dtnd7-go/pkg/cla/mtcp/client.go:86-89 | a keepalive in front of a stream changes nothing of what the server hands on |
| `Mtcp.Client.Send` | dtnd7-go/pkg/cla/mtcp/client.go:103-151 | the wire always holds whole frames and keepalives only; a bundle that can be written adds its frame, any other leaves the wire alone and closes the client |
| `Mtcp.FrameIsByteString` | dtnd7-go/pkg/cla/mtcp/client.go:103-151 | a frame is one CBOR byte string of the bundle's bytes, followed by an empty one |
| `Mtcp.ServerReceivesWhatWasSent` | dtnd7-go/pkg/cla/mtcp/server.go:108-145 | for every run of frames and keepalives, exactly the bundles sent, in order, and then what the rest of the stream gives; each bundle is checked against its own clock reading |
| `Mtcp.StopsWhereGarbled` | dtnd7-go/pkg/cla/mtcp/server.go:90-146 | where the stream goes on with no frame, or with one that holds no bundle, exactly the bundles in front of it are handed on |
| `Descriptor.RetentionInvariant` | dtnd7-go/pkg/store/bundle_descriptor.go:176-334 | in every reachable state: retained exactly if constrained, dispatchable exactly if not pending for forwarding, deleted only without constraint, marked and not deleted only with one |
| `Descriptor.DeletedStaysDeleted` | dtnd7-go/pkg/store/bundle_descriptor.go:303-334 | no sequence of operations changes a deleted descriptor |
| `Descriptor.NeverDeletesConstrained` | dtnd7-go/pkg/store/bundle_descriptor.go:204-334 | in every run from a new descriptor, the operation that deletes leaves no constraint behind; a plain deletion found none, and any other was the removal of the last one of a marked bundle; nothing changes after |
| `Descriptor.AddPutsLast` | dtnd7-go/pkg/store/bundle_descriptor.go:176-199 | adding puts a known constraint last, keeps all others, and neither deletes nor marks; it fails exactly for a deleted bundle or an unknown constraint |
| `Descriptor.RemoveTakes` | dtnd7-go/pkg/store/bundle_descriptor.go:204-233 | removing takes every occurrence of the constraint and no other, keeps their order, and deletes exactly a marked bundle that has none left |
| `Descriptor.ResetClears` | dtnd7-go/pkg/store/bundle_descriptor.go:238-255 | resetting leaves no constraint and deletes exactly a marked bundle |
| `Descriptor.DeleteMarksOrDeletes` | dtnd7-go/pkg/store/bundle_descriptor.go:303-334 | deleting keeps the constraints; it marks a constrained bundle if asked to, and deletes any other |
| `Descriptor.DeletedExactlyWhen` | dtnd7-go/pkg/store/bundle_descriptor.go:176-334 | in every run an operation deletes a bundle exactly if it leaves no constraint and the bundle was marked or the operation is a deletion |
| `Descriptor.BundleDescriptor.AddConstraint` | dtnd7-go/pkg/store/bundle_descriptor.go:176-199 | update in place of constraints and flags, or an error on a deleted bundle |
| `Descriptor.BundleDescriptor.RemoveConstraint` | dtnd7-go/pkg/store/bundle_descriptor.go:204-233 | the loop in place has the effect that `RemoveTakes` spells out |
| `Descriptor.BundleDescriptor.ResetConstraints` | dtnd7-go/pkg/store/bundle_descriptor.go:238-255 | update in place, deleting a marked bundle |
| `Descriptor.BundleDescriptor.DeleteBundle` | dtnd7-go/pkg/store/bundle_descriptor.go:303-334 | a constrained bundle is marked or left alone, any other deleted |
| `Descriptor.BundleDescriptor.AddKnownHolder` | dtnd7-go/pkg/store/bundle_descriptor.go:148-171 | the holder is appended unless the bundle is deleted |
| `Descriptor.GarbageCollect` | dtnd7-go/pkg/store/store.go:355-368 | exactly the expired bundles without constraint are deleted; every other descriptor keeps its state |
| `Store.BundleStore.InsertBundle` | dtnd7-go/pkg/store/store.go:224-319 | a new bundle gets a descriptor that knows this node and the sender, and when the bundle expires; for a known one only the sender is added; all other descriptors keep their holders |
| `Identity.SameIdIff` | dtnd7-go/pkg/bpv7/bundle.go:258-267 | two bundles share an identifier exactly if source, creation time, sequence number and fragment fields agree |
| `Identity.PiecesStoredApart` | dtnd7-go/pkg/store/store.go:224-248 | the fragments of a bundle never share an identifier with each other or with the bundle |
| `Identity.StoreExpires` | dtnd7-go/pkg/store/store.go:224-239 | with a clock the stored expiry agrees with the lifetime check; without one it counts the lifetime from the year 2000 |
| `Identity.ReceiverKnowsSender` | dtnd7-go/pkg/store/store.go:224-248 | of a bundle that was forwarded, and of what is read of it, the sender recorded is the forwarding node |
| `Routing.FilterPeers` | dtnd7-go/pkg/routing/algorithm.go:93-121 | the two loops keep, in order, the peers not known to hold the bundle, and none for a deleted bundle |
| `Routing.FilterPicks` | dtnd7-go/pkg/routing/algorithm.go:93-121 | the filter keeps each occurrence of exactly the unknown peers, in order |
| `Routing.CandidatesPicks` | dtnd7-go/pkg/routing/algorithm.go:93-121 | the candidates of a live bundle are exactly the unknown peers, in order, and a deleted one has none |
| `Routing.SprayConserves` | dtnd7-go/pkg/routing/spray_and_wait.go:62-175 | copies given and kept add up; binary mode picks at most one peer and halves the copies, leaving at least one on both sides; basic mode selects the first candidates, as many as there are copies, and pays one copy for each |
| `Routing.SprayDistinct` | dtnd7-go/pkg/routing/spray_and_wait.go:62-175 | from different candidates no peer is selected twice |
| `Routing.EveryCandidateCanBeChosen` | dtnd7-go/pkg/routing/spray_and_wait.go:122-175 | in binary mode the random choice can fall on every candidate |
| `SprayNetwork.NotifyTotal` | dtnd7-go/pkg/routing/spray_and_wait.go:38-60 | telling a router of a bundle, its own or a received one, moves the copies that came with it into the counter, and loses those counted before |
| `Routing.SprayAndWait.SelectPeersForForwarding` | dtnd7-go/pkg/routing/spray_and_wait.go:62-175 | selection and stored counter, updated in place, are those that `SprayConserves` and the network bounds are about |
| `Routing.ForwardToPeers` | dtnd7-go/pkg/processing/processing.go:119-144 | exactly the peers whose transmission succeeded become known holders |
| `Routing.SucceededPicks` | dtnd7-go/pkg/processing/processing.go:119-144 | the new holders are exactly the peers at the positions of the successful transmissions, in order |
| `Routing.ForwardingKeepsBundle` | dtnd7-go/pkg/processing/processing.go:28-55 | setting the forwarding constraint first means that dropping the dispatch constraint cannot delete a bundle |
| `Routing.AfterForwarding` | dtnd7-go/pkg/processing/processing.go:28-116 | after a pass neither of its two constraints is left; with a selected peer all others are, in order, and without one none is; the bundle is deleted exactly if it was marked and has none left |
| `Routing.ForwardEpidemic` | dtnd7-go/pkg/processing/processing.go:28-116 | a whole pass: retention state and known holders afterwards, for deleted bundles, no peers, and any outcome of the transmissions |
| `SprayNetwork.BinarySprayBound` | dtnd7-go/pkg/routing/spray_and_wait.go:122-175 | in every state of every run: copies held, being stored and in flight never exceed the configured number, and as many again for each selection before a counter was stored; each share is at least one, so that many are the holders, arrivals and transmissions at most |
| `SprayNetwork.EarlyBound` | dtnd7-go/pkg/routing/spray_and_wait.go:64-69 | over every run each node selects before its counter was stored at most once |
| `SprayNetwork.SelectConservesIffCounted` | dtnd7-go/pkg/routing/spray_and_wait.go:64-69 | without loss a selection keeps the total exactly if the node's counter was stored, and otherwise adds the configured number |
| `SprayNetwork.EarlySelectDoublesCopies` | dtnd7-go/pkg/processing/reception.go:12-34 | four steps from the start, the last one between storing and notifying, that double the copies in binary mode |
| `SprayNetwork.InsertConserves` | dtnd7-go/pkg/processing/reception.go:12-34 | storing an arriving bundle keeps the total |
| `SprayNetwork.BasicSprayBound` | dtnd7-go/pkg/routing/spray_and_wait.go:62-117 | over every run the counters left and all selections never exceed the configured number, and as many again for each selection before a counter was stored |
| `SprayNetwork.OnlySourceSelects` | dtnd7-go/pkg/routing/spray_and_wait.go:93-117 | while there was no such selection only the source selects, and its counter, once stored, and all selections add up to the configured number |
| `SprayNetwork.NoPeerTwice` | dtnd7-go/pkg/routing/spray_and_wait.go:62-175 | over every run, in both modes, no node has the same peer acknowledge the bundle twice, and every peer that did is a known holder |
| `SprayNetwork.SelectedOnce` | dtnd7-go/pkg/routing/spray_and_wait.go:62-175 | in runs where all transmissions are acknowledged no node selects a peer twice |
| `SprayNetwork.KnownIffTold` | dtnd7-go/pkg/processing/processing.go:119-144 | over every run a node lists as holders exactly itself, the peers that acknowledged the bundle, and those it got it from |
| `SprayNetwork.RelaySelectsIffEarly` | dtnd7-go/pkg/routing/spray_and_wait.go:64-75 | in basic mode a relay with a peer to select selects one exactly if its counter has not been stored |
| `SprayNetwork.EarlyRelaySelects` | dtnd7-go/pkg/processing/reception.go:12-34 | the same four steps make a relay select in basic mode |
| `EpidemicNetwork.KnownHoldersHold` | dtnd7-go/pkg/processing/processing.go:119-144 | in every state of every run each recorded holder has the bundle or has it in flight towards it |
| `EpidemicNetwork.KnownIffTold` | dtnd7-go/pkg/processing/processing.go:119-144 | over every run a node lists as holders exactly itself, the peers it sent the bundle to with success, and those it got it from |
| `EpidemicNetwork.TransmissionBound` | dtnd7-go/pkg/routing/algorithm.go:93-121 | over every run among n nodes at most n(n-1) transmissions succeed |
| `EpidemicNetwork.FloodingReachesAll` | dtnd7-go/pkg/routing/epidemic.go:34-41 | in every quiescent state each node connected to the source has the bundle |
| `ClaRegistry.Manager.CheckPresent` | dtnd7-go/pkg/cla/cla_manager.go:127-157 | an adaptor is present if its address is pending, or in a list it would join |
| `ClaRegistry.Manager.Register` | dtnd7-go/pkg/cla/cla_manager.go:179-195 | an activation starts, and the adaptor becomes pending, exactly if it was not present |
| `ClaRegistry.Manager.FinishActivation` | dtnd7-go/pkg/cla/cla_manager.go:197-235 | the adaptor stops being pending and, on success, joins its lists |
| `ClaRegistry.Manager.BeginDisconnect` | dtnd7-go/pkg/cla/cla_manager.go:253-270 | only the first of several callers for an address goes on |
| `ClaRegistry.Manager.FinishDisconnect` | dtnd7-go/pkg/cla/cla_manager.go:270-306 | the update in place is the step that `DisconnectRemoves` is about |
| `ClaRegistry.RegistryInvariant` | dtnd7-go/pkg/cla/cla_manager.go:127-306 | in every interleaving: no address twice among pending, senders or receivers; a pending adaptor is in no list it will join; pending entries are the running activations; removals are the disconnects under way |
| `ClaRegistry.RegistrationStarts` | dtnd7-go/pkg/cla/cla_manager.go:127-195 | an adaptor whose address is in no list it would join becomes pending, last, and its activation starts; any other registration changes nothing |
| `ClaRegistry.ActivationJoins` | dtnd7-go/pkg/cla/cla_manager.go:197-235 | a finished activation takes exactly its entry out of those pending, and puts the adaptor last in each list of its kind exactly if it succeeded |
| `ClaRegistry.DisconnectStartsOnce` | dtnd7-go/pkg/cla/cla_manager.go:253-270 | of several disconnects of an address only the first goes on, and none changes a list |
| `ClaRegistry.DisconnectRemoves` | dtnd7-go/pkg/cla/cla_manager.go:270-306 | a disconnect takes exactly the entries with its address out of the lists of its kind, changes no other list, and ends the removal of that address only |
| `ClaRegistry.DisconnectKeepsOrder` | dtnd7-go/pkg/cla/cla_manager.go:270-306 | in every reachable state that is one entry, and the others keep their order |
| `ClaRegistry.ReconnectAfterDisconnect` | dtnd7-go/pkg/cla/cla_manager.go:79-306 | after its disconnect an adaptor can register and be active again |
| `ClaRegistry.ShutdownEmpties` | dtnd7-go/pkg/cla/cla_manager.go:79-99 | shutting down empties both lists and leaves pending and running activations alone |
| `Hrw.RankNodes` | rec/dtn/placement/hrw.py:58-79 | the table holds each node once, in order of first occurrence, with its weight |
| `Hrw.WeightsTellApart` | rec/dtn/placement/hrw.py:35-55 | under a hash without collisions weights differ for different nodes, and for different keys |
| `Hrw.InjectiveIsDistinct` | rec/dtn/placement/hrw.py:35-55 | under a hash without collisions the theorems that need distinct weights hold for every key and list of nodes |
| `Hrw.SharedWeight` | rec/dtn/placement/hrw.py:35-55 | whatever the hash, two different pairs of key and node that share a weight |
| `Hrw.DedupPicks` | rec/dtn/placement/hrw.py:58-79 | of a repeated node exactly the first occurrence counts, in order |
| `Hrw.TiesKeepOrder` | rec/dtn/placement/hrw.py:82-121 | nodes of equal weight are ranked in the order in which they first occur |
| `Hrw.Select` | rec/dtn/placement/hrw.py:82-121 | sorting the table by descending weight and slicing gives the selection the theorems are about |
| `Hrw.SelectedIffFewHeavier` | rec/dtn/placement/hrw.py:82-121 | a node is selected exactly if fewer than k nodes weigh more |
| `Hrw.SelectionSize` | rec/dtn/placement/hrw.py:82-121 | as many different nodes are selected as asked for, or all there are |
| `Hrw.SelectionIgnoresOrder` | rec/dtn/placement/hrw.py:82-121 | the selection depends on the set of nodes only |
| `Hrw.RankingWithout` | rec/dtn/placement/hrw.py:82-121 | taking a node away takes it out of the ranking and moves nothing else |
| `Hrw.RemovalIsMinimal` | rec/dtn/placement/hrw.py:82-121 | removing an unselected node changes nothing; removing a selected one brings in the next-ranked node only |
| `Hrw.AdditionIsMinimal` | rec/dtn/placement/hrw.py:82-121 | a new node is inserted or not, and then at most the last one selected goes |
| `Hrw.ChangesReplaceFew` | rec/dtn/placement/mapper.py:58-67 | after m membership changes at most m members of the selection are new |
| `Hrw.HeartbeatKeepsPlacement` | rec/dtn/placement/mapper.py:38-67 | a heartbeat of an active node moves no data |
| `Hrw.HeartbeatEntry` | rec/dtn/placement/membership.py:57-69 | a heartbeat changes the entry of its node only, and nodes keep one entry each |
| `Hrw.HeartbeatOrder` | rec/dtn/placement/membership.py:57-69 | a known node keeps its place in the table, and a new one comes last |
| `Hrw.ActiveMembers` | rec/dtn/placement/membership.py:71-107 | the list of active nodes holds exactly those that pass the single check |
| `Hrw.ActivePicks` | rec/dtn/placement/membership.py:91-107 | these are, in order, exactly the entries heard from within the timeout |
| `Hrw.Membership.RecordHeartbeat` | rec/dtn/placement/membership.py:57-69 | the update in place of the table of heartbeats |
| `Hrw.Membership.ActiveNodes` | rec/dtn/placement/membership.py:91-107 | the loop lists the active nodes in table order |
| `Hrw.Membership.RemoveNode` | rec/dtn/placement/membership.py:109-121 | exactly the entry of the node goes |
| `Hrw.DatastoreMapper.Map` | rec/dtn/placement/mapper.py:38-67 | the mapper selects among the active nodes |
| `Hrw.MapperSelects` | rec/dtn/placement/mapper.py:38-67 | a node gets the data of a name exactly if it is active and fewer than k active nodes weigh more for that name |
| `Datastore.DataCache.Put` | rec/dtn/datastore.py:33-43 | update in place, evicting the oldest entry only for a new key in a full cache |
| `Datastore.DataCache.Drop` | rec/dtn/datastore.py:45-49 | exactly the entry of the key goes |
| `Datastore.CachePutLookup` | rec/dtn/datastore.py:33-43 | after storing, the key has the new value and every other key its old one, except the oldest of a full cache when the key is new |
| `Datastore.InvalidateLookup` | rec/dtn/datastore.py:45-49 | after dropping a key it is gone and every other key has its value |
| `Datastore.Datastore.HandlePut` | rec/dtn/datastore.py:111-150 | success exactly for a new, non-empty name; then the data is stored and the name's cache entry dropped, and otherwise nothing changes |
| `Datastore.Datastore.LoadData` | rec/dtn/storage.py:98-139 | the loop finds the matching names in insertion order |
| `Datastore.LoadPicks` | rec/dtn/storage.py:98-139 | loading gives exactly the pairs whose names start with the key, in the order stored |
| `Datastore.Datastore.HandleGet` | rec/dtn/datastore.py:150-189 | answer and cache afterwards: the cached answer, or the loaded one, which is cached unless empty |
| `Datastore.GetIsRepeatable` | rec/dtn/datastore.py:150-189 | every non-empty answer is cached and nothing else is; asking again gives the same answer and changes nothing |
| `Datastore.StorageIsDirectory` | rec/dtn/storage.py:63-96 | after every run the deduplicated storage holds each name with the payload first stored under it, exactly if no two of those payloads share a digest |
| `Datastore.DirectoryIsFirstPut` | rec/dtn/storage.py:63-96 | a name and payload are listed exactly if the first PUT of the name had that payload |
| `Datastore.CachedAnswer` | rec/dtn/datastore.py:111-189 | over every run an answer is an insertion-order prefix of the storage's own, and all of it exactly unless the key is cached and a longer matching name was stored since |
| `Datastore.StaleAnswer` | rec/dtn/datastore.py:111-189 | a run of two PUTs and a GET after which the cached answer misses the longer name |
| `Datastore.AnswersAreFirstPuts` | rec/dtn/datastore.py:111-189 | every pair in an answer is a matching name with the payload of its first PUT |
| `Datastore.CacheStaysBounded` | rec/dtn/datastore.py:33-43 | over every run the cache stays within its limit, or within one entry for a limit of 0 |
| `Datastore.LimitHoldsIffPositive` | rec/dtn/datastore.py:33-43 | the limit holds over all runs exactly if it is at least 1 |
| `Association.Node.HandleDiscovery` | rec/dtn/node.py:240-276 | update in place of the pending and associated broker, and the reply |
| `Association.Broker.HandleDiscovery` | rec/dtn/broker.py:240-277 | update in place of the discovered nodes, and the reply |
| `Association.AssociatedOnlyIfListed` | rec/dtn/node.py:240-276 | over every run with lost, repeated and reordered messages: never both a pending and an associated broker, and associated only with a broker that lists the node under its type |
| `Association.BrokerNeverChanges` | rec/dtn/node.py:240-276 | once associated, a node keeps its broker |
| `Association.ListedIffHeard` | rec/dtn/broker.py:240-277 | over every run a broker lists exactly those it has received a typed request or another broker's announcement from |
| `Association.PendingUntilAcked` | rec/dtn/node.py:240-276 | a pending broker stays so until its acknowledgement arrives, which associates the node with it |
| `Association.CanAssociate` | rec/dtn/node.py:240-276 | from every state of every run a node that is not associated can be: with its pending broker, or without one with any broker, which then lists it |

## Left out

- QUICL, peer discovery, application agents, the client, `rec/rest`, WASM execution and configuration: they wrap libraries and sockets.
- Database, file system and goroutine failures in the store: inserts, loads and deletes are atomic and succeed. The exit of `forwardingAsync` on a failed load keeps the forwarding constraint, and no progress is claimed.
- Two selections for one bundle at one node at the same time, and forwarding with spray-and-wait as one method: the network model takes them as one step.
- The text form of bundle identifiers, the identifier keeper, status reports and administrative records.
- Signature, PRoPHET and DTLSR blocks and JSON forms: to the model they are generic blocks or none.
- A dtn:none endpoint that carries node or demux text: no constructor makes one.
- Broker scheduling of jobs and data, mailbox delivery, `Storage.find_missing`, `Storage.copy_to_file` and `Storage._cleanup`; blobs are taken never to vanish.
- Iteration over dispatchable bundles in `DispatchPending`: it would only repeat the forwarding pass.
- Reassembly.PrepareReassembly: its in-place sort is an insertion sort and not the library's; the theorems hold for every sorted permutation.
- Endpoint.EidRoundTrip: endpoint texts longer than 2^50 bytes per part are outside the types.
- PartialParse.ReadWanted: a skip of 2^63 bytes or more by a seekable reader, which the code takes for a seek backwards, is an error; on such streams the full parser fails.
- Reassembly.ReassembleFragments: merged payloads of more than 2^53 bytes are an error, where the code would go on.
- MtuBound.FragmentsFitMtu: its condition is sufficient for every MTU; `MtuBound.FragmentsFitIff` has the exact one, for a given MTU.
- Reassembly.ReassemblyUndoesFragmentation: requires that no extension block is of the payload type, which the parser never returns there.
- Hrw.SelectionIgnoresOrder: requires distinct weights; with equal weights the order of the nodes decides.
- Datastore.AnswersAreFirstPuts: requires payloads stored under different digests, as the code takes SHA-1 to be injective.
- SprayNetwork.NoPeerTwice: requires that no list of connected peers names one twice; two adaptors to one peer are outside the network model, as in `EpidemicNetwork`.
- Sealing.ReadBlockIsSealed: requires a checksum type other than none; a six-element block of type none is read with an empty checksum, which covers nothing.
- Lifetime.ExpiresByClock: requires that nothing overflows; `Lifetime.DeadlineExactIff` is the exact condition.
- Pieces.PiecesKeepBundle: is about two or more fragments, since a single piece is the bundle itself, and about extension blocks that are not of the payload type.
- Mtcp.FrameIsByteString: is about bundles of at most 2^53 bytes.
- Hrw.MapperSelects: requires distinct weights among the active nodes.
