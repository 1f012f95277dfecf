# Identity and interchange cores of SMYSL, proved in Dafny

SMYSL names everything by a hash of bytes: a unit, a relation, a schema chain, a store. Two
implementations agree on an identity only if they agree on the bytes, and a reader may trust an
identity only if different things never share them. This project models the parts of the
repository that this rests on, in the form the source gives them, and proves what the format
promises of them.

- **The hash** (`Blake3Tree`, `Blake3`, `Blake3Shown`). `Blake3Tree` is BLAKE3 as a recursive function of the whole
  input: sections 2.1, 2.4, 2.5, 2.6 and 5.1.2 of the BLAKE3 specification. `Blake3` is the incremental
  hasher of `go/blake3.go` as two classes whose fields change in place: a block held back inside a
  chunk, above a stack merged like the carries of a binary counter. For every input and every way of
  cutting it into updates, the digest is the tree hash. The compression function is a parameter, so
  this holds whatever it computes. `Blake3Shown` puts in compressions that return what they are given,
  and says in plain bytes and numbers what then stands in the digest.
- **The codec** (`CborHead`, `Floats`, `Sorting`, `CborSpec`, `CborRoundTrip`, `CborShown`, `CborStops`, `CborGo`).
  The strict deterministic CBOR (sections 3 and 4.2.1 of RFC 8949, with the format's own rules). What
  the decoder reads at a position and what the encoder writes are functions, with whole numbers of any
  size as in Python; they are exact inverses, both ways round. The Go decoder and encoder are classes
  that walk and append to byte slices, proved against those functions. Go's wrapping of large negative
  numbers is stated exactly, and so is where its decoder ends the program instead of refusing.
- **What is built on it** (`Records`, `ByteSets`, `IntMaps`, `Units`, `UnitIdentity`, `Schema`,
  `Identities`, `IdentityText`). Store framing without an envelope, canonical sets, the hand-written
  map encoder, unit cores and exactly when two of them have the same bytes, lens steps and their
  chain hash, the other identities, and their base32 text.
- **Proposition classes** (`Propositions`, `Components`). The graph of live same-as edges, the
  normative greedy partition into cliques, and connected components with their diameters.
- **Dates** (`Text`, `Edtf`, `EdtfRoundTrip`, `EdtfReading`, `Calendar`, `EdtfShown`). The parser and
  printer of ISO 8601-2:2019 levels 0 and 1, inverse to each other; and, character by character, all
  texts that are accepted and what each is read as. Full dates are held against the calendar's own
  arithmetic: the number of a day, counted through.
- **Packing** (`PackModel`, `PackClosure`, `PackBound`, `PackSearch`, `PackExact`, `PackBest`,
  `PackSupports`, `PackGap`). The worklist that closes a selection, the fractional bound, the branch and
  bound over them, and the oracle it is held against: mixed-radix enumeration of every level
  assignment. Where nothing is to be gained for nothing the two agree. The last three modules say
  exactly when what the packer promises of its results is kept.

`Bytes` and `Numbers` hold shared facts about byte order, big-endian numbers and powers of two.

`dafny verify dfyconfig.toml` checks the whole project.

## Where the code and its promises part

- `crates/smysl-core/src/edtf.rs:32-35` promises one spelling for each value. A minus sign before a
  year of zeros or masks (`-0000`, `-00XX`, `-XXXX`) is accepted and dropped.
  `EdtfRoundTrip.PrintsBack` says exactly when the promise holds, `EdtfReading.TwoSpellingsOfZero` is
  a text for which it does not.
- `crates/smysl-core/src/edtf.rs:296` answers with a value or an error. `plain_year` cuts its text at a
  byte position (line 466), and the program stops when that lies inside a character, as for `XéX`
  with its two-byte letter. `EdtfReading.PanicsExactly` says when, `EdtfReading.PanicsInsideLetter` is that text.
- `go/cbor.go:271` says that a decoded record re-encodes to its own bytes. Negative numbers below the
  range of an `int64` come back as other numbers (`go/cbor.go:139`). `CborGo.GoReEncode` says exactly
  when the promise holds, `CborGo.GoReEncodeFails` is an input for which it does not.
- Bytes that the format refuses end the Go program instead when a head announces too much: the end of
  a string wraps in the addition of `go/cbor.go:54`, and room for all items or entries is asked for
  before any is read (lines 161 and 206). `CborStops.StopsExactly` says that it happens at the first
  head that announces too much, and how far the input has been read by then,
  `CborStops.AcceptedNeverStops` that nothing well formed does, and `CborStops.WrappedLengthStops`,
  `AnnouncedItemsStop` and `AnnouncedEntriesStop` are nine bytes each for which it happens.
- The first byte hashed for a contention is its kind, and kind 3, a commitment fork
  (`crates/smysl-core/src/types/annex.rs:32`), has the byte that `go/uid.go:439` puts before a
  relation. `Identities.ContentionIsRelation` says when the two hash the same bytes,
  `Identities.ForkIsRelation` is a family of such pairs; `Identities.DetectedForkIsNot` says that a
  fork as it is detected, with one position, never makes one.
- `crates/smysl-pack/src/exact.rs:13-14` calls the bound sound. It leaves out what costs nothing
  (`crates/smysl-pack/src/bound.rs:73`), so it is sound exactly when nothing is gained for nothing
  (`PackBound.CeilingExactly`), and that is also exactly when a proven result is always the best
  (`PackBest.RightExactly`). The bundled estimator sees to that for units that validate
  (`PackBound.PaidTexts`); with a caller's counter that gives zero, a result is called proven and is not
  the best (`PackBest.FreeBodyMissed`).
- The exact search closes selections without the support edges of the request
  (`crates/smysl-pack/src/exact.rs:170`, `crates/smysl-pack/src/closure.rs:22-24`), which the greedy
  packer before it does keep to. `PackSupports.SupportMissed` is a request whose proven result breaks
  C8; `PackSupports.SupportedExactly` says that results keep C8 exactly when the other links bring every
  support (`PackSupports.SelectionsExactly` says the same of selections), or nothing costs anything.
- `crates/smysl-pack/src/bound.rs:125` says that a gap of zero means proven optimal, and
  `crates/smysl-pack/src/solve.rs:176-179` relies on it. A search that was cut short or declined reports
  zero as well when the budget is spent, where the bound does not look (`crates/smysl-pack/src/bound.rs:50`),
  and when rounding to 1/1024 hides what is left to gain. `PackGap.ZeroGapExactly` says that of such
  results a gap of zero means the best exactly where budget is left over and the bound is zero before
  rounding; `PackGap.SpentIsNotBest` and `PackGap.FaintIsNotBest` are inputs for the other two cases.

## Model

| member | source | states |
|---|---|---|
| Blake3.ChunkState.Update | go/blake3.go:156-172 | Whatever is fed in, the chunk's block, count and chaining value stay what section 2.4 gives for all bytes absorbed so far; the last block is held back even when full. |
| Blake3.ChunkState.Output | go/blake3.go:174-184 | For any splits of at most one chunk, the output is the fold over 64-byte blocks with CHUNK_START on the first, CHUNK_END on the last, zero padding and the last block's true length. |
| Blake3.Hasher.constructor | go/blake3.go:201-205 | A new hasher is valid and has absorbed nothing. |
| Blake3.Hasher.Push | go/blake3.go:209-217 | From the stack of `n - 1` completed chunks to that of `n`, for every `n`: the loop ends and never takes from an empty stack. |
| Blake3.Hasher.NextChunk | go/blake3.go:221-226 | A full chunk becomes its chaining value on the stack and a fresh chunk with the next counter; the input absorbed is unchanged. |
| Blake3.Hasher.Absorb | go/blake3.go:227-231 | The part of an update that fits the current chunk, appended to what was absorbed. |
| Blake3.Hasher.Update | go/blake3.go:219-235 | Every update appends exactly its bytes and keeps the invariant that ties every field to all bytes absorbed. |
| Blake3.Hasher.Digest | go/blake3.go:237-243 | The digest of any length is the recursive tree hash of everything absorbed (which `Blake3Shown` pins byte by byte); the hasher is not changed. |
| Blake3.SplitsDoNotMatter | go/blake3.go:219-243 | Hashers that absorbed the same bytes, however cut, hold the same stack, chunk counter, block and chaining value. |
| Blake3.StackOfHasher | go/blake3.go:207-217 | In every valid state there is one stack entry per set bit of the completed-chunk count, and it is the chaining value of the perfect subtree over exactly the chunks that bit covers. |
| Blake3.RootBytes | go/blake3.go:122-133 | One compression per 64 bytes, with the output counter and ROOT, cut to length; the order of the bytes in a word is that of `Blake3Shown.ChunkShown`. |
| Blake3.Hash32 | go/blake3.go:246-248 | The hash of a byte string is the first 32 bytes of its tree hash. |
| Blake3Tree.LeftChunks | go/blake3.go:207-217 | The left subtree's size is a power of two below the chunk count and at least half of it. |
| Blake3Tree.LeftChunksUnique | go/blake3.go:207-217 | There is only one such size, so the shape of the tree is decided by the length. |
| Blake3Tree.CarryMerges | go/blake3.go:210-215 | One turn of the merge loop: the top entry and the subtree after it are the subtree of twice the size. |
| Blake3Tree.SubtreeMerges | go/blake3.go:186-217 | The parent node of two perfect subtrees side by side is the perfect subtree over both. |
| Blake3Tree.FoldIsTree | go/blake3.go:237-242 | Folding the stack of any number of completed chunks over the last chunk, top entry first, gives the recursive tree over everything. |
| Blake3Tree.StackExtends | go/blake3.go:219-235 | Bytes that arrive later leave the entries already on the stack as they are. |
| Blake3Tree.StackEntry | go/blake3.go:207-217 | Which subtree, of how many chunks, starting where, the entry of each set bit is. |
| Blake3Tree.HashPrefix | go/blake3.go:122-133 | A shorter digest is a prefix of a longer one. |
| Blake3Shown.ChunkShown | go/blake3.go:113-133 | With a compression that returns its block, the digest of up to 1024 bytes, at any place of any length, is the last block of them in input order, zeros after its end, over and over. |
| Blake3Shown.HalvesShown | go/blake3.go:186-243 | With the same one, the digest of more than one chunk, of any size, is the first 32 bytes of the left half's first chunk's last block and then those of the right half's, the halves parting at the power of two below. |
| Blake3Shown.ChunkCallShown | go/blake3.go:113-184 | With a compression that returns its call as numbers, the digest of at most one chunk reads back, for each output block, the block's number, the true length of the last block, and flags 8 for root, 2 for end, 1 for start and nothing else; and the key where there is only one block. |
| Blake3Shown.ParentCallShown | go/blake3.go:113-205 | Over one chunk, it reads back the output block's number, length 64, flags 8 for root and 4 for parent, and the key. |
| Blake3Shown.ChildrenShown | go/blake3.go:156-243 | With a compression that returns the block of a parent and the call of a chunk, the digest of more than one chunk of any size reads back the chunk numbers 0 and that of the first on the right, the lengths of their last blocks, and their flags. |
| CborHead.HeadRead | go/cbor.go:68-123 | Every head the encoder writes is read back: major type, argument and length, with anything after it. |
| CborHead.HeadWritten | go/cbor.go:276-292 | Every head that is accepted (outside major type 7) is the shortest one for its argument. |
| CborHead.HeadOrder | go/uid.go:157-173 | Bytewise order of shortest heads is numeric order, over all 64-bit arguments, and equal bytes mean equal numbers. |
| CborShown.HeadShown | go/cbor.go:276-292 | The heads written, byte by byte: below 24 in the first byte, below 2^8, 2^16, 2^32 and 2^64 in one, two, four and eight more after 24 to 27, greatest byte first. |
| Floats.GridBits | go/cbor.go:239-248 | The test "finite and a multiple of 1/1024" on the real value, as a test on exponent and significand; `GridExactly` has it on the bits. |
| Floats.GridExactly | go/cbor.go:239-248 | On the 32 bits alone: with `e` bits 23 to 30 and `f` the 23 below, accepted exactly when both are zero, or `e` is 140 to 254, or `e` is 117 to 139 and `f` is divisible by 2^(140 - e). |
| CborShown.FloatShown | go/cbor.go:236-250 | The same on the four bytes after the head, for the decoder of items. |
| CborShown.NestingShown | go/cbor.go:126-129 | A number inside `n` arrays is read exactly when `n` is at most 128. |
| Sorting.SortStable | go/cbor.go:338-342 | The sort is stable: for every key, the entries under it keep their order. |
| CborRoundTrip.ReEncode | go/cbor.go:271-355 | Whatever is accepted, at any position of any input, re-encodes to exactly the bytes it was read from, and is canonical, in range and well formed. |
| CborRoundTrip.DecodeEncode | go/cbor.go:126-253 | An encoding, whatever follows it, is accepted if and only if the value is well formed (nesting at most 128, distinct keys, valid NFC text, floats on the grid); then exactly the encoding is consumed and the value comes back with its maps in key order. |
| CborRoundTrip.DecoderGraph | go/cbor.go:126-253 | The decoder as a relation: it reads `v` from `i` to `j` exactly when those bytes are the encoding of `v` and `v` is canonical and well formed. |
| CborRoundTrip.PrefixFree | go/cbor.go:366-374 | No encoding is a proper prefix of another, whether or not the values are well formed, so items need no separator. |
| CborRoundTrip.EncodeInjective | go/cbor.go:295-355 | Any two values within the range of heads share their bytes exactly when they agree up to the order of map entries. |
| CborRoundTrip.EncodeCanon | go/cbor.go:333-350 | The order in which map entries were inserted, at any depth, does not show in the bytes. |
| CborRoundTrip.SimpleRead | go/cbor.go:230-253 | What is written for a boolean or a float is read as it, or refused as the float check refuses it. |
| CborRoundTrip.ReEncodeSimple | go/cbor.go:230-253 | Whatever is read under major type 7 is one of two booleans or a finite binary32 on the grid, and encodes to the bytes it was read from. |
| CborStops.StopsExactly | go/cbor.go:53-60 | Where the decoder of an item ends the program is how far it has read at the first of the heads it comes to that announces more than a machine integer or the room there is can take; it goes on when none does. |
| CborStops.FirstStopIs | go/cbor.go:53-60 | That place is the end of a head that cannot be held, or its first byte when its own argument cannot, and every head before it can be. |
| CborStops.AcceptedNeverStops | go/cbor.go:126-177 | What the format accepts is read to its end, if there is room for as many things as there are bytes. |
| CborStops.WrappedLengthStops | go/cbor.go:54 | A string head announcing 2^63 - 1 bytes: refused by the format, a stopped program in Go. |
| CborStops.AnnouncedItemsStop | go/cbor.go:161 | An array head announcing 2^64 - 1 items: likewise. |
| CborStops.AnnouncedEntriesStop | go/cbor.go:206 | A map head announcing 2^64 - 1 entries: likewise. |
| CborGo.GoReEncode | go/cbor.go:138-139 | Go's own round trip gives back the bytes exactly when no negative number in what was read lies below the range of an `int64`. |
| CborGo.GoReEncodeFails | go/cbor.go:139 | The least such number comes back as a positive one. |
| CborGo.CompareBytes | go/cbor.go:255-269 | Negative, zero or positive exactly as the first string is below, equal to or above the second in bytewise order. |
| Bytes.LessExactly | go/cbor.go:255-269 | That order by places: at the first one where two strings differ the lower byte is the lesser's, or the lesser ends there. |
| CborGo.Decoder.constructor | go/cbor.go:368 | A new decoder stands at the start of its input. |
| CborGo.Decoder.ReadByte | go/cbor.go:44-51 | The byte at the position and the position after it, or the end of the input. |
| CborGo.Decoder.Take | go/cbor.go:53-60 | The next `n` bytes and the position after them; a refusal when they run past the end; a stopped program exactly when the position after them is past the greatest `int`. |
| CborGo.Decoder.ReadHead | go/cbor.go:68-123 | The head read, the position after it and every refusal are those of the specification; a stopped program exactly when the argument ends past the greatest `int`. |
| CborGo.Decoder.ReadValue | go/cbor.go:126-177 | A stopped program, and how far it has read, exactly where `ValueStop` says; otherwise the specification's value (up to Go's wrapping), end position and refusal, for every input and nesting. |
| CborGo.Decoder.ReadItems | go/cbor.go:160-169 | The loop over an array's items, with room made for all of them first, tied to the recursive reading and to where that stops. |
| CborGo.Decoder.ReadMap | go/cbor.go:205-228 | The loop over a map's entries with the strictly ascending key check, with room made for all of them first, tied to the recursive reading and to where that stops. |
| CborGo.DecodeOne | go/cbor.go:367-374 | One item from the front and how many bytes it took, a refusal, or a stopped program, each exactly when the specification says. |
| CborGo.Encoder.WriteHead | go/cbor.go:276-292 | Appends the shortest head and nothing else. |
| CborGo.Encoder.WriteValue | go/cbor.go:295-355 | Appends exactly the encoding of the value. |
| CborGo.Encoder.WriteItems | go/cbor.go:326-332 | Appends the items of an array one after another. |
| CborGo.Encoder.WriteEntries | go/cbor.go:333-350 | Appends a map's entries in the order of their encoded keys. |
| CborGo.EncodeOne | go/cbor.go:358-364 | The encoding of one value. |
| Records.DecodeRecord | go/records.go:108-129 | One record from the front of the rest of a store, the refusal, or a stopped program. |
| Records.DecodeStore | go/records.go:104-132 | The loop over a store returns what the recursive reading gives, with an offset that strictly grows, or is stopped exactly where `StoreStop` says. |
| Records.EncodeStore | go/records.go:135-145 | Records back to back, each re-encoded. |
| Records.StoreReEncode | go/records.go:71-73 | For every accepted store, re-encoding its records gives its bytes, and the records' own bytes partition it. |
| Records.StoreDecode | go/records.go:103-132 | A list of records survives encoding and decoding; no envelope is needed to find where each ends. |
| Records.GoStoreReEncode | go/records.go:70-73 | In Go that holds exactly when no body holds a number below an `int64`. |
| Records.RecordStopsExactly | go/records.go:108-129 | A record stops the program at its own head, or else at the first of those inside it that does. |
| Records.StoreStopsExactly | go/records.go:103-132 | A store stops it at the first of its records that does, at that record's place and the place in it. |
| Records.AcceptedStoreNeverStops | go/records.go:103-132 | A store that the format accepts is read to its end. |
| ByteSets.CanonicalSetDecides | go/uid.go:192-216 | The sorted, repeat-free form is the same for two lists exactly when they have the same elements. |
| ByteSets.CanonicalSetExactly | go/uid.go:192-216 | The canonical list holds the elements given, each below every later one in that order. |
| ByteSets.SetBytesDecide | go/uid.go:447-468 | For 32-byte items, uid sets, contention preimages and record-set preimages are each the same bytes exactly for the same set. |
| ByteSets.EncodeUidSet | go/uid.go:196-216 | The encoding of the canonical set, refused exactly when an element is not 32 bytes. |
| ByteSets.ContentionDigest | go/uid.go:450-465 | The hash of kind byte, subject and canonical positions, whatever order the set is walked in. |
| ByteSets.RecordSetDigest | go/export.go:28-44 | The hash of tag and canonical record hashes, whatever order the map is walked in. |
| ByteSets.UidSetNormal | go/uid.go:192-216 | A uid set is a canonical well-formed item, so the strict decoder accepts it. |
| IntMaps.EncodeMap | go/uid.go:225-238 | The sorted map, refused exactly when a key is repeated. |
| IntMaps.IntMapIsEncode | go/uid.go:223-238 | The integer-sorted map of the hand-written encoder and the map sorted by encoded keys are the same bytes, whatever order entries were inserted in; repeated keys are the only refusal. |
| IntMaps.FieldsDecide | go/uid.go:223-238 | Two integer-keyed maps without repeated keys share their bytes exactly when every key has the same canonical value. |
| Units.Trimmed | go/uid.go:398-407 | The slice of the text between the white space before and after it, with none at its own ends; empty exactly when the text is blank. |
| Units.Validate | go/uid.go:273-324 | Well formed exactly when the literal clauses of `ValidatesExactly` hold. |
| Units.ValidatesExactly | go/uid.go:273-324 | By the numbers: status 0 and all above 5 refused, 1 asks for nothing, 2 and 3 for a ground, 4 and 5 for a source; a schema, a gist that is not blank, no detail without a body, a span of two numbers that goes up and only beside a manifest, a manifest of 32 bytes, extra keys from 10. |
| Units.EncodeText | go/uid.go:181-184 | The encoding of the normalised text. |
| Units.EncodeBytes | go/uid.go:186-188 | The encoding of a byte string. |
| Units.EncodeUint | go/uid.go:190 | The encoding of an unsigned number. |
| Units.EncodeSource | go/uid.go:240-264 | The encoding of the source's map, its fields laid down in the code's order and written in key order; it never refuses. |
| Units.OpeningEntries | go/uid.go:336-360 | The entries up to the uid sets, refused exactly when an element of either is not 32 bytes. |
| Units.ClosingEntries | go/uid.go:361-373 | The entries for source, payload and language, added to those before. |
| Units.CanonicalBytes | go/uid.go:335-381 | The hash input, or a refusal for a uid of the wrong length, an extra item under a kernel key, or a repeated key. |
| Units.Uid | go/uid.go:387-396 | A uid exactly for a unit that meets the literal clauses of `ValidatesExactly` and, as `RefusedExactly` has it, can be encoded; it is 32 bytes, the hash of the canonical bytes. |
| Units.RefusedExactly | go/uid.go:335-396 | No bytes exactly for a dependency or ground of other than 32 bytes, an extra item under a key from 0 to 9, or a key that two extra items share. |
| UnitIdentity.UnitBytes | go/uid.go:326-381 | For every admissible unit the canonical bytes are the general encoding of its fields, and the strict decoder takes exactly them, whatever follows. |
| UnitIdentity.UnitDecoded | go/uid.go:326-381 | The decoder finds under each kernel key what its field amounts to, or nothing; under each unknown key the item carried; and no other key. |
| UnitIdentity.UnitLayout | go/uid.go:336-373 | Which of the ten kernel keys holds which field, when it is there, and as what value. |
| UnitIdentity.SourceLayout | go/uid.go:241-262 | Which of the seven keys of a source holds which field, when it is there, and as what value. |
| UnitIdentity.UnitIdentified | go/uid.go:326-332 | Two admissible units share their bytes exactly when they agree on every field up to NFC, order and repeats in uid sets, and empty meaning absent. |
| UnitIdentity.StatusIsIdentity | go/uid.go:383 | Another status always gives other bytes. |
| Schema.StepsWrittenBack | go/schema.go:330-337 | Law L9: whenever key 5 is read as lens steps, unknown ops included, the steps written back are byte for byte what was read. |
| Schema.GoStepsWrittenBack | go/schema.go:283-284 | In Go the steps written back are the encoding of the decoded value, which is what was read exactly when no number lies below an `int64`. |
| Schema.ReadStep | go/schema.go:252-286 | One step: its shape, revisions that go up, every op read, usable exactly when every op is known, and its bytes. |
| Schema.LookupExactly | go/schema.go:50-66 | The value under a key is that of the first entry with it. |
| Schema.OpExactly | go/schema.go:170-243 | By tag and key numbers: for each of the eight ops the fields it must have, of which type, and the last key it may carry; anything beyond is kept as an op unknown, anything short refused. |
| Schema.StepExactly | go/schema.go:252-286 | A step is read exactly from a map with keys 0, 1 and 2 alone, two numbers below 2^32 of which the second is greater, and ops that are each read. |
| Schema.ReadSteps | go/schema.go:245-289 | The steps of key 5, or a refusal when any one of them is refused. |
| Schema.EncodeLenses | go/schema.go:331-337 | An array head and each step's bytes as received. |
| Schema.ChainHash | go/schema.go:340-349 | The hash of the tag, the id, both revisions and the steps. |
| Schema.ChainPreimageDecides | go/schema.go:339-349 | What is hashed for a chain decides the id, both revisions and, up to the order of map entries, the steps, for any two lens values that steps are read from. |
| Schema.GoChainDecides | go/schema.go:283-349 | In Go two decoded lens values give one preimage exactly when ids and revisions agree and wrapping makes the values one; without numbers below an `int64` they are one already. |
| Schema.ReadLenses | go/schema.go:307-320 | Opaque exactly when key 5 is there and cannot be read, reported once; otherwise one report per unusable step. |
| Identities.RelationId | go/uid.go:429-445 | The hash of a relation's preimage; refused exactly for an end that is not 32 bytes or a kind name with a zero byte. |
| Identities.RelationDecides | go/uid.go:426-445 | A relation's preimage decides its kind name and both ends. |
| Identities.DomainDigest | go/library.go:119-124 | The hash of a domain byte and a preimage. |
| Identities.Tid | go/library.go:126-128 | The hash of byte 0x0f and the normalised text. |
| Identities.Mid | go/library.go:130-132 | The hash of byte 0x0e and the body. |
| Identities.Did | go/library.go:134-136 | The hash of byte 0x11 and the body. |
| Identities.Rdid | go/library.go:138-140 | The hash of byte 0x12 and the body. |
| Identities.KindsApart | go/library.go:24-31 | The bytes hashed for a unit, for a relation and for each library record never coincide with one another. |
| Identities.ContentionIsRelation | go/uid.go:426-465 | Whatever the positions, a contention and a relation hash the same bytes exactly when the kind is 3 and what follows lines up with kind name, zero byte and ends; over a 32-byte uid that takes two canonical positions at least, the last two being the ends. |
| Identities.ForkIsRelation | go/uid.go:438-465 | Every 31-byte name without a zero, and every two uids in order, give such a pair. |
| Identities.DetectedForkIsNot | crates/smysl-graph/src/merge/contention.rs:106-138 | A commitment fork with a single position never hashes the bytes of a relation. |
| Identities.BodyBytes | go/library.go:210-226 | The slice after head and code, refused exactly when the head is not of a pair or the code cannot be read; for any bytes at all. |
| Identities.BodyIsEncoding | go/library.go:210-226 | For a record's own bytes that slice is the encoding of its body. |
| Identities.CanonicalBodyExactly | go/library.go:228-244 | Encoding the decoded body again gives those bytes exactly when no number in it lies below an `int64`. |
| Identities.CutRow | go/library.go:597-602 | The inner loop keeps, in order, the entries under the four tree keys. |
| Identities.CutToTree | go/library.go:585-606 | The table with each row cut to its tree keys, in document order; what is not a table of maps as it stands. |
| Identities.TreeEntriesAre | go/library.go:599-601 | What is left of a row is exactly its entries under keys 0 to 3. |
| Identities.TreeNormal | go/library.go:583-606 | The tree of a decoded table is canonical and well formed again. |
| Identities.TreeDecides | go/library.go:564-577 | What a structure hash is taken over decides the tree of the table, and nothing else does: for any two tables, read or as Go holds them. |
| Identities.ReadTreeDecides | go/library.go:564-577 | For tables as they were read, equal bytes mean equal trees. |
| Identities.StructureHash | go/library.go:571-577 | The hash of the encoding of the tree alone. |
| Identities.ContentionId | go/uid.go:450-468 | The digest and its display form, the first 26 characters after the prefix. |
| IdentityText.WriteText | go/library.go:158-177 | Prefix and base32 characters; refused exactly when the digest is not 32 bytes. |
| IdentityText.ReadDigit | go/library.go:165-173 | Five bits of the digest, most significant first, zeros after the end. |
| IdentityText.LetterIs | go/library.go:145-152 | Five bits are written as `a` to `z` and then `2` to `7`. |
| IdentityText.LetterShown | go/library.go:164-175 | By arithmetic: character `i` is that of the two bytes in which its five bits lie, as one number over a power of two from 16 to 2048, modulo 32. |
| IdentityText.LettersDecide | go/library.go:164-175 | The first `n` characters of two digests agree exactly when their first `5 * n` bits do. |
| IdentityText.TextRead | go/library.go:154-177 | The 52 characters of a 32-byte identity decode back to it bit for bit. |
| IdentityText.TextsDecide | go/library.go:154-157 | 52 characters name one identity; 26 are a prefix of them and fix the first 130 bits and no others. |
| Propositions.Adjacency | scripts/gen-proposition-classes.py:117-131 | Two uids are neighbours exactly when there is an edge between them, either way, both known and different, whose relation is not withdrawn and has as many agents as are asked for, none being needed for zero; the result is an undirected graph without loops. |
| Propositions.EdgeOrderDoesNotMatter | scripts/gen-proposition-classes.py:117-131 | The graph depends on the set of edges only, not on their order or repetition. |
| Propositions.Strict | scripts/gen-proposition-classes.py:134-151 | The greedy loop yields a partition into cliques in which every member of a later class has a smaller non-neighbour in each earlier class. |
| Propositions.StrictUnique | scripts/gen-proposition-classes.py:134-135 | There is only one such partition of a graph: classes, their order and their members. |
| Propositions.FirstFitStrict | scripts/gen-proposition-classes.py:134-151 | Placing vertex by vertex into the first class that fits yields such a partition. |
| Propositions.StrictIsFirstFit | scripts/gen-proposition-classes.py:134-151 | A list of classes is such a partition if and only if it is what vertex-by-vertex first fit gives. |
| Components.Flood | scripts/gen-proposition-classes.py:161-168 | The members found from a start are exactly what it reaches, one reachability class; the loop ends. |
| Components.Depths | scripts/gen-proposition-classes.py:177-184 | Breadth-first depths are shortest-path distances, for exactly the vertices reached. |
| Components.Diameter | scripts/gen-proposition-classes.py:174-186 | The greatest distance between two members: reached by some pair, exceeded by none. |
| Components.Components | scripts/gen-proposition-classes.py:154-171 | Exactly the reachability classes of the vertices with an edge, each once, sorted, by smallest member, with its diameter. |
| Components.ComponentsUnique | scripts/gen-proposition-classes.py:154-171 | There is only one such list for a graph. |
| Components.ReachesEquivalence | scripts/gen-proposition-classes.py:155 | Being reached is an equivalence on an undirected graph. |
| Components.ClassInsideComponent | scripts/gen-proposition-classes.py:134-171 | Every strict class lies inside one component, and two of its members are at most one step apart. |
| EdtfRoundTrip.ParsePrints | crates/smysl-core/src/edtf.rs:296-563 | Whatever is accepted is a valid value, and prints as its own text without the minus sign of a year of zeros. |
| EdtfRoundTrip.PrintsBack | crates/smysl-core/src/edtf.rs:32-35 | An accepted text is printed back if and only if no year of zeros or masks in it has a minus sign. |
| EdtfRoundTrip.OneSpelling | crates/smysl-core/src/edtf.rs:32-35 | Two such texts that are read as one value are one text. |
| EdtfRoundTrip.DatePrints | crates/smysl-core/src/edtf.rs:340-392 | The same for a single date: year, mask, month or season, day, qualifier. |
| EdtfRoundTrip.TimePrints | crates/smysl-core/src/edtf.rs:490-563 | The same for a date and time with its zone. |
| EdtfReading.ReadsBack | crates/smysl-core/src/edtf.rs:586-661 | Every valid value is read back from what it prints as: intervals, qualifiers, masks, long years, seasons and zones. Which values that takes in is `EdtfShown.TextsExactly`. |
| EdtfReading.DateReads | crates/smysl-core/src/edtf.rs:594-610 | The same for a single date. |
| EdtfReading.TimeReads | crates/smysl-core/src/edtf.rs:623-642 | The same for a date and time. |
| EdtfReading.PrintInjective | crates/smysl-core/src/edtf.rs:582-661 | Two values never print alike. |
| EdtfReading.PrintedTexts | crates/smysl-core/src/edtf.rs:296-322 | The texts that valid values print as are exactly those accepted without such a minus sign. |
| EdtfReading.Accepted | crates/smysl-core/src/edtf.rs:296-322 | A text is accepted exactly when, with such signs dropped, it is what a valid value prints as; `EdtfShown.TextsExactly` has the same by characters. |
| EdtfReading.EndAccepted | crates/smysl-core/src/edtf.rs:328-338 | The same for an end of an interval. |
| EdtfReading.FoldedReadsSame | crates/smysl-core/src/edtf.rs:473-488 | Every text and the same text with that sign dropped are read alike: accepted as one value, refused, or not answered. |
| EdtfReading.TwoSpellingsOfZero | crates/smysl-core/src/edtf.rs:477-482 | `-0000` and `0000` are both accepted, as one value. |
| EdtfReading.PanicsExactly | crates/smysl-core/src/edtf.rs:465-466 | The parser stops without an answer exactly when it comes to a four-byte year whose masks, counted from the end, begin inside a character: in the text before its time, in the first half of an interval, or in the second after a first half that a valid end prints as. |
| EdtfReading.AsciiNeverPanics | crates/smysl-core/src/edtf.rs:296-322 | On text of single-byte characters it always answers. |
| EdtfReading.PanicsInsideLetter | crates/smysl-core/src/edtf.rs:466 | Two masks around a two-byte letter are such a text. |
| Calendar.IsDateExactly | crates/smysl-core/src/edtf.rs:565-580 | The days of each month are those that lie, by number, from its first to before the first of the month after; the number of a day is 365 a year, plus quarters, minus hundredths, plus four-hundredths. |
| Calendar.DaysInOrder | crates/smysl-core/src/edtf.rs:565-580 | Dates are in the order of their day numbers. |
| Calendar.EveryDay | crates/smysl-core/src/edtf.rs:565-580 | Every whole number is the day number of a date. |
| Calendar.FourCenturies | crates/smysl-core/src/edtf.rs:578-580 | Four hundred years are 146097 days, from any date on. |
| EdtfShown.FullDateShown | crates/smysl-core/src/edtf.rs:340-392 | Four digits, two and two are accepted exactly when that day, by its number, lies in that month, and are read as the three numbers. |
| EdtfShown.DaysApart | crates/smysl-core/src/edtf.rs:340-392 | Accepted full dates have day numbers in the order of year, month and day; without a sign, no two have one number. |
| EdtfShown.EveryDayAccepted | crates/smysl-core/src/edtf.rs:340-392 | From the first day of the year 0 to the last of 9999, every day number is that of an accepted text. |
| EdtfShown.DateShown | crates/smysl-core/src/edtf.rs:340-488 | Every text with the outline of a date, whatever its digits and masks: accepted exactly when month or season, day, and the day in the month of a known year exist; and the value it is read as. |
| EdtfShown.LongShown | crates/smysl-core/src/edtf.rs:416-447 | `Y`, sign and digits: accepted exactly with five digits or more, no zero in front, within 32 bits; and its value. |
| EdtfShown.TimeShown | crates/smysl-core/src/edtf.rs:490-563 | Every text with the outline of a date and time: accepted exactly for a full unqualified date that exists, hour below 24, minute and second below 60, and an offset below a day that is not `-00:00`; and its value. |
| EdtfShown.IntervalShown | crates/smysl-core/src/edtf.rs:296-338 | Two texts around a slash are read by what each is read as alone, nothing being unknown and two dots open, with a date at one end at least. |
| EdtfShown.TextsExactly | crates/smysl-core/src/edtf.rs:296-322 | Nothing else is accepted: every accepted text has one of these outlines, and by characters it is exactly those. |
| PackClosure.RequiredIs | crates/smysl-pack/src/closure.rs:18-90 | What a unit at a level requires is the least selection that holds it and breaks none of C1 to C4, C6 and C8, which `ClosedExactly` has link by link; but for the unit itself it is gists. |
| PackClosure.Require | crates/smysl-pack/src/closure.rs:33-90 | The worklist loop finds the least selection that holds the unit and keeps every link asked of it, link by link as in `ClosedExactly`, and ends. |
| PackClosure.ClosedExactly | crates/smysl-pack/src/constraints.rs:105-212 | Closed means, link by link: the known `from` of each live rebuttal whose `to` is held; each known position of a contention with a held unit over or among them; and for a unit above its gist its known references and the known `to` of each of its warrant and support links, all held. |
| PackClosure.RequiredKeeps | crates/smysl-pack/src/closure.rs:18-90 | What a unit at a level requires keeps every one of those links, and is least among the selections that hold it and do. |
| PackClosure.RaisedCloses | crates/smysl-pack/src/exact.rs:170-182 | A closed selection raised by what it lacks of a requirement is closed. |
| PackClosure.RaisedLeast | crates/smysl-pack/src/exact.rs:170-182 | It lies below every closed selection that has the unit and what was there before. |
| PackBound.FillPrice | crates/smysl-pack/src/bound.rs:98-121 | Filling by density is the best that can be done in parts: there is a price at which the budget and every item's surplus together come to no more. |
| PackBound.HeadroomCovers | crates/smysl-pack/src/bound.rs:37-121 | With nothing in scope to be gained for nothing, no selection that raises another within the budget is worth more than that other and its bound, whatever the units bring. |
| PackBound.CeilingExactly | crates/smysl-pack/src/bound.rs:37-121 | That holds for all selections and budgets if and only if no upgrade in scope gains something and costs nothing. |
| PackBound.PaidTexts | crates/smysl-pack/src/cost.rs:50-76 | With every text costing something, and no detail without a body, that is so under any cap. |
| PackBound.Fractional | crates/smysl-pack/src/bound.rs:41-121 | The loops over the scope and over the sorted items compute the bound. |
| PackBound.ReachableExactly | crates/smysl-pack/src/cost.rs:202-212 | A unit's levels by its texts and the cap: the gist always, the body where it is written or a capped detail is, the detail where it is written and not capped. |
| PackBound.ItemExactly | crates/smysl-pack/src/bound.rs:55-96 | What a unit adds to the bound: nothing without a raise that gains and costs something, otherwise as much cost as the dearest of those at the density of the densest. |
| PackModel.CostByText | crates/smysl-pack/src/cost.rs:175-222 | A selection costs all its gists, the bodies of what is above its gist and the details of what is at the top. |
| PackModel.WorthByLevel | crates/smysl-core/src/types/epistemics.rs:139-145 | It is worth the salience of its gists, 1.6 times that of its bodies and 1.85 times that of its details. |
| PackSearch.ProvenIsBest | crates/smysl-pack/src/exact.rs:42-44 | With nothing in scope to be gained for nothing and nothing salient outside it: when the search ends by itself, no selection that is closed (support edges apart), holds the floor and fits the budget is worth more than what it found, whatever it started from. |
| PackSearch.ProvenIsGreatest | crates/smysl-pack/src/exact.rs:42-92 | Under the same two conditions and started from a legal selection, what it found is legal, and proven means greatest. |
| PackSearch.LegalKeeps | crates/smysl-pack/src/exact.rs:170-182 | A legal selection keeps every one of those links but the supports. |
| PackSearch.SolvedSound | crates/smysl-pack/src/exact.rs:47-92 | What is found is the incumbent or a legal selection worth more, with its own cost and value; proven exactly when the limit was not passed. |
| PackSearch.SmallIsProven | crates/smysl-pack/src/exact.rs:26-31 | A limit of as many nodes as a tree with four branches at each unit is never passed. |
| PackSearch.MatchesOracle | fuzz/fuzz_targets/pack_exact.rs:108-158 | Under the same two conditions, with every unit in scope, no cap, floor or support edges: where the search is proven, its value is that of the enumeration of every assignment. |
| PackSearch.Search.Descend | crates/smysl-pack/src/exact.rs:95-220 | The recursion with its node count and its best so far, tied to the search as a function. |
| PackSearch.Solve | crates/smysl-pack/src/exact.rs:52-92 | The search from the floor, seeded with the incumbent. |
| PackBest.RightExactly | crates/smysl-pack/src/exact.rs:42-44 | With nothing salient outside the scope: proven means best for every graph, budget, limit, legal floor and incumbent if and only if nothing in scope is to be gained for nothing. |
| PackBest.ScopeExactly | crates/smysl-pack/src/solve.rs:279 | Proven means best for all units under which nothing is gained for nothing if and only if only units of the scope are salient. |
| PackBest.FreeBodyMissed | crates/smysl-pack/src/bound.rs:73 | A body that costs nothing, on a budget that is spent, is missed by a search that is proven. |
| PackSupports.ClosedIsSupported | crates/smysl-pack/src/closure.rs:63-70 | What the support edges ask beyond the other links: that the supports of whatever is held above its gist are held. |
| PackSupports.SelectionsExactly | crates/smysl-pack/src/exact.rs:170 | Every selection that the search takes for closed keeps its supports if and only if every support of a unit above its gist is required by that unit through the other links. |
| PackSupports.ResultSupported | crates/smysl-pack/src/exact.rs:52-92 | Then what the search finds keeps them, from any floor and incumbent that do. |
| PackSupports.SupportedExactly | crates/smysl-pack/src/exact.rs:52-92 | It keeps them for every scope, salience, budget, limit, floor and incumbent if and only if that holds or nothing at all costs anything. |
| PackSupports.SupportMissed | crates/smysl-pack/src/exact.rs:170 | A proven result without the unit that a support edge asks for. |
| PackGap.GapZero | crates/smysl-pack/src/bound.rs:127-133 | The reported gap is zero exactly when the ceiling is not positive or the headroom is under a 2047th of what is achieved. |
| PackGap.ReportedExactly | crates/smysl-pack/src/solve.rs:606-624 | Nothing for what is proven, otherwise the headroom over the ceiling to within 1/2048. |
| PackGap.QuantisedExactly | crates/smysl-core/src/types/mod.rs:106-138 | Rounding gives a multiple of 1/1024 no further away than half of one, on a half the one away from zero. |
| PackGap.SatedIsBest | crates/smysl-pack/src/bound.rs:123-126 | With nothing to be gained for nothing, none salient outside the scope and no salience below zero: a result with budget left over and no headroom is the best, proven or not. |
| PackGap.ZeroGapExactly | crates/smysl-pack/src/bound.rs:125 | Of results that are not proven and report a gap of zero, those of a kind are always the best if and only if the kind is that of budget left over and no headroom. |
| PackGap.SpentIsNotBest | crates/smysl-pack/src/bound.rs:50-52 | Two gists and the budget for one, the lesser held: gap zero, not the best. |
| PackGap.FaintIsNotBest | crates/smysl-pack/src/bound.rs:132 | A third gist that still fits, too faint to show in the gap: gap zero, not the best. |
| PackExact.SearchSpaceIs | fuzz/fuzz_targets/pack_exact.rs:34-42 | The size of the search space is the product of the option counts, or the greatest 64-bit number when it does not fit. |
| PackExact.CheckedProductIs | fuzz/fuzz_targets/pack_exact.rs:66-69 | Multiplying up with overflow checks fails exactly when the whole product does not fit. |
| PackExact.PicksOfNumber | fuzz/fuzz_targets/pack_exact.rs:80-88 | Every number below the product divides down to an assignment, from which it can be told. |
| PackExact.NumberOfPicks | fuzz/fuzz_targets/pack_exact.rs:80-88 | Every assignment is what one such number divides down to. |
| PackExact.EverySelection | fuzz/fuzz_targets/pack_exact.rs:43-63 | Every selection of units of the scope at levels they have is enumerated. |
| PackExact.SelectedOnce | fuzz/fuzz_targets/pack_exact.rs:80-88 | And once only, when no unit and no level is listed twice. |
| PackExact.Select | fuzz/fuzz_targets/pack_exact.rs:80-88 | The loop that divides a counter down builds the selection of that number. |
| PackExact.BruteForce | fuzz/fuzz_targets/pack_exact.rs:44-105 | Nothing exactly when there are more than 4096 assignments; otherwise the greatest value of any selection within budget and without violations, or zero. |

## Left out

- Blake3Tree.Hash: `compress` (`go/blake3.go:43-95`) is a parameter. Chunk and output counters are whole numbers, so inputs are assumed to have fewer than 2^64 chunks.
- Blake3.ChunkState.Update: the Go slice is emptied and refilled in place inside one backing array; the model assigns a new byte sequence, so aliasing of that array is not part of it. The source's inline step for a full chunk and its feeding of the chunk are the methods `NextChunk` and `Absorb`.
- CborGo.Decoder.constructor: how many items and entries the runtime can make room for at once is a parameter of the decoder, `Room`; memory that runs out little by little is not modelled.
- CborSpec.ValueAt: one error value per kind of refusal; the message texts are not modelled. The UTF-8 test and NFC are parameters. Python's dictionary takes 1, True and 1.0 for one key (`python/smysl/cbor.py:124-137`); entries are kept in a sequence here, as Go keeps them.
- CborGo.Encoder.WriteEntries: the library sort is the function `Sort`, with its order, permutation and stability proved in `Sorting`; the same holds for the sorts of `ByteSets` and `IntMaps`.
- CborGo.EncodeOne: Go values of other types, which the encoder refuses, cannot be written down in the model.
- CborRoundTrip.DecodeEncode: numbers and lengths have to fit the 64 bits of a head; a float is its 32 bits.
- Records.StoreDecode: the bodies are at nesting zero of their own, as the store decoder starts them.
- Units.Validate: the texts of the problems found are not modelled, only whether there is one.
- Units.CanonicalBytes: a Go map of extra keys is a sequence in the order in which the runtime walks it; it cannot repeat a key, which `UnitIdentity.Admissible` says. The Python port has optional values where Go has empty ones (`python/smysl/uid.py:170-216`); Go's reading is modelled.
- Schema.ReadLenses: key 4, the declared field shapes (`go/schema.go:123-168`), only adds a field count and one more report.
- Schema.LensOp: one op is read by a function; the loops over its keys and over what its tag needs are quantifiers there.
- Identities.ContentionId: the standard library's base32 encoder, lower-cased, is taken to be `IdentityText.Letters`.
- Propositions.Adjacency: a uid is the number its 32 bytes are, so that bytewise order is numeric order. Reading the store into units, edges, withdrawals and attestations (`scripts/gen-proposition-classes.py:73-114`) is a parameter.
- Components.Components: a set is walked in an arbitrary order where the script walks one, and sorted by insertion where the script calls the library sort.
- Edtf.Parse: text is its UTF-8 bytes, and a refusal carries no reason.
- PackExact.BruteForce: cost, constraint check and value of a selection are parameters; costs are added without overflow, values are real numbers.
- PackBound.HeadroomCovers: values and densities are real numbers, so what rounding does to the comparison with the best so far is not modelled; costs are added without overflow.
- PackGap.ZeroGapExactly: the conversion of the ratio to a single-precision number before it is rounded to 1/1024, and what becomes of numbers too great for that, are not modelled. An exact packing that declines, for its scope is too large, reports what a search with no node to visit reports.
- PackClosure.Require: which rebuttals are live and which contentions open is the store's answer and a parameter; edges are lists of links.
- Greedy packing (`crates/smysl-pack/src/solve.rs`) and its reasons and manifest, merging, salience, thread derivation, the time engine, readers, queries, lens application and shard union are not part of this model.
- The record validators of `go/library.go` and the key tables are checks of field presence, one branch each.
- `nodejs/src` is the same algorithms again, over a language with one number type.
- `Name`, `IsKnown`, `VerifyExport`, `WriteProduced`, progress output, examples and scripts that calibrate or generate documents are file handling, tables and terminal output.
