# A verified model of the vault's decoder, index and ranged reads

This project models the parts of the encrypted vault that do arithmetic, parsing and bookkeeping,
and proves properties of them in Dafny 4.11. Check everything with `dafny verify dfyconfig.toml`.

- **The C reference decoder.** Poly1305 in five 26-bit limbs, the two incremental hashers, Argon2id
  end to end, the `DKE1` envelope and the streaming `DSF1` decoder. Machine words are integers in
  range (`Words.u8`, `u32`, `u64`), so a method that verifies without an explicit remainder never
  wraps; where the C code wraps or truncates on purpose the remainder is written out. ChaCha's
  block function, BLAKE2b's compression and Argon2's block mixing are arbitrary functions passed in
  as parameters, so every result holds whatever they compute.
- **The encrypted index.** A class with three keyed tables, changed one transaction at a time. Its
  meaning is a map from path to record; `Represents` says that the tables are what a scan of that
  map would give. The key hash is an arbitrary injective function and a sealed row opens only
  under the key it was sealed for.
- **Ranged reads.** Chunk geometry with checked 64-bit arithmetic, the constant-memory walk over
  windows of any sizes, byte-range reads, and the bounded header probe.
- **Names and paths.** Sealed name records with UTF-8 spelled out, and path validation.

| file | contents |
|---|---|
| `words.dfy`, `fields.dfy`, `wrappers.dfy`, `utf8.dfy` | words and bit operators, byte fields, result types, UTF-8 |
| `poly1305_field.dfy`, `poly1305.dfy`, `xchacha.dfy`, `rfc8439.dfy` | the authenticator and the AEAD |
| `blake2b.dfy`, `rfc7693.dfy`, `argon2_index.dfy`, `argon2_fill.dfy`, `argon2_memory.dfy`, `argon2.dfy`, `rfc9106.dfy` | the hash and the password KDF |
| `envelope.dfy` | `DKE1` |
| `object_format.dfy`, `metadata.dfy`, `object_stream.dfy`, `object_decode.dfy` | `DSF1` fields, metadata, encoding and decoder |
| `range.dfy`, `object_walk.dfy`, `random_access.dfy`, `header_probe.dfy`, `range_open.dfy` | ranged reads |
| `keying.dfy`, `index_tables.dfy`, `index_totals.dfy`, `index_runs.dfy`, `index_migration.dfy`, `index_history.dfy`, `index_walk.dfy`, `index.dfy` | the index |
| `names.dfy`, `paths.dfy` | name records and path rules |
| `layouts.dfy` | every stored format, byte by byte |

Methods that change state are proved against pure definitions (`Mac`, `Digest`, `HPrime`, `Fill`,
`PutDb`, ...); the lemmas then connect those definitions to closed forms, inverses and invariants.
What they compute is said a second time, in other terms: the three `rfc*.dfy` files word the tags
and the hash as the standards do, octet by octet and step by step, `layouts.dfy` gives the place of
every stored field in plain numbers, and the path rules and the totals are stated on characters and
on the fields of the records.

## Where the code and its promises part

- `argon2id_raw` computes `8 * lanes` and `4 * lanes` in 32 bits. Segments have the two blocks the
  fill needs, in a matrix with 32-bit indices, if and only if there are fewer than 2^29 lanes,
  whatever the memory cost (`Argon2Index.GeometryExact`). From there on it depends on the lanes
  modulo 2^30 (`Argon2Index.GeometryPast`): zero divides by zero; anything below 2^29 gives a matrix
  that does not fit; the rest give empty segments, which are refused, or with enough memory segments
  of one block, whose second slice reads a block nobody wrote (`Argon2Index.OneBlockReadsUnfilled`).
  `Argon2Index.GeometryCanWrap` has an input of each kind but the first. `derive_root` never asks for
  more than 8 lanes.
- The running totals are promised to be exact. They are in every state of a run if and only if
  every state's sums fit their words (`IndexRuns.RunExactIff`); a clamped total stays wrong after
  the deletion (`IndexRuns.TotalsCanClamp`).
- Migration is promised to rebuild what the history maintained. Rows, parents and counts always
  are what it maintained. The totals agree in every state of a run if and only if no operation
  takes a clamped sum down (`IndexHistory.RunAgreesIff`), which is neither implied by the sums
  fitting at the end nor refuted by their not fitting: `IndexHistory.MigrationCanDiffer` is one run
  that shows both.
- `confirm_object_length` adds the footer length without a check. It is exact if and only if the
  geometry leaves room for a footer below 2^64 or puts the last chunk out of reach. Otherwise it
  accepts the saturated end and the wrapped sum: one wrong length if the payload ends below 2^64,
  two if it ends there or beyond (`ObjectRange.LengthCheckExact`). `ObjectRange.LengthCheckCanFail`
  has a header the reader opens of either kind. A release build is modelled, where the sum wraps; a
  debug build would stop instead.
- The C decoder and the vault are promised to agree. The C decoder opens more headers: the vault's
  reader also refuses schema-1 metadata whose texts are not UTF-8, and a live object without a path.
  It opens the same headers exactly when the metadata is readable (`RangeOpen.DecodersAgree`);
  `RangeOpen.DecodersCanDiffer` is a header only the C decoder opens.
- Metadata built is parsed back to the same fields if and only if its content type is not an empty
  text (`ObjectMetadata.ParseIffBuilt`), which comes back absent.
- The stored-length tests after the chunk loops, in the decoder and in the walk, and the refusal
  after three header probes never fire.

## Model

| member | source | states |
|---|---|---|
| Poly1305Field.FoldedProduct | crates/dctl-decode/reference/dctl-decode.c:189-193 | The five column sums, upper columns folded back times five, stand for the product of accumulator and multiplier modulo 2^130 - 5, for all limbs. |
| Poly1305Field.Columns | crates/dctl-decode/reference/dctl-decode.c:189-193 | The 64-bit column sums are those of the schoolbook product and none reaches 2^58, so no multiply-accumulate wraps. |
| Poly1305Field.CarryChain | crates/dctl-decode/reference/dctl-decode.c:194-199 | The carry chain keeps the value modulo 2^130 - 5; every carry and every `c * 5` fits its 32-bit word; only limb 1 can stand above 26 bits afterwards, by less than 64. |
| Poly1305Field.Settle | crates/dctl-decode/reference/dctl-decode.c:232-237 | The opening carry pass of the finish leaves every limb below 2^26 and the value unchanged modulo 2^130 - 5. |
| Poly1305Field.TrialSubtract | crates/dctl-decode/reference/dctl-decode.c:238-243 | The subtraction that is always computed, and that its mask is all ones exactly when the value was at least 2^130 - 5. |
| Poly1305Field.Freeze | crates/dctl-decode/reference/dctl-decode.c:238-247 | One masked subtraction gives the true remainder modulo 2^130 - 5: the result is below the modulus and congruent to the input. |
| Poly1305Field.Pack | crates/dctl-decode/reference/dctl-decode.c:248-251 | Four 32-bit words hold the limbs' value modulo 2^128. |
| Poly1305Field.AddPad | crates/dctl-decode/reference/dctl-decode.c:252-256 | The word-by-word addition of the pad is addition modulo 2^128; no 64-bit accumulator wraps. |
| Poly1305.ClampedLimbs | crates/dctl-decode/reference/dctl-decode.c:165-171 | The five masked, shifted word loads hold exactly the clamped multiplier r of section 2.5 of RFC 8439, for every key. |
| Poly1305.MessageLimbs | crates/dctl-decode/reference/dctl-decode.c:184-188 | The five overlapping loads cut a block into limbs worth the block plus the high bit. |
| Poly1305.BlockLoop | crates/dctl-decode/reference/dctl-decode.c:177-203 | The in-place block loop computes the fold of the blocks it is given, on limbs that never wrap. |
| Poly1305.State.constructor | crates/dctl-decode/reference/dctl-decode.c:165-175 | A fresh hasher has absorbed nothing and holds r and s of its key. |
| Poly1305.State.Blocks | crates/dctl-decode/reference/dctl-decode.c:177-203 | Whole blocks extend what the accumulator has absorbed; the final block is folded without the high bit. |
| Poly1305.State.Update | crates/dctl-decode/reference/dctl-decode.c:205-222 | What has been absorbed grows by exactly the argument, whatever was buffered: updating is independent of how the message is split. |
| Poly1305.State.UpdateAligned | crates/dctl-decode/reference/dctl-decode.c:216-221 | The part after the buffer was emptied absorbs whole blocks and keeps the rest. |
| Poly1305.State.Finish | crates/dctl-decode/reference/dctl-decode.c:224-258 | The tag is the standard's tag of everything absorbed under the key, for every key and message. |
| Poly1305.NumbersConcat | crates/dctl-decode/reference/dctl-decode.c:205-222 | Cutting a message at a multiple of 16 bytes cuts its list of padded blocks. |
| Poly1305.RawFinal | crates/dctl-decode/reference/dctl-decode.c:225-231 | The one byte and zeros written behind a short last block make it the padded block of the standard. |
| Poly1305.MacIsPolynomial | crates/dctl-decode/reference/dctl-decode.c:165-258 | The tag is the sum of the padded blocks times descending powers of r, modulo 2^130 - 5, plus s, modulo 2^128 (the closed form, not the recurrence). |
| Rfc8439.TagIsStandard | crates/dctl-decode/reference/dctl-decode.c:165-258 | Octet by octet the tag is that of section 2.5.1 of RFC 8439: r the first half of the key under the mask of the standard, s the second half, blocks of 16 octets with one bit beyond them. |
| Rfc8439.ClampIsMask | crates/dctl-decode/reference/dctl-decode.c:165-171 | Clearing bits byte by byte is masking the whole number. |
| XChaCha.ChaCha20Xor | crates/dctl-decode/reference/dctl-decode.c:133-143 | The in-place loop xors byte i with byte i % 64 of block start + i / 64 (32-bit counter), and leaves the rest of the buffer alone. |
| XChaCha.Poly1305Aead | crates/dctl-decode/reference/dctl-decode.c:264-277 | The five updates authenticate exactly aad, zero pad, ciphertext, zero pad, two 64-bit lengths. |
| XChaCha.AeadStringInjective | crates/dctl-decode/reference/dctl-decode.c:264-277 | The authenticated string determines the associated data and the ciphertext uniquely (section 2.8 of RFC 8439). |
| Rfc8439.AeadStringIsMacData | crates/dctl-decode/reference/dctl-decode.c:264-277 | The authenticated string, byte by byte: associated data, zeros, ciphertext, zeros, and the two lengths in that order. Nothing else fits the description. |
| XChaCha.CtVerify16 | crates/dctl-decode/reference/dctl-decode.c:279-283 | The comparison without an early exit accepts exactly equal tags. |
| XChaCha.XChaChaOpen | crates/dctl-decode/reference/dctl-decode.c:286-300 | Opening succeeds exactly when the tag is right, writes the plaintext, and writes nothing on failure. |
| XChaCha.OpenIffSealed | crates/dctl-decode/reference/dctl-decode.c:286-300 | A ciphertext and tag open to pt if and only if they are the seal of pt. |
| XChaCha.OpenBlobIffSealed | crates/dctl-decode/reference/dctl-decode.c:303-310 | A blob opens to pt if and only if it is the sealed pt under the nonce it starts with. |
| Rfc8439.OpeningIsStandard | crates/dctl-decode/reference/dctl-decode.c:286-300 | A ciphertext opens to pt if and only if its tag is the standard's under the first 32 octets of block 0 and every octet of pt is the ciphertext's xored with the key stream from block 1 on, the key derived from the first 16 octets of the nonce. |
| Rfc8439.BlobIsStandard | crates/dctl-decode/reference/dctl-decode.c:303-310 | A blob is 24 octets of nonce, the ciphertext and 16 octets of tag. |
| XChaCha.BlobRoundTrip | crates/dctl-decode/reference/dctl-decode.c:303-310 | Every sealed blob opens to what was sealed. |
| XChaCha.XChaChaOpenBlob | crates/dctl-decode/reference/dctl-decode.c:303-310 | The blob form refuses blobs under 40 bytes and otherwise agrees with the definition, length included. |
| Blake2b.Count | crates/dctl-decode/reference/dctl-decode.c:799 | The two-word counter with its detected carry is addition modulo 2^128. |
| Blake2b.State.Flush | crates/dctl-decode/reference/dctl-decode.c:798-802 | A full buffer is compressed only when a byte follows it; the counter then equals the bytes compressed. |
| Blake2b.State.Update | crates/dctl-decode/reference/dctl-decode.c:796-805 | What has been absorbed grows by exactly the argument: hashing depends on the concatenated input alone. |
| Blake2b.State.BufferIsLastBlock | crates/dctl-decode/reference/dctl-decode.c:796-805 | In every reachable state the buffer holds the last 1 to 128 bytes (none only when nothing was absorbed) and the counter is the number of the others modulo 2^128. |
| Blake2b.State.Final | crates/dctl-decode/reference/dctl-decode.c:807-815 | The digest is the one-shot block recurrence of section 3.3 of RFC 7693 over everything absorbed, with only the last block flagged. |
| Rfc7693.DigestIsStandard | crates/dctl-decode/reference/dctl-decode.c:789-815 | Octet by octet the digest is that of section 3.3 of RFC 7693, written as a recurrence over data blocks with the parameter block, the offset counter and the flag of the last block explicit. |
| Rfc7693.IVIsRoots | crates/dctl-decode/reference/dctl-decode.c:743-748 | The eight initial words are the first 64 bits of the fractional parts of the square roots of the first eight primes. |
| Blake2b.AfterPrefix | crates/dctl-decode/reference/dctl-decode.c:796-805 | Blocks already compressed do not depend on what follows. |
| Blake2b.Hash | crates/dctl-decode/reference/dctl-decode.c:817-822 | The one-call form gives the same digest. |
| Argon2Index.GeometryFits | crates/dctl-decode/reference/dctl-decode.c:922-927 | Below 2^29 lanes segments have at least two blocks and the matrix has no more blocks than the memory cost, or eight a lane, asks for; so the refusal of an empty segment never fires there. |
| Rfc9106.SegmentIs | crates/dctl-decode/reference/dctl-decode.c:922-925 | Below 2^29 lanes the segment length is that of section 3.2 of RFC 9106: the memory, at least eight blocks a lane, over four segments a lane. |
| Argon2Index.GeometryExact | crates/dctl-decode/reference/dctl-decode.c:922-927 | For every memory cost, segments of two blocks or more in a matrix of fewer than 2^32 blocks if and only if there are fewer than 2^29 lanes. |
| Argon2Index.GeometryPast | crates/dctl-decode/reference/dctl-decode.c:922-927 | From 2^29 lanes on, with k the lanes modulo 2^30: division by zero if and only if k is 0; two blocks or more but a matrix of 2^32 blocks or more if 0 < k < 2^29; otherwise empty segments exactly for a cost below 4k, and one-block segments from there. So the refusal of empty segments fires exactly for k >= 2^29 and a cost below 4k. |
| Argon2Index.DivisorVanishes | crates/dctl-decode/reference/dctl-decode.c:924 | The division is by zero at exactly the multiples of 2^30 lanes. |
| Argon2Index.OneBlockReadsUnfilled | crates/dctl-decode/reference/dctl-decode.c:898-915 | With one-block segments the first step of the second slice refers to the last column, unwritten in the first pass, whatever the random word and whichever lane it picks. |
| Argon2Index.GeometryCanWrap | crates/dctl-decode/reference/dctl-decode.c:922-926 | Costs and lanes the code can be given: one with empty segments, one with segments of one block, one whose matrix does not fit. |
| Argon2Index.RelativeIsQuadratic | crates/dctl-decode/reference/dctl-decode.c:910-912 | The 64-bit products, shifts and differences compute the quadratic mapping of section 3.4.2 of RFC 9106 exactly. |
| Argon2Index.AlphaWindow | crates/dctl-decode/reference/dctl-decode.c:898-915 | The wrapped arithmetic of index_alpha is the unwrapped window arithmetic of section 3.4.2 of RFC 9106: the window is never empty and the offset into it is the quadratic mapping of the random word. |
| Argon2Index.ReferenceIsSafe | crates/dctl-decode/reference/dctl-decode.c:898-915 | Every reference is in bounds, is never the current or the previous block, in another lane never falls in the current slice, and in the first pass names a block already filled. |
| Argon2Fill.LaneRunAgrees | crates/dctl-decode/reference/dctl-decode.c:984-1005 | What a lane computes in a slice depends only on its own row and the other lanes outside that slice. |
| Argon2Fill.LaneRunFrame | crates/dctl-decode/reference/dctl-decode.c:984-1005 | A lane changes only its own row, and there only the current slice. |
| Argon2Fill.AnyOrderIsSequential | crates/dctl-decode/reference/dctl-decode.c:972-1006 | Any interleaving of the lanes' steps within a slice leaves the memory of the sequential loop. |
| Argon2Fill.FillIsScheduleIndependent | crates/dctl-decode/reference/dctl-decode.c:970-1008 | Over all passes and slices, each under its own interleaving, the final memory is the sequential one. |
| Argon2Fill.ReadsOnlyFilled | crates/dctl-decode/reference/dctl-decode.c:984-1005 | A first-pass step reads only blocks that have already been filled. |
| Argon2Fill.FillIgnoresOldMemory | crates/dctl-decode/reference/dctl-decode.c:929-1008 | The filled memory does not depend on what the allocation held beyond the first two columns. |
| Argon2Memory.MatrixUpdate | crates/dctl-decode/reference/dctl-decode.c:985-986 | Writing one cell of the flat buffer is writing one column of one lane: distinct lane and column give distinct cells. |
| Argon2Memory.FillCell | crates/dctl-decode/reference/dctl-decode.c:985-1004 | One in-place step of the flat buffer is one step of the lane model; no flat index wraps 32 bits. |
| Rfc9106.BlockIs | crates/dctl-decode/reference/dctl-decode.c:985-1004 | The new block, word by word: the mix of the previous and the reference block, both named by lane and column in unwrapped arithmetic, xored from the second pass on into the block that is there. |
| Rfc9106.StepIs | crates/dctl-decode/reference/dctl-decode.c:985-1004 | One step changes that cell to that block and nothing else. |
| Rfc9106.FillIs | crates/dctl-decode/reference/dctl-decode.c:970-1008 | The fill is those steps in the order of passes, slices, lanes and indices. |
| Argon2Memory.FillSegment | crates/dctl-decode/reference/dctl-decode.c:973-1005 | The address block drawn every 128 indices, with its counter, gives each index its pseudo-random word; the loop fills the lane's segment as the definition does. |
| Argon2Memory.FillMemory | crates/dctl-decode/reference/dctl-decode.c:970-1008 | The nested loops leave the flat buffer equal to the definition's memory after all passes. |
| Argon2.HashPrefixed | crates/dctl-decode/reference/dctl-decode.c:837-841 | Hashing a length word and an input in two calls is hashing their concatenation. |
| Argon2.FillHalves | crates/dctl-decode/reference/dctl-decode.c:844-857 | The loop emits the first half of each link and stops after exactly ceil(T/32) - 2 of them. |
| Argon2.ArgonHPrime | crates/dctl-decode/reference/dctl-decode.c:833-859 | Exactly out_len bytes are written, equal to H' of section 3.3 of RFC 9106 for every length; the rest of the buffer is untouched. |
| Rfc9106.LongHashIs | crates/dctl-decode/reference/dctl-decode.c:833-859 | Octet by octet H' is that of section 3.3 of RFC 9106. |
| Argon2.Rounds | crates/dctl-decode/reference/dctl-decode.c:852-858 | The last piece has 33 to 64 bytes whenever out_len exceeds 64. |
| Argon2.HashHeader | crates/dctl-decode/reference/dctl-decode.c:934-953 | The sequence of updates hashes the parameter string of section 3.2 of RFC 9106, empty fields included. |
| Rfc9106.ParametersAre | crates/dctl-decode/reference/dctl-decode.c:934-953 | The hashed string is that of section 3.2 of RFC 9106, each number as its octets. |
| Argon2.FillFirst | crates/dctl-decode/reference/dctl-decode.c:956-965 | The first two columns of every lane hold the H' blocks of section 3.2, whatever the allocation held. |
| Argon2.FoldLastColumn | crates/dctl-decode/reference/dctl-decode.c:1010-1014 | The last column is xored across lanes. |
| Argon2.Argon2idRaw | crates/dctl-decode/reference/dctl-decode.c:918-1022 | End to end: wherever the geometry is sound or the C code refuses, the output is the tag of the definition for every password, salt, secret, data and cost; success exactly with 1 to 2^29 - 1 lanes and at least one pass, and nothing is written on refusal. |
| Rfc9106.TagIsStandard | crates/dctl-decode/reference/dctl-decode.c:918-1022 | End to end, octet by octet, the tag is the standard's, from any memory whose first two columns are set. |
| Envelope.ParseSlot | crates/dctl-decode/reference/dctl-decode.c:380-414 | A slot is returned exactly when one is printed at the offset, with the offset after it; no read leaves the buffer for any bytes. |
| Envelope.SlotIsUnique | crates/dctl-decode/reference/dctl-decode.c:380-414 | At most one slot is printed at the front of any bytes. |
| Envelope.ParseEnvelope | crates/dctl-decode/reference/dctl-decode.c:444-459 | The structural phase passes if and only if the bytes are the encoding of 1 to 64 slots, and those slots tile the buffer exactly. |
| Envelope.EnvelopeIsUnique | crates/dctl-crypto/src/envelope/serialize.rs:16-74 | The printer is injective: one vault id and one slot list per envelope. |
| Layouts.EnvelopeIff | crates/dctl-decode/reference/dctl-decode.c:444-459 | Bytes are the encoding of a vault id and 1 to 64 slots if and only if magic, version, id, count and slots lie at bytes 0, 4, 5, 21 and 23. |
| Layouts.SlotIff | crates/dctl-decode/reference/dctl-decode.c:380-414 | Bytes are the encoding of a slot if and only if each of its eleven fields lies where the format puts it, and a wrap of algorithm 1 has 72 bytes. |
| Envelope.SlotAadInjective | crates/dctl-decode/reference/dctl-decode.c:420-434 | The slot AAD determines vault id, type, flags, KDF, algorithm, salt and auxiliary bytes. |
| Envelope.BuildSlotAad | crates/dctl-decode/reference/dctl-decode.c:420-434 | The pieces appended at a moving offset make up that string, within the computed capacity. |
| Layouts.SlotAadIs | crates/dctl-decode/reference/dctl-decode.c:420-434 | The string byte by byte; nothing else fits the description. |
| Envelope.SlotRootIffWrapped | crates/dctl-decode/reference/dctl-decode.c:461-491 | A slot yields a root if and only if it is supported, within the cost ceilings, and wraps that root under the password. |
| Layouts.SlotRootIs | crates/dctl-decode/reference/dctl-decode.c:461-491 | On the fields: type 1, no flags, KDF 1, wrap 1, costs in the stated ranges, and the wrapped bytes open to the root under Argon2id of the password, the slot's salt and its costs, 32 bytes long. |
| Envelope.DeriveKek | crates/dctl-decode/reference/dctl-decode.c:473-476 | The KDF can only be called within the cost ceilings, and there it never refuses. |
| Envelope.OpenSlot | crates/dctl-decode/reference/dctl-decode.c:462-491 | One slot is opened with Argon2id and the AEAD; the KDF runs only inside the ceilings and the 64-byte buffer is never overrun. |
| Envelope.DeriveRoot | crates/dctl-decode/reference/dctl-decode.c:442-494 | The root is that of the lowest-numbered supported slot that opens; failure if and only if the bytes are no envelope or no slot opens. |
| Envelope.FirstIsLowest | crates/dctl-decode/reference/dctl-decode.c:460-494 | No slot with a lower number opens. |
| ObjectFormat.CheckHead | crates/dctl-decode/reference/dctl-decode.c:532-547 | The head checks pass exactly the heads a writer prints from fields in range. |
| Layouts.HeadIff | crates/dctl-decode/reference/dctl-decode.c:532-547 | The same test on the bytes: magic, version, algorithm, selector, one known flag, a chunk size up to 16 MiB, and a chunk count that is the least to hold the plaintext. |
| ObjectFormat.PrintThenRead | crates/dctl-crypto/src/object/head.rs:31-43 | Every field of a printed head is read back. |
| ObjectFormat.CheckMetadata | crates/dctl-decode/reference/dctl-decode.c:501-514 | The metadata check passes exactly unknown schemas of at least 76 bytes and printings of schema-1 fields with the right size. |
| Layouts.MetadataIff | crates/dctl-decode/reference/dctl-decode.c:501-514 | The same test on the bytes: the size at byte 18 and three lengths that end exactly at the end. |
| Layouts.ParsedAt | crates/dctl-crypto/src/object/meta.rs:136-213 | Where each field of a parsed record lies. |
| Layouts.ParsedIff | crates/dctl-crypto/src/object/meta.rs:136-213 | Metadata parses if and only if its three lengths fit, both texts are UTF-8, and it has a path or bit 0x08 of its flags. |
| ObjectMetadata.BuiltRecords | crates/dctl-crypto/src/object/meta.rs:93-134 | The hash a record is built with is the one its bytes record. |
| ObjectMetadata.ParseIffBuilt | crates/dctl-crypto/src/object/meta.rs:92-213 | Bytes parse to a record if and only if they are what is built of it and its content type is not the empty text: parsing is the inverse of building in both directions. |
| ObjectMetadata.EmptyTypeComesBackAbsent | crates/dctl-crypto/src/object/meta.rs:92-213 | The excluded case: an empty content type is built and parses back absent, everything else unchanged. |
| ObjectMetadata.LegibleIffRead | crates/dctl-crypto/src/object/meta.rs:165-212 | Fields within bounds are read if and only if both texts are UTF-8 and a live object has a path. |
| ObjectMetadata.ReadsIffFits | crates/dctl-crypto/src/object/seal.rs:243-253 | The vault's reader accepts metadata if and only if the C decoder does and it is of an unknown schema or printed from legible fields. |
| ObjectMetadata.BuiltReads | crates/dctl-crypto/src/object/meta.rs:92-133 | Everything the builder builds is accepted by both decoders for an object of the recorded size. |
| ObjectFormat.MakeChunkNonce | crates/dctl-decode/reference/dctl-decode.c:517-522 | The in-place xor gives the base nonce with its first eight bytes xored with the index. |
| ObjectFormat.NoncesAreDistinct | crates/dctl-crypto/src/object/nonce.rs:8-33 | No two chunks share a nonce and none has the metadata nonce. |
| ObjectFormat.CeilStep | crates/dctl-decode/reference/dctl-decode.c:546-547 | Taking one chunk off a plaintext leaves one chunk fewer, which makes the chunk loop end with nothing remaining. |
| ObjectStream.EveryPlaintextHasObject | crates/dctl-crypto/src/object/seal.rs:33-127 | Every plaintext, at every chunk size in (0, 16 MiB], has an object a writer would emit. |
| ObjectStream.ChunkIffSealed | crates/dctl-decode/reference/dctl-decode.c:600-609 | A chunk opens to pt if and only if it is the seal of pt at that index of that object. |
| ObjectStream.PayloadIffSealed | crates/dctl-decode/reference/dctl-decode.c:597-612 | A payload opens to pt if and only if it begins with the chunks of pt, in order. |
| Layouts.ChunkAt | crates/dctl-decode/reference/dctl-decode.c:589-612 | Chunk j lies at j times the chunk size plus a tag, holds the plaintext from j times the chunk size on, and is sealed under the base nonce with j xored in and bound to the head and to j, all byte by byte. |
| Layouts.ObjectChunkAt | crates/dctl-decode/reference/dctl-decode.c:528-619 | In a whole object the chunks follow the header, numbered from zero. |
| ObjectStream.ReachesOpens | crates/dctl-decode/reference/dctl-decode.c:597-612 | A run of authenticated chunks is a prefix of the whole: the payload opens exactly if what is left opens. |
| ObjectStream.OneRun | crates/dctl-decode/reference/dctl-decode.c:597-612 | Of two runs of authenticated chunks from one place the shorter begins the longer, and none goes past a chunk that is missing, short or does not authenticate. |
| ObjectDecode.HeaderIffSealed | crates/dctl-decode/reference/dctl-decode.c:529-587 | Everything before the payload opens to a header if and only if the input starts with the writer's encoding of it. |
| Layouts.HeaderIff | crates/dctl-decode/reference/dctl-decode.c:529-587 | The same opening on the bytes: where the wrapped key and the metadata lie, and the label and head each is bound to. |
| ObjectDecode.DecodeHeader | crates/dctl-decode/reference/dctl-decode.c:529-587 | The reads of the header agree with that definition and stop at the payload. |
| ObjectDecode.DecodePayload | crates/dctl-decode/reference/dctl-decode.c:589-616 | Whatever the input, the pieces written are authenticated chunks in order, each of 1 to chunk_size bytes; on success they are the whole plaintext and its length is the declared one, so the last length test never fires. |
| ObjectDecode.Decode | crates/dctl-decode/reference/dctl-decode.c:528-619 | Decoding succeeds on exactly the inputs that begin with a writer's encoding, and writes that encoding's plaintext. |
| ObjectDecode.EncodingIsUnique | crates/dctl-decode/reference/dctl-decode.c:528-619 | At most one header and plaintext are encoded at the front of any input. |
| ObjectRange.SpanIs | crates/dctl-crypto/src/object/range.rs:342-394 | A chunk span is the byte range of its chunks; the checked arithmetic refuses one if and only if its start or its length reaches 2^64. |
| ObjectRange.LeftCeil | crates/dctl-crypto/src/object/nonce.rs:36-39 | The saturating chunk lengths count down to zero at exactly the declared chunk count. |
| ObjectRange.OpenChunks | crates/dctl-crypto/src/object/range.rs:419-448 | All chunks of a span are returned with their indices if and only if a run of authenticated chunks covers it; the bounds filter never fires. |
| ObjectRange.ReadChunks | crates/dctl-core/src/range.rs:236-261 | A window, clamped to the object, yields its authenticated chunks and folds exactly its ciphertext; it succeeds if and only if a run of authenticated chunks covers the window, whatever follows it. |
| ObjectRange.PayloadEndIs | crates/dctl-core/src/range.rs:317-325 | The byte after the last chunk, saturating; refused if and only if the last chunk starts at 2^64 or beyond. |
| ObjectRange.LengthCheckExact | crates/dctl-core/src/range.rs:351-365 | If the last chunk is out of reach every length is refused; otherwise exactly two are accepted, the end saturated at 2^64 - 1 and that plus 32 modulo 2^64. These are the two true lengths if and only if the payload leaves room for a footer below 2^64; if not, one under 32 is wrong, and so is 2^64 - 1 when the payload ends at 2^64 or beyond. |
| ObjectRange.LengthCheckCanFail | crates/dctl-core/src/range.rs:351-365 | Headers of fields in range on which it fails: the payload ends at 2^64 - 32 and an object of no bytes is accepted; it ends at 2^64 and both 2^64 - 1 and 31 are accepted. |
| ObjectRange.FooterFold | crates/dctl-core/src/range.rs:271-278 | A hasher seeded with the header exactly when the object declares a footer. |
| ObjectRange.ConfirmFooter | crates/dctl-core/src/range.rs:294-314 | The check passes if and only if the stored footer is the hash of everything before it. |
| ObjectWalk.CiphertextJoins | crates/dctl-core/src/range.rs:226-261 | Consecutive windows cover consecutive bytes. |
| ObjectWalk.WalkWindow | crates/dctl-core/src/vault/read_stream.rs:165-192 | One window extends the run of chunks, the hash and the fold together, or shows that the payload does not open. |
| ObjectWalk.StreamReaderTo | crates/dctl-core/src/vault/read_stream.rs:142-228 | For windows of any sizes and any stored bytes: success exactly when the payload opens and the hashes agree, and then the plaintext was written; otherwise only authenticated chunks in order. |
| Layouts.StreamIff | crates/dctl-core/src/vault/read_stream.rs:142-228 | What success attests, on the bytes: the chunks of the plaintext follow the header, its hash is bytes 26 to 58 of schema-1 metadata, and if the footer bit is set the 32 bytes behind the last chunk hash everything before them. |
| ObjectRange.ContentIsRecorded | crates/dctl-crypto/src/object/meta.rs:149-151 | The hash the walk compares with is the one the writer put in the metadata. |
| ObjectWalk.FoldIsWhole | crates/dctl-core/src/range.rs:271-278 | Header bytes and every window's ciphertext make up everything before the footer. |
| ObjectWalk.WalkAgrees | crates/dctl-core/src/vault/read_stream.rs:142-228 | On any stored bytes the windowed walk and the sequential decoder accept the same plaintext. |
| ObjectWalk.WrittenObjectStreams | crates/dctl-core/src/range.rs:294-365 | Every object a writer stores with the hash of its plaintext recorded, whatever stands before its payload, passes the walk, the footer check and the length check, whatever the window sizes. |
| RandomAccess.Cover | crates/dctl-crypto/src/object/range.rs:309-330 | The range starts in the first covering chunk and ends in the last, and both exist. |
| RandomAccess.OpensFrom | crates/dctl-crypto/src/object/range.rs:4-9 | If the payload opens to pt, then from chunk i on it opens to the rest of pt. |
| RandomAccess.CutWindow | crates/dctl-crypto/src/object/range.rs:459-480 | The per-chunk slices add up to the window of the covering chunks. |
| RandomAccess.ReadRange | crates/dctl-core/src/range.rs:187-194 | A ranged read succeeds if and only if the chunks that cover it authenticate, and then returns the one window cut from them; on an object that opens that is the window of its plaintext. |
| RandomAccess.WindowAt | crates/dctl-core/src/range.rs:187-194 | Byte i of the window is byte offset + i of the plaintext, as far as the plaintext and the length go. |
| RandomAccess.ReadIsLocal | crates/dctl-core/src/range.rs:187-194 | Two stored objects with the same bytes in the covering chunks are read alike: damage elsewhere neither refuses nor changes a ranged read. |
| HeaderProbe.FrontSettles | crates/dctl-crypto/src/object/range.rs:93-133 | A front of the object settles the header length as the whole object does, or asks for a strictly longer front. |
| HeaderProbe.FetchHeader | crates/dctl-core/src/range.rs:400-422 | Three probes always settle the header: found, truncated or malformed exactly as the whole object says, from no less than the first 4096 bytes of a longer object. |
| HeaderProbe.WrittenHeaderResolves | crates/dctl-crypto/src/object/range.rs:93-133 | In particular for an object of the sequential decoder: the header found is the one the writer emitted. |
| HeaderProbe.ResolvesIffPrinted | crates/dctl-crypto/src/object/range.rs:93-133 | A header of length n is found if and only if the object begins with a header of that length some writer printed, with or without a key-encapsulation block. |
| RangeOpen.OpenRangeIffSealed | crates/dctl-crypto/src/object/range.rs:177-237 | A header opens to r under a key and selector if and only if the bytes begin with r as a writer sealed it under that key, with readable metadata, an empty block for the owner and some block for recipients. |
| RangeOpen.OpenedIsSealed | crates/dctl-crypto/src/object/range.rs:195-237 | Whatever opens has every field the ranged reads rely on, and its payload starts where the header ends. |
| RangeOpen.DecodersAgree | crates/dctl-crypto/src/object/range.rs:177-179 | For the owner and any bytes, the ranged opener opens exactly those headers the C decoder opens whose metadata is readable, and places the payload alike. |
| RangeOpen.DecodersCanDiffer | crates/dctl-crypto/src/object/meta.rs:208-212 | A header of fields in range, live and without a path, that the C decoder opens and the ranged opener refuses. |
| RangeOpen.WrittenObjectReads | crates/dctl-crypto/src/object/range.rs:177-237 | Of every stored object whose metadata was built from a record with the hash of the plaintext, or is of an unknown schema, the owner's or shared: the probe finds the header, the opener opens it under the key that wrapped it, and the walk and both whole-object checks pass. |
| Names.SealRecord | crates/dctl-crypto/src/names.rs:80-100 | Refused exactly when the path exceeds 65535 bytes; otherwise the value seals the record under the path's own key. |
| Names.ReadRecord | crates/dctl-crypto/src/names.rs:113-128 | The plaintext is accepted if and only if it is the exact framing of a record. |
| Names.OpenRecord | crates/dctl-crypto/src/names.rs:105-140 | Opens to a record if and only if the value seals that record under the key of the record's own path. |
| Layouts.NameIff | crates/dctl-crypto/src/names.rs:80-150 | What a value seals, on the bytes: the label, vault and key it is bound to, and file id, generation, length and path of the record under its own key. |
| Names.SealedRecordOpens | crates/dctl-crypto/src/names.rs:80-100 | Every record that fits its frame is opened again with the same file id, generation and path. |
| Names.SealsOne | crates/dctl-crypto/src/names.rs:105-140 | A value seals at most one record. |
| Names.NameAadInjective | crates/dctl-crypto/src/names.rs:144-150 | The associated data determines vault and key. |
| Utf8.DecodeIffEncoded | crates/dctl-crypto/src/names.rs:127-128 | Bytes decode to a string if and only if they are its UTF-8 encoding. |
| Paths.NoncharacterIs | crates/dctl-crypto/src/path.rs:101-104 | The masked comparison finds exactly the last two code points of every plane, besides U+FDD0 to U+FDEF. |
| Paths.ValidateIff | crates/dctl-crypto/src/path.rs:48-92 | The ordered tests accept exactly the paths whose characters and segments are all acceptable. |
| Paths.AcceptedIff | crates/dctl-crypto/src/path.rs:48-104 | A path is accepted if and only if it has at most 4096 bytes; each character is no control, backslash or noncharacter and is in the table; each stretch between slashes is not empty, not a dot or two, and at most 255 bytes; and no drive letter begins it. |
| Paths.ValidAbove | crates/dctl-crypto/src/path.rs:48-92 | Every directory a valid path lies beneath is valid. |
| Paths.AncestorsAreValid | crates/dctl-crypto/src/path.rs:48-92 | Each element of ancestors_of and the non-root parent_of of a valid path is valid. |
| Paths.AncestorsAreComponentPrefixes | crates/dctl-index/src/keying.rs:71-84 | For every string the ancestors are its proper component prefixes, outermost first, without the empty one before a leading slash. |
| Paths.ValidFitsRecord | crates/dctl-crypto/src/names.rs:88-91 | No valid path is refused by the record's length field. |
| Keying.AncestorsOf | crates/dctl-index/src/keying.rs:71-84 | The scanning loop returns the separators' non-empty prefixes, for every string. |
| Keying.AncestorsAreBeneath | crates/dctl-index/src/keying.rs:71-84 | They are exactly the directories the path lies beneath. |
| Keying.AncestorsAreParentChain | crates/dctl-index/src/keying.rs:55-84 | For all strings, the forward search is the chain of iterated parents without the root. |
| Keying.AncestorsAscend | crates/dctl-index/src/keying.rs:71-84 | Outermost first, none twice. |
| Keying.ParentIsInnermost | crates/dctl-index/src/keying.rs:55-60 | The parent is the innermost directory above a path. |
| IndexTables.BumpPath | crates/dctl-index/src/index.rs:517-545 | Bumping every ancestor of a path by one takes the directory table of one path set to that of the other, both ways. |
| IndexTables.ReadAgrees | crates/dctl-index/src/index.rs:498-510 | A lookup by key is a lookup by path. |
| IndexTables.PutRefines | crates/dctl-index/src/index.rs:291-323 | put keeps all three tables representing the map, with the path set to the record. |
| IndexTables.DeleteRefines | crates/dctl-index/src/index.rs:380-399 | delete keeps all three tables representing the map, with the path removed; stored or not. |
| IndexTables.DirsAreScanned | crates/dctl-index/src/index.rs:362-373 | A directory is listed if and only if some stored path lies beneath it. |
| IndexTotals.PutExactIff | crates/dctl-index/src/index.rs:551-576 | From exact totals a put leaves exact totals if and only if the new sums fit. |
| IndexRuns.ExactIff | crates/dctl-index/src/record.rs:26-44 | Totals are exact if and only if they are the number of records, the sum of their sizes, and the number that have neither a size nor a hash. |
| IndexTotals.DeleteExact | crates/dctl-index/src/index.rs:551-576 | A deletion never clamps. |
| IndexTotals.SumSplit | crates/dctl-index/src/index.rs:551-576 | The true sum does not depend on the order of the visit. |
| IndexRuns.RunRefines | crates/dctl-index/src/index.rs:291-399 | No run of put, delete and crash fails, and every state it reaches represents the files the run left. |
| IndexRuns.RunExactIff | crates/dctl-index/src/index.rs:551-576 | Totals are exact in every state of a run if and only if every state's sums fit. |
| IndexRuns.TotalsCanClamp | crates/dctl-index/src/index.rs:551-576 | A run from the empty index, two files of 2^63 bytes and the deletion of the first, whose byte total clamps and is one byte short at its end. |
| IndexRuns.DirectoriesAreScanned | crates/dctl-index/src/index.rs:362-373 | In every reachable state the directory row exists iff a stored path lies beneath it, and then holds the parent's key and the number of such paths. |
| IndexRuns.MeasuredBytesIsSum | crates/dctl-index/src/record.rs:26-83 | measured_bytes answers exactly when every record has a size or a hash, so an empty file that was hashed counts as measured, and then with the sum of all sizes. |
| IndexRuns.RepresentsUnique | crates/dctl-index/src/index.rs:291-399 | The files determine records and directories, and exact totals. |
| IndexRuns.OperationsCommute | crates/dctl-index/src/index.rs:291-399 | Operations on different paths commute on records and directories, always, and on the totals if and only if each figure's two saturating moves can be swapped. |
| IndexRuns.MovesSwapIff | crates/dctl-index/src/index.rs:551-576 | Two saturating moves of a 64-bit figure give the same result in both orders if and only if the net result lies in the range each order confines it to, or leaves them where they end alike. |
| IndexRuns.ShiftsSwapIff | crates/dctl-index/src/index.rs:551-576 | The same for the whole totals row: objects, bytes and unmeasured. |
| IndexRuns.FittingOrdersAgree | crates/dctl-index/src/index.rs:551-576 | In particular the totals of both orders agree when they start exact and every sum on the way fits. |
| IndexRuns.PutIdempotent | crates/dctl-index/src/index.rs:291-323 | A second identical put changes nothing, in any state. |
| IndexRuns.DeleteUndoesPut | crates/dctl-index/src/index.rs:380-399 | delete after put of a fresh path restores records and directories, and the totals iff the put did not clamp. |
| IndexMigration.MigrationAgrees | crates/dctl-index/src/index.rs:212-275 | Stripping a reachable state to version 0 and migrating restores rows, parents and counts. The migrated totals are the true ones if and only if the sums fit, and equal the history's if and only if the history holds the saturated sums; exact ones always come back. |
| IndexHistory.StepAgreesIff | crates/dctl-index/src/index.rs:212-275 | From totals that migration would restore, one operation leaves such totals if and only if it takes no clamped sum down, as a deletion may and a replacement by something smaller; a new path always keeps them. |
| IndexHistory.RunAgreesIff | crates/dctl-index/src/index.rs:212-275 | Migration would restore the totals of every state of a run if and only if every operation of the run is of that kind. |
| IndexHistory.ForgetKeepsIff | crates/dctl-index/src/index.rs:551-576 | A deletion takes the saturated sums to the saturated sums if and only if the number of files fits and either the bytes fit or it takes off none. |
| IndexHistory.ReplaceKeepsIff | crates/dctl-index/src/index.rs:551-576 | A replacing put does if and only if each sum fits or does not get smaller. |
| IndexHistory.FittingRunKeeps | crates/dctl-index/src/index.rs:212-275 | A run whose sums fit throughout is one migration agrees with. |
| IndexHistory.MigrationCanDiffer | crates/dctl-index/src/index.rs:212-275 | A run after which migration and history differ although all sums fit; one step earlier the sums do not fit and the two agree. |
| IndexMigration.MigrationRepeats | crates/dctl-index/src/index.rs:212-275 | A second pass over a migrated state changes nothing. |
| IndexMigration.MigrationRepairsIff | crates/dctl-index/src/index.rs:212-275 | Over directory rows of whatever origin every count comes out right, and the result is the index of the files if and only if each row there was one for a directory of theirs. |
| IndexMigration.FreshRepresents | crates/dctl-index/src/index.rs:212-236 | A new database is the empty index. |
| Index.Carried.Absorb | crates/dctl-index/src/index.rs:632-653 | Absorbing a row counts each ancestor once and learns its size. |
| Index.Index.BumpDir | crates/dctl-index/src/index.rs:517-545 | One bump of one directory row: inserted, counted, or removed at zero. |
| Index.Index.ShiftTotals | crates/dctl-index/src/index.rs:551-576 | The totals row moves by the old and new record, saturating. |
| Paths.TotalsKeyIsNoPath | crates/dctl-index/src/index.rs:66-74 | The key the totals are sealed under is no accepted path's. |
| Index.Index.Put | crates/dctl-index/src/index.rs:291-323 | All three tables move as the transaction says, or none does. |
| Index.Index.Delete | crates/dctl-index/src/index.rs:380-399 | All three tables move, or none; the answer says whether a row was there. |
| Index.Index.Get | crates/dctl-index/src/index.rs:326-340 | On tables that stand for a map of paths to records, the answer of that map, never an error; in any state an error exactly for a row that does not open under its key. |
| Index.Index.ContainsDir | crates/dctl-index/src/index.rs:362-373 | True if and only if some stored path lies beneath the directory. |
| Index.Index.Children | crates/dctl-index/src/index.rs:458-471 | Shows the visitor files directly in a directory, each once, and all of them unless the visitor stopped it. |
| Index.Index.ForEach | crates/dctl-index/src/index.rs:434-446 | Shows the visitor stored records, each once, by ascending key, and stops exactly when the visitor says so: all records were shown, or the last answer was to stop and every record not shown has a greater key. |
| IndexWalk.KeyBelowIff | crates/dctl-index/src/index.rs:434-446 | The order of keys: at the first byte where they differ the lower key has the smaller one or ends. |
| Index.Index.ChildDirs | crates/dctl-index/src/index.rs:479-495 | Shows the visitor the directories directly in a directory, each once, and all of them unless the visitor stopped it. |
| Index.Index.Walk | crates/dctl-index/src/index.rs:434-495 | A recursive walk through children and child_dirs ends and lists every record beneath a directory exactly once; from the root, what for_each lists. |
| Index.Index.RewriteWithParents | crates/dctl-index/src/index.rs:240-275 | The row pass, in any order, gives every row its parent and the counts and sums of all rows; it fails exactly on a row that does not open. |
| Index.Index.Migrate | crates/dctl-index/src/index.rs:212-236 | The migrated state is the rebuilt one; a current version or a failure leaves the state alone. |
| Index.Index.WriteDirs | crates/dctl-index/src/index.rs:224-232 | Carried counts are set, not added, where a row is already there. |
| IndexWalk.WithinSplits | crates/dctl-index/src/index.rs:458-495 | A directory's tree is its own files and its subdirectories' trees. |
| IndexWalk.PartsDisjoint | crates/dctl-index/src/index.rs:458-495 | Those parts do not meet. |
| IndexWalk.ParentColumn | crates/dctl-index/src/index.rs:458-471 | The parent column selects exactly the files of a directory. |

## Left out

- Key and cipher strength: the AEAD, hashes, KDFs, KEMs and the random generator are functions; only framing, arithmetic and scheduling are proved.
- The insides of ChaCha20, HChaCha20, BLAKE2b's G and Argon2's fill_block: parameters, because no property here needs them.
- Argon2.Argon2idRaw: excludes the numbers of lanes from 2^29 on that the C code does not refuse: there it divides by zero, reads a block it has not written, or its block count wraps 32 bits.
- Argon2.Argon2idRaw: memory is measured in blocks; the byte size given to malloc and its failure are not modelled.
- ObjectRange.ReadChunks: the backend answers from fixed stored bytes, short at their end; one that serves different bytes for the same range is not modelled.
- ObjectWalk.StreamReaderTo: requires every window to ask for at least one chunk, as the constant in use does; write errors of the sink are not modelled.
- ObjectDecode.Decode: write errors of the output stream are not modelled; lengths are size_t of 64 bits.
- ObjectDecode.Decode: the trailing footer is not read, as in the C decoder; the walk is where the footer is checked.
- ObjectStream.EveryPlaintextHasObject: metadata texts are any bytes there, as for the C decoder; what the vault itself builds and reads is in ObjectMetadata.
- HeaderProbe.FetchHeader: the key-encapsulation block counts only by its length, since the probe never looks inside it.
- RangeOpen.OpenRangeIffSealed: the wrapping key is a parameter; recovering it from the key-encapsulation block is not modelled.
- Envelope.ParseEnvelope: the commit bytes of a slot are carried and never interpreted, as in the C decoder.
- Index.Index.ForEach: the visitor answers by what it has been shown so far, since a closure with state of its own can depend on nothing more.
- Index.Index.Get: `contains`, `count`, `totals` and `all` read the same tables in one line and are left out.
- Index.Index.Put: reference counts are unbounded integers where the table holds 64-bit ones.
- IndexTables.PutRefines: a row is sealed by an ideal AEAD and keys are injective; nonces and record serialisation are not modelled.
- Index.Index.Migrate: SQLite's transactions are taken as atomic; pragmas, WAL, SQLCipher, file modes and mutex poisoning are left out.
- Names.SealRecord: record_key is an arbitrary function of the path and the nonce is a parameter.
- Paths.ValidateIff: the table of assigned characters is an arbitrary predicate, and NFC normalisation happens before.
- The command line, the network backends, error code tables, spooling and metering: text, plumbing and easy cases.
