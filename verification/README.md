# A Dafny model of melodot's data availability core

melodot is a data availability chain. Applications submit blobs; a blob is extended to a row of
segments by an erasure code, rows are extended to columns, validators and light clients sample
segments, farmers index them. This project models that core in Dafny and proves what the code keeps
over all inputs and all runs.

The project has five parts.

1. **The erasure code and its layout** (`Algebra`, `Polynomials`, `Bits`, `Dft`, `ErasureCoding`,
   `Kzg`, `Segments`, `Recovery`, `Linearity`, `ExtendCol`, `Blobs`, `DataRecovery`). Scalars are an
   arbitrary field with a root of unity of order `maxWidth`; commitments and proofs are elements of
   an arbitrary module over it. The transforms `fft_fr` and `fft_g1` are given by their meaning:
   evaluation at, or interpolation from, the powers of a root of unity. Everything else is proved
   from the field laws: that interpolation inverts evaluation, that a polynomial is determined by
   half of its row, that the bit-reversed chunks are cosets, that parity columns form parity rows.
   `Assumptions.SettingsExist`, `Assumptions.KzgExists` and `Assumptions.ProverExists` show that these
   assumptions can be met.
2. **The pallet** (`MeloStore`, `MeloStoreRuns`, `MeloStoreReach`, `MeloStoreHistory`,
   `CommitmentQuery`): submitting, voting, session changes, finalization and header building as a
   class over its storage, and as a state machine whose runs are arbitrary sequences of calls.
3. **The farmer's index** (`ProofOfSpace`, `ProofOfSpaceIndex`, `IndexSelection`): incremental
   maintenance of the y and z tables in a key-value store, compared with a join of all saved cells.
4. **Headers, sampling and publishing** (`Header`, `Encoding`, `Sampling`, `Publishing`).
5. **Block assembly** (`RowAssembly`, `BlockPipeline`, `ParityProofs`): what a node makes of the
   values it fetched.

The library call `recover_poly_coeffs_from_samples`, the KZG prover and verifier, hashes, the
cipher, the SCALE codec of stored values and the random numbers of the sampler are parameters. The
recovery call is assumed to return some low-degree polynomial that agrees with the samples when one
exists; that it is the right one is proved. The proofs for all segments of a row (`data_availability`)
are assumed to be those for the cosets of the row in bit-reversed order; that each is the proof at the
`get_kzg_index` of its segment is proved. The check of a segment is assumed to be sound where a
theorem says so (`BlockPipeline.SoundChecker`): data that it accepts, of whatever size, are the values
of the row's polynomial on the coset of that size. Stored values carry no tag; whether the bytes of a
piece also decode as a list of cells, or the other way round, is a parameter (`ProofOfSpace.Farmer`).

Products and quotients of row sizes are written with the recursive functions `Times` and `Divided`,
which `Bits.TimesIsProduct` and `Bits.DividedIsQuotient` identify with `*` and `/`.

## Where the code does not meet its purpose

Each of these is a lemma with the exact condition, or with a family of inputs that shows it.

- The check of a fetched segment fixes no size: it accepts an opening of any power-of-two size at its
  own index. A row of segments of a wrong size is reported available and carries none of the row's
  data (`BlockPipeline.WrongSizeRow`). An available row, block and extension are right exactly if all
  verified segments have the right size (`BlockPipeline.RowDataRecovered`,
  `BlockPipeline.FetchedBlockExtends`).
- The callers of `get_kzg_index` pass different counts for the same row: 128, 256 or 16. A passed count
  gives the chunk's index exactly for chunk 0, or for chunks below twice that count if they fit the
  domain (`Kzg.PassedCountIndex`). So a row recovered through `recovery_order_row_from_segments`, which
  passes the extended width, gets its new proofs at the right index exactly for slot 0, or if the row
  fills at most half of the domain (`Kzg.ExtendedWidthIndex`). With the deployed constants it fills
  the whole domain, and every other slot gets index 0 (`Kzg.DeployedRecoveryIndex`); `verify_sample`
  checks only the first 32 of 256 columns at their index (`Kzg.DeployedSampleIndex`). The recovered
  data is right in all cases, the proofs are not: the parity proofs of a column are those of the parity
  polynomials exactly if all proofs of the column are right (`ParityProofs.ParityProofsExactly`), so
  exactly if each recovered segment of it got its chunk's proof in spite of that index
  (`ParityProofs.FetchedBlockProofs`).
- The cleanup in `on_finalize` removes at most `MaxBlobNum` entries, but a block may have `MaxKeys`
  blobs. Votes are left behind in some run exactly if `1 <= MaxBlobNum < MaxKeys`, as in the runtime
  (`MeloStoreReach.LeaksExactly`), and are never removed (`MeloStoreRuns.LeftoverIsPermanent`). They
  are harmless to the result: no vote is counted twice.
- The recorded votes on a blob are bounded by `MaxBlobNum`, so reports can vote a blob out exactly if a
  key is unused on it, there is room, and the votes that fit exceed half of the keys
  (`MeloStoreReach.VotedOutExactly`). For a blob without votes this means at least one and fewer than
  `2 * MaxBlobNum` keys (`MeloStoreReach.PowerWithoutVotes`).
- Votes are counted by key index, and `on_disabled` renumbers the keys: the holder of a key can vote
  again under the new index (`MeloStoreReach.DisablingRenumbers`). In a run one of three validators
  votes a blob out alone (`MeloStoreReach.VotesTwice`). A key is counted twice on a blob only if the
  list of keys changed in between or holds it twice (`MeloStoreRuns.OneVotePerKey`).
- The nonce is checked and stored under the newest app id, not the submitting one. Two accepted
  submissions share a nonce exactly if as many had been accepted before under their newest app ids
  (`MeloStoreRuns.NonceRepeatsExactly`), and a run accepts the same app id and nonce twice
  (`MeloStoreReach.NonceReused`); `start_at` and the sample ids then collide
  (`Header.StartAtReturns`, `Sampling.IdsDistinctExactly`).
- `extend_fs_g1` interleaves originals and parity. The pallet's `commitments` and the client's
  `sample_block` use its entry y for row y; it belongs to row y only for the first and the last row
  (`CommitmentQuery.InterleavedEntry`). In the pallet the answer for a row therefore changes once a
  parity row has been asked for (`CommitmentQuery.AnswerAfterQueries`).
- `commitments` answers for block n - 1 during block n, when votes on that block are still accepted. A
  run caches a list that the header does not have, and the query returns from it ever after
  (`CommitmentQuery.StaleCache`). The list of a past block is final exactly if its votes are over, that
  is from the finalization of the next block on, or if none of its blobs is both available and below
  `MaxBlobNum` votes (`CommitmentQuery.FinalExactly`).
- The count of a lookup is the number of submitted commitments, which nothing ties to the number of
  blobs that the application publishes: any admitted number of commitments can be submitted with any
  admitted length, and a run puts it into the lookups (`MeloStoreReach.CountUnchecked`). A sampled row
  of the application is published exactly if it is below the number of blobs
  (`Publishing.SampledIsPublished`).
- Keys of pieces and keys of y values share one database and can coincide
  (`ProofOfSpace.KeyCollision`). Pieces are then not saved: if no piece's bytes decode as a list of
  cells, `YValueManager::save` panics and `match_cells` fails, and a sequence of saves succeeds exactly
  if no y entry that it touches falls on a piece saved by then (`ProofOfSpaceIndex.SaveAllExactly`).
  If they do decode, the entry overwrites the piece (`ProofOfSpaceIndex.CollidingSave`).
- `ZValueManager::verify` accepts neighbouring cells with y = 0, which the index leaves out
  (`ProofOfSpaceIndex.VerifyExactly`), and cells in the order odd, even under a hash that the index does
  not use (`ProofOfSpaceIndex.VerifyOddFirst`).
- `fetch_rows` reports available whatever it fetched, since without stopping the handler never sets its
  flag (`RowAssembly.JoinedRegardless`).
- `select_indices` reads the bits of a byte from the highest down and goes round the end of the hash;
  `is_index_valid` reads them from the lowest up and does not
  (`IndexSelection.SelectionMatchesCheck`, `IndexSelection.BitOrdersDiffer`).

## Model

| member | source | states |
|---|---|---|
| Dft.ValuesOfCoefficients | crates/melo-erasure-coding/src/erasure_coding.rs:82-89 | interpolation followed by evaluation gives back the values, over any module and any power-of-two length |
| Dft.CoefficientsOfValues | crates/melo-erasure-coding/src/erasure_coding.rs:170-196 | evaluation followed by interpolation gives back the coefficients |
| Dft.RootsDistinct | crates/das-primitives/src/crypto/mod.rs:460-462 | the expanded roots of unity below the order are pairwise different |
| Polynomials.RootBound | crates/melo-erasure-coding/src/erasure_coding.rs:170-196 | a polynomial with as many distinct roots as coefficients is zero |
| Polynomials.UniqueInterpolant | crates/melo-erasure-coding/src/erasure_coding.rs:170-196 | two polynomials of n coefficients that agree at n points are equal |
| Bits.ReverseBitOrder | crates/melo-erasure-coding/src/erasure_coding.rs:59-65 | swapping in place puts at every index the element of the bit-reversed index |
| Bits.ReorderedTwice | crates/melo-erasure-coding/src/erasure_coding.rs:170-196 | the reordering undoes itself |
| Bits.BitRevSplit | crates/das-primitives/src/crypto/mod.rs:535-549 | reversing an index made of a chunk number and a place in the chunk swaps and reverses the two |
| Bits.ReverseBitsLimitedCorrect | crates/das-primitives/src/crypto/mod.rs:648-651 | for every chunk index, reversing a machine word and shifting by the leading zeros reverses the low bits of the index, one more than the length has |
| ErasureCoding.ExtendFsG1Interleaves | crates/melo-erasure-coding/src/erasure_coding.rs:82-89 | succeeds exactly for power-of-two lengths up to half the width; even entries are the input in order, odd entries the parity |
| ErasureCoding.ExtendAndReorderCorrect | crates/melo-erasure-coding/src/erasure_coding.rs:110-128 | the result is the input followed by its parity |
| ErasureCoding.ExtendPoly | crates/melo-erasure-coding/src/erasure_coding.rs:59-65 | fails exactly when the transform does; otherwise the values on the doubled domain in bit-reversed order |
| ErasureCoding.RecoverPolyInPlace | crates/melo-erasure-coding/src/erasure_coding.rs:170-196 | the buffer steps of the code compute the recovery that the theorems are about |
| ErasureCoding.AtMostOnePolynomial | crates/melo-erasure-coding/src/erasure_coding.rs:170-196 | at most one polynomial of degree below half the length agrees with samples of which half are known |
| ErasureCoding.RecoverPolyCorrect | crates/melo-erasure-coding/src/erasure_coding.rs:170-196 | from any erasure of a row that leaves half of it, the polynomial itself is recovered |
| Kzg.CosetLayout | crates/das-primitives/src/crypto/mod.rs:535-549 | value j of chunk i after the inner reordering is the evaluation at root index `get_kzg_index + j * (max_width / chunk_size)` |
| Kzg.ChunkIsCoset | crates/das-primitives/src/crypto/mod.rs:465-474 | so the chunk holds the values on the coset of the root at `get_kzg_index` |
| Kzg.OpensIsChunk | crates/das-primitives/src/crypto/mod.rs:535-549 | data of the chunk size agree, after the reordering, with the polynomial on the coset at `get_kzg_index` iff they are the chunk |
| Kzg.PassedCountIndex | crates/das-primitives/src/crypto/mod.rs:465-474 | for every power-of-two count passed in place of the row's, the index is the chunk's iff the chunk is 0, or below twice that count and so many chunks fit the domain |
| Kzg.ExtendedWidthIndex | crates/melo-erasure-coding/src/recovery.rs:122-151 | with the extended width as chunk count the proof index is that of the chunk iff the chunk is 0 or the row fills at most half of the domain |
| Kzg.DeployedRecoveryIndex | crates/melo-erasure-coding/src/recovery.rs:122-151 | with 128 chunks of 16 scalars on 4096 roots that index is 0 for every chunk, which is right only for chunk 0 |
| Kzg.DeployedSampleIndex | crates/core-primitives/src/reliability.rs:315-322 | with the segment size passed as count a sample is checked on its chunk's coset iff it is one of the first 32 columns |
| Segments.OrderSegmentsRow | crates/melo-erasure-coding/src/segment.rs:39-52 | fails exactly on no segments, too many, or different rows; slot x holds the last segment given for column x |
| Segments.LastAtExactly | crates/melo-erasure-coding/src/segment.rs:39-52 | a slot is empty iff no segment is in its column, and holds the content of the segment after which no other of the column comes |
| Segments.RowSlot | crates/melo-erasure-coding/src/segment.rs:101-113 | slot i covers chunk i of the row of scalars, missing slots are missing scalars |
| Segments.RowCount | crates/melo-erasure-coding/src/segment.rs:101-113 | each segment present contributes its size to the known scalars |
| Segments.PolyToSegmentVecCorrect | crates/melo-erasure-coding/src/segment.rs:131-154 | the segments are the chunks of the extended row, in order, at their positions, and cover it |
| Segments.PolyToSegmentVecProofs | crates/melo-erasure-coding/src/segment.rs:139-151 | each segment carries the proof that `compute_proof_multi` gives for its own position, with half of the number of segments as count |
| Kzg.IndexOfCoset | crates/das-primitives/src/crypto/mod.rs:465-474 | the root at `get_kzg_index` is the point of the chunk's coset, the reversed chunk index as power of the root of the row's order |
| Recovery.RecoverSegmentDatasCorrect | crates/melo-erasure-coding/src/recovery.rs:42-71 | whichever segments are erased, if half remain every slot gets the original data, kept slots keep their proof, the others get the proof computed at their index, and it fails only if that computation does |
| Recovery.RecoveredPositions | crates/melo-erasure-coding/src/recovery.rs:54-70 | whatever it is given, a successful recovery fills slot i with a segment at column i of the row and keeps the data and proofs it was given |
| Recovery.RecoveryRowFromSegments | crates/melo-erasure-coding/src/recovery.rs:81-107 | fails when the checks on count, row and size do; otherwise it is the recovery of the ordered row |
| Recovery.RecoveryRowCorrect | crates/melo-erasure-coding/src/recovery.rs:81-107 | segments of a row in any order, covering half of its columns, recover the row |
| Recovery.OrderRowChecksExactly | crates/melo-erasure-coding/src/recovery.rs:122-151 | the checks pass iff the slots are a power of two, one is filled, and all segments are of one row and size; otherwise the recovery fails |
| Recovery.RecoveryOrderRowCorrect | crates/melo-erasure-coding/src/recovery.rs:122-151 | slots of a row, half of them filled, recover the whole row |
| DataRecovery.SplitEraseRecover | crates/melo-erasure-coding/src/recovery.rs:42-71 | splitting a polynomial into segments, erasing any half of them and recovering gives the original data and positions in every slot |
| DataRecovery.SegmentsRecovered | crates/melo-erasure-coding/src/recovery.rs:42-71 | with half of the number of segments as count the recovery from any half never fails and returns the very segments, proofs included |
| DataRecovery.RowGivesBlob | crates/melo-erasure-coding/src/erasure_coding.rs:170-196 | half of the segments of a blob's row give back the blob |
| DataRecovery.BytesRecovered | crates/melo-erasure-coding/src/lib.rs:112-125 | bytes to blobs to rows, any half of the segments of each row kept: the recovered blobs, as bytes, are the original bytes followed by zeros |
| Linearity.ParityOfValues | crates/melo-erasure-coding/src/extend_col.rs:94-105 | extending the values of the rows at a point gives the values of the parity polynomials at that point |
| Linearity.ParityOfCombinations | crates/melo-erasure-coding/src/erasure_coding.rs:110-128 | extending commitments, or proofs, gives those of the parity polynomials |
| ExtendCol.SortByRow | crates/melo-erasure-coding/src/extend_col.rs:71-72 | a rearrangement with the rows in order |
| ExtendCol.Gather | crates/melo-erasure-coding/src/extend_col.rs:69-89 | all scalars are collected exactly when every segment passes the filter, and then in row order |
| ExtendCol.ExtendColumns | crates/melo-erasure-coding/src/extend_col.rs:94-105 | every `segment_size`-th scalar is a column; each is extended to its parity, or there is no room |
| ExtendCol.ExtendSegmentsCol | crates/melo-erasure-coding/src/extend_col.rs:48-118 | on a nonempty list it succeeds exactly for a column with one segment of each row 0..k, power-of-two sizes and room for 2k rows; the result is the same for every order of the input |
| ExtendCol.ParitySegmentsAreRows | crates/melo-erasure-coding/src/extend_col.rs:91-117 | parity segment i of column x is the segment at column x of the row of one parity polynomial, data and proof alike |
| ExtendCol.ExtendedCommitments | crates/melo-erasure-coding/src/erasure_coding.rs:110-128 | entry k + i of the extended commitments is the commitment of that parity polynomial, entry i that of row i |
| ExtendCol.ColumnSegmentsIsColumn | crates/melo-erasure-coding/src/extend_col.rs:52-89 | a column of extended rows in any order passes the checks |
| Blobs.SafeBytesRoundTrip | crates/das-primitives/src/crypto/mod.rs:310-340 | 31 bytes always make a scalar below the modulus, which gives them back |
| Blobs.BlobRoundTrip | crates/das-primitives/src/blob.rs:90-110 | bytes that fill whole scalars make a blob that gives them back |
| Blobs.ShortChunkFails | crates/das-primitives/src/blob.rs:90-100 | any other number of bytes is refused |
| Blobs.PaddedRoundTrip | crates/das-primitives/src/blob.rs:76-124 | padding never fails within the limit, and the bytes are the original ones followed by zeros |
| Blobs.BytesToBlobsCorrect | crates/melo-erasure-coding/src/lib.rs:112-125 | succeeds exactly on nonempty bytes and a power of two; ceil(len / 31n) blobs of n scalars whose bytes are the input followed by zeros |
| MeloStore.Pallet.constructor | crates/pallet-melo-store/src/lib.rs:913-919 | genesis state |
| MeloStore.Pallet.Submit | crates/pallet-melo-store/src/lib.rs:311-368 | the checks in order, each with its error and no change; else the blob appended to the current block and the nonce stored |
| MeloStore.Pallet.Report | crates/pallet-melo-store/src/lib.rs:379-430 | all votes of a report or none |
| MeloStore.Pallet.CastVotes | crates/pallet-melo-store/src/lib.rs:408-425 | the loop over the reported indexes equals the votes one after the other |
| MeloStore.Pallet.HandleVote | crates/pallet-melo-store/src/lib.rs:784-827 | duplicate and overflow errors; else the vote recorded and the blob judged against half of the keys |
| MeloStore.Pallet.Finalize | crates/pallet-melo-store/src/lib.rs:447-457 | removes some entries of the expired block, up to the limit, and nothing else |
| MeloStore.Pallet.HeaderList | crates/pallet-melo-store/src/lib.rs:848-857 | the lists of the available blobs of the block before |
| MeloStoreRuns.RunInv | crates/pallet-melo-store/src/lib.rs:379-457 | every state of every run satisfies the invariant: headers frozen, votes recorded and live, blobs judged, nonces ranked |
| MeloStoreRuns.HeaderFreeze | crates/pallet-melo-store/src/lib.rs:848-857 | what goes into header n > 1 at finalization equals the lists of block n - 1 in every later state |
| MeloStoreRuns.MajorityVote | crates/pallet-melo-store/src/lib.rs:784-827 | in every state a blob is unavailable iff at some accepted vote its distinct voters were more than half of the keys of that time; each held a key |
| MeloStoreRuns.NeverAvailableAgain | crates/pallet-melo-store/src/lib.rs:784-827 | an unavailable blob stays unavailable |
| MeloStoreRuns.NoDoubleCounting | crates/pallet-melo-store/src/lib.rs:387-396 | over a whole run no authority index is counted twice for one blob, although votes are erased |
| MeloStoreRuns.ManyKeysNeverFlip | crates/pallet-melo-store/src/lib.rs:800-826 | with at least twice `MaxBlobNum` keys no step of any kind changes the availability of a blob |
| MeloStoreReach.VotedOutExactly | crates/pallet-melo-store/src/lib.rs:784-827 | reports alone can make an available blob unavailable, whatever votes it has, iff some key is unused on it, there is room for a vote, and the votes with the unused keys, up to `MaxBlobNum`, are more than half of the keys |
| MeloStoreReach.PowerWithoutVotes | crates/pallet-melo-store/src/lib.rs:784-827 | for a blob without votes that means at least one and fewer than twice `MaxBlobNum` keys |
| MeloStoreReach.VotedOut | crates/pallet-melo-store/src/lib.rs:379-430 | under that condition reports make the blob unavailable and change no other blob, key or header |
| MeloStoreReach.DisablingRenumbers | crates/pallet-melo-store/src/lib.rs:941-945 | after a key before j is removed, the holder of key j has index j - 1 and can vote under it iff that index has not voted and there is room |
| MeloStoreReach.VotesTwice | crates/pallet-melo-store/src/lib.rs:941-945 | a run with three keys in which the holder of one votes under index 1, the key before it is disabled, and it votes again under index 0: the blob is unavailable by its votes alone |
| MeloStoreRuns.OneVotePerKey | crates/pallet-melo-store/src/lib.rs:387-396 | in every run two accepted votes on a blob are of the same key only if the list of keys changed between them or holds a key twice |
| MeloStoreRuns.FinalizeClearsExpired | crates/pallet-melo-store/src/lib.rs:447-457 | the votes of the expired block are all removed iff at most `MaxBlobNum` of its blobs have votes |
| MeloStoreRuns.VotesWindow | crates/pallet-melo-store/src/lib.rs:447-457 | with at most `MaxBlobNum` voted blobs per block, only votes on the last two blocks outlive finalization |
| MeloStoreRuns.SmallBlocksNeverLeak | crates/pallet-melo-store/src/lib.rs:447-457 | a configuration with `MaxKeys <= MaxBlobNum` never leaves votes behind |
| MeloStoreRuns.LeftoverIsPermanent | crates/pallet-melo-store/src/lib.rs:447-457 | votes left behind are never removed in any later state |
| MeloStoreReach.LeakingRun | crates/pallet-melo-store/src/lib.rs:447-457 | a run that leaves a vote behind, for every `1 <= MaxBlobNum < MaxKeys` |
| MeloStoreReach.LeaksExactly | crates/pallet-melo-store/src/lib.rs:447-457 | some run leaves votes behind iff `1 <= MaxBlobNum < MaxKeys` |
| MeloStoreRuns.NonceIsRank | crates/pallet-melo-store/src/lib.rs:317-356 | a nonce is the rank of its submission among those accepted under the same newest app id, hence unique there |
| MeloStoreRuns.NonceRepeatsExactly | crates/pallet-melo-store/src/lib.rs:317-356 | two accepted submissions share a nonce below saturation iff equally many were accepted before each under its newest app id; these app ids then differ |
| MeloStoreReach.NonceReused | crates/pallet-melo-store/src/lib.rs:317-356 | a run that accepts the same app id and nonce twice in one block, around a registration |
| MeloStoreHistory.BlobsAreSubmissions | crates/pallet-melo-store/src/lib.rs:311-368 | in every state of every run the blobs of a block are, in order, the submissions accepted in it, with their app id, account, nonce, commitments, proofs and length |
| MeloStoreHistory.AcceptedExactly | crates/pallet-melo-store/src/lib.rs:311-356 | in every state of every run a submission is accepted iff its numbers of commitments, proofs and bytes are within bounds, its app id was registered, its nonce is one more than the submissions accepted under the newest app id, and the block has room |
| MeloStoreHistory.SubmitErrors | crates/pallet-melo-store/src/lib.rs:311-356 | a refused submission gets the error of the first requirement that it misses |
| MeloStoreHistory.NewestIsCount | crates/pallet-melo-store/src/lib.rs:433-445 | the newest app id is the number of registrations modulo 2^32 |
| MeloStoreHistory.ListsInOrder | crates/pallet-melo-store/src/lib.rs:599-614 | the commitments of an available blob stand behind those of the available blobs before it, and its lookup behind theirs |
| MeloStoreHistory.HeaderFromCalls | crates/pallet-melo-store/src/lib.rs:848-857 | every header of every run lists exactly the submissions accepted in the block before that were not outvoted, in order: commitments at the sum of those before, app id, nonce and count at their number |
| MeloStoreHistory.VotesAcceptedExactly | crates/pallet-melo-store/src/lib.rs:408-425 | the votes of a report are all accepted iff no index repeats and each blob exists, has room and no vote of the authority |
| MeloStoreHistory.ReportAcceptedExactly | crates/pallet-melo-store/src/lib.rs:379-430 | a report is accepted iff it is in time, from the holder of a key, nonempty, and its votes are accepted |
| CommitmentQuery.CommitmentStore.Commitments | crates/pallet-melo-store/src/lib.rs:859-904 | no answer from the current block on; else from the cache, the block's list, or its extension, which is cached if it fits |
| CommitmentQuery.InterleavedEntry | crates/daser/src/client.rs:205-207 | entry y of the extended commitments belongs to row y / 2 or k + y / 2; to row y only if y is 0 or 2k - 1 |
| CommitmentQuery.CachedExactly | crates/pallet-melo-store/src/lib.rs:869-900 | after any queries the extension is cached iff it fits and a parity row was asked for |
| CommitmentQuery.AnswerAfterQueries | crates/pallet-melo-store/src/lib.rs:862-904 | after any queries: the interleaved entry if a parity row was asked for, else the entry of the block's list |
| CommitmentQuery.SettledForever | crates/pallet-melo-store/src/lib.rs:379-396 | from block n + 2 on, or the finalization of n + 1, the lists of block n never change |
| CommitmentQuery.FinalExactly | crates/pallet-melo-store/src/lib.rs:862-865 | no further steps can change the lists of a past block iff its votes are over or no available blob of it has room for a vote |
| CommitmentQuery.StaleCache | crates/pallet-melo-store/src/lib.rs:862-904 | a run in which a query caches a list, a vote empties the block, the header gets no commitments, and in every later state the query still returns the old commitment |
| ProofOfSpace.PieceKeyInjective | crates/proof-of-space/src/piece.rs:101-113 | piece keys determine the piece metadata |
| ProofOfSpace.YKeyInjective | crates/proof-of-space/src/y_value_manager.rs:114-123 | y keys determine position and y |
| ProofOfSpace.ZKeyInjective | crates/proof-of-space/src/z_value_manager.rs:94-95 | z keys determine z |
| ProofOfSpace.KeyCollision | crates/proof-of-space/src/y_value_manager.rs:114-123 | a piece key equals a y key iff the block number is y and the positions match |
| ProofOfSpace.Store.SaveY | crates/proof-of-space/src/y_value_manager.rs:138-155 | nothing for y = 0; else the cell appended to the list of its key |
| ProofOfSpace.Store.SaveZ | crates/proof-of-space/src/z_value_manager.rs:94-107 | the pair appended to the list of its z unless it is there |
| ProofOfSpace.Store.Save | crates/proof-of-space/src/piece.rs:164-202 | the piece stored, then each cell's y entry and pairs |
| ProofOfSpace.Store.SavePairs | crates/proof-of-space/src/piece.rs:180-197 | the pairs of one cell with its matches |
| ProofOfSpaceIndex.SaveCellExactly | crates/proof-of-space/src/piece.rs:175-202 | saving one more cell succeeds if the y entries it touches fall on no saved piece, and keeps the database equal to the tables; if no piece decodes as a list of cells it fails otherwise |
| ProofOfSpaceIndex.SaveAllExactly | crates/proof-of-space/src/piece.rs:164-202 | a sequence of saves of distinct pieces succeeds if no cell touches an entry that falls on a piece saved by then, and the database equals the tables afterwards; if no piece decodes as a list of cells it fails otherwise |
| ProofOfSpaceIndex.CollidingSave | crates/proof-of-space/src/y_value_manager.rs:138-155 | saving the first row of a block whose number is the y of its first segment fails, or, if its bytes decode as a list of cells, overwrites the piece |
| ProofOfSpaceIndex.ZTableIsJoin | crates/proof-of-space/src/y_value_manager.rs:127-155 | the incrementally built pairs are the join of all cells with themselves |
| ProofOfSpaceIndex.IndexIsJoin | crates/proof-of-space/src/z_value_manager.rs:94-107 | after saves that touch no entry falling on a saved piece, the pairs stored under z are exactly the joins under z, each once |
| ProofOfSpaceIndex.ExactlyOneOrder | crates/proof-of-space/src/piece.rs:164-202 | of two cells at an even and the next offset with the same nonzero y exactly one order is stored: the one with the later saved cell first |
| ProofOfSpaceIndex.SolutionsVerify | crates/proof-of-space/src/solution.rs:306-341 | the solutions read back are exactly the joins of saved cells under z, and with the even offset first each passes `ZValueManager::verify` |
| ProofOfSpaceIndex.SolutionsFollowPairs | crates/proof-of-space/src/solution.rs:306-341 | there is one solution for each pair stored under z, in their order |
| ProofOfSpaceIndex.VerifyExactly | crates/proof-of-space/src/z_value_manager.rs:135-149 | of two saved cells, the first at an even offset, the check accepts z iff one of the orders is a solution for z, or they are neighbours with y = 0 whose segments hash to z |
| ProofOfSpaceIndex.VerifyOddFirst | crates/proof-of-space/src/z_value_manager.rs:135-149 | with the odd offset first it accepts the same pairs, for the hash in this order |
| IndexSelection.SelectIndices | crates/proof-of-space/src/utils.rs:88-119 | exactly the indexes of the range that start a circular run of n set bits, increasing; none for n = 0, n > 256 or a bad range |
| IndexSelection.SelectionMatchesCheck | crates/proof-of-space/src/utils.rs:125-147 | on the hash with mirrored bytes the check accepts an index iff it is selected and its run does not go round the end |
| IndexSelection.CheckNeverWraps | crates/proof-of-space/src/utils.rs:125-147 | no bound on the index makes the check accept a run past the end of the hash |
| IndexSelection.WrappingSelected | crates/proof-of-space/src/utils.rs:98-110 | a run over the last and the first bit is selected and not accepted |
| IndexSelection.BitOrdersDiffer | crates/proof-of-space/src/utils.rs:67-69 | without mirroring selection and check disagree in both directions |
| Header.GetLookup | crates/core-primitives/src/header/extension.rs:47-61 | defined iff the row is below the total count; the lookup that covers the row, and the row's index in it |
| Header.CoverUnique | crates/core-primitives/src/header/extension.rs:47-61 | only one lookup covers a row |
| Header.StartAt | crates/core-primitives/src/header/extension.rs:101-112 | the first row of the first lookup with that app id and nonce, if there is one |
| Header.StartAtReturns | crates/core-primitives/src/header/extension.rs:101-112 | `start_at` plus the relative index is the row iff no earlier lookup has the same app id and nonce |
| Header.TotalIsCommitments | crates/pallet-melo-store/src/lib.rs:599-614 | the counts sum to the number of commitments iff none was truncated to 16 bits |
| Header.DecodeEncode | crates/core-primitives/src/header/mod.rs:225-241 | the commitments decode from the header's bytes to the list that was encoded |
| Header.HeaderAgrees | crates/core-primitives/src/header/mod.rs:225-249 | in every state of every run: a row is below `col_num` iff a lookup covers it, and its commitment is the one at the relative index of that lookup's blob |
| Sampling.SampleKeyInjective | crates/core-primitives/src/reliability.rs:407-413 | app sample keys determine app id, nonce and position |
| Sampling.BlockKeyInjective | crates/core-primitives/src/reliability.rs:416-421 | block sample keys determine the position |
| Sampling.EnoughDraws | crates/core-primitives/src/reliability.rs:344-356 | the drawing loop can end iff the grid has n positions |
| Sampling.Reliability.DrawPositions | crates/core-primitives/src/reliability.rs:344-356 | the first n different draws, each in range, with the commitment of its row |
| Sampling.Reliability.BlockSamples | crates/core-primitives/src/reliability.rs:370-393 | succeeds iff every drawn row of the first half is covered; each sample has the id of its position |
| Sampling.Reliability.SetSample | crates/core-primitives/src/reliability.rs:327-397 | for every outcome of the draw: when it fails, without change; else n samples at different positions in range, ids as published, commitments aligned |
| Sampling.IdsDistinctExactly | crates/core-primitives/src/reliability.rs:370-393 | the ids of a block's positions are pairwise different iff its nonempty lookups are |
| Sampling.SampledAppKey | crates/daser/src/network.rs:410-421 | a sample id of the first half is the key of a segment of an app iff it is the app and nonce of the sample's lookup and the segment is at the sampled place |
| Sampling.SampledExtKey | crates/daser/src/network.rs:391-408 | a sample id of the second half is the key of a published parity segment iff the positions agree, and never an app's |
| Publishing.BytesToSegmentsCorrect | crates/melo-erasure-coding/src/lib.rs:143-165 | one segment for every column and blob, row by row, each the chunk of its blob's row at its position, with the proof at its index |
| Publishing.SampledIsPublished | crates/daser/src/network.rs:423-432 | a sample id of the first half is the key of a published segment of its app iff the relative row is below the number of blobs, and then of the segment at the sampled place |
| Sampling.SuccessCountIsLongestRun | crates/core-primitives/src/reliability.rs:248-259 | the fold returns the length of the longest run of available samples |
| Sampling.AvailabilityExactly | crates/core-primitives/src/reliability.rs:208-214 | a block counts as available iff five consecutive samples are, an application iff a run of more than nine tenths of the samples, rounded down, is |
| Sampling.RunAtMostTotal | crates/core-primitives/src/reliability.rs:265-278 | it is at most the total that `value` counts |
| Sampling.Reliability.SetSampleSuccess | crates/core-primitives/src/reliability.rs:307-311 | marks the first sample at the position |
| Sampling.MarkingHelps | crates/core-primitives/src/reliability.rs:208-214 | marking never lowers the count nor turns available into unavailable |
| RowAssembly.VerifiedExactly | crates/daser/src/network.rs:627-653 | nothing is found iff no fetched value decodes to a segment of power-of-two size that proves right; otherwise the first that does |
| RowAssembly.VerifiedIsFound | crates/daser/src/network.rs:599-611 | a slot is filled iff a right value was fetched for it, and there are as many filled slots as such columns |
| RowAssembly.RowAvailableExactly | crates/daser/src/network.rs:611-625 | a row is available iff right values were fetched for half of its columns, rounded down, and, unless for all, the recovery succeeds |
| RowAssembly.AvailableRowIsFull | crates/daser/src/network.rs:593-625 | a row reported available is full with each segment in its place, whatever was fetched |
| RowAssembly.VerifiedIsKept | crates/daser/src/network.rs:593-625 | every segment that was verified is in its slot of the result, whether or not the row was recovered |
| RowAssembly.RowsHandler | crates/daser/src/network.rs:565-591 | the loop returns the rows joined in order, up to the first unavailable one if told to stop |
| RowAssembly.JoinedRegardless | crates/daser/src/network.rs:577-591 | if not told to stop, the rows are reported available whatever they are |
| RowAssembly.AvailableRowsAreFull | crates/daser/src/network.rs:565-591 | if told to stop and reported available, as many slots as values and each holds the segment of its row and column |
| RowAssembly.FullGridAt | crates/daser/src/network.rs:565-591 | slot i is at column i mod width and row i div width |
| RowAssembly.CollectCol | crates/daser/src/tx_pool_handler.rs:248-263 | the fold collects every `len`-th segment or fails at the first gap |
| RowAssembly.AvailableColumns | crates/daser/src/tx_pool_handler.rs:170-172 | then `full_col` succeeds for every column with one segment per row in row order |
| BlockPipeline.RowDataRecovered | crates/daser/src/network.rs:593-625 | with a sound check, an available row carries the row's data in every slot iff every verified segment has the right size |
| BlockPipeline.AvailableExactly | crates/daser/src/network.rs:593-625 | with a sound check and right sizes, a row is available iff right values were fetched for half of its columns and the proofs of the others can be computed |
| BlockPipeline.BlockAvailableExactly | crates/daser/src/network.rs:565-591 | a block is available iff every row is, entry y * width + x of the fetched values being that of column x of row y |
| BlockPipeline.WrongSizeRow | crates/das-primitives/src/segment.rs:89-118 | for every other power-of-two size, even the strictest sound check accepts a whole row of that size: available, and no slot carries the row's data |
| BlockPipeline.ColumnData | crates/daser/src/tx_pool_handler.rs:156-172 | every column of an available block holds the data of that column of the rows, in row order, iff every verified segment has the right size |
| BlockPipeline.FetchedBlockExtends | crates/daser/src/tx_pool_handler.rs:170-175 | every column of an available block passes the checks of `extend_segments_col` with a result that carries the parity polynomials' rows iff every verified segment has the right size |
| ParityProofs.ParityProofsExactly | crates/melo-erasure-coding/src/extend_col.rs:91-117 | the extended proofs of a column are the proofs of the parity polynomials iff every proof of the column is that of its row |
| ParityProofs.SlotProof | crates/melo-erasure-coding/src/recovery.rs:122-151 | in an available block a verified segment has the proof at its chunk's index, a recovered one the proof at the index that the extended width gives |
| ParityProofs.FetchedBlockProofs | crates/daser/src/tx_pool_handler.rs:170-175 | the parity proofs of a column of an available block are those of the parity polynomials iff every recovered segment of the column got its chunk's proof |
| ParityProofs.RecoveredProofIsRight | crates/melo-erasure-coding/src/recovery.rs:122-151 | that is so in column 0, and in every column if the rows fill at most half of the domain |

## Left out

- Pairings, curve arithmetic, FK20 proofs, trusted setup loading and Fiat-Shamir challenges: external libraries; commitments are used only through linearity and a sound checker.
- `recover` for columns, `order_segments_col` and `bytes_vec_to_blobs`: the same shape as the row versions and `bytes_to_blobs`.
- Networking, RPC, command line, node service, event loops, runtime configuration, weights and benchmarks: plumbing without logic of its own.
- pallet-farmers-fortune: its bookkeeping is easy and the rest is proof checking.
- `prepare_keys`, `cols_values_set_handler`, `fetch_cols`, `last_at`: their index conventions do not line up with their consumers.
- Offchain report sending, locks, and unsigned transaction validation: the model starts from a report that was dispatched.
- Blake2, ChaCha8 and SCALE internals: uninterpreted functions; keys use the fixed-width encodings.
- `fold_hash`, `hash_to_u16_xor`, `validate_leading_zeros`, `xor_byte_slices`: only easy members.
- Segments.OrderSegmentsRow: requires every x to be a slot of the row, since the code panics on others.
- Recovery.RecoveryRowFromSegments: requires at least one segment and every x to be a slot of the row, since the code panics otherwise, and that a full row has a length the transform accepts.
- RowAssembly.RowsHandler: requires a commitment for every row, since the code panics without one.
- Header.GetLookup: requires the counts to sum to a u32, since the sum in the code must not overflow; so does Header.StartAt.
- Sampling.Reliability.SetSample: the random draws are a parameter that holds enough different positions, which Sampling.EnoughDraws characterises.
- MeloStore.Pallet.OnDisabled: requires the index to be that of a key, since the code panics otherwise.
- Segments.PolyToSegmentVecProofs: assumes that the library returns the proofs of the cosets in bit-reversed order, and that the width of `usize` leaves room for the domain.
- Publishing.BytesToSegmentsCorrect: requires that every blob's row can be cut into segments, since the code panics otherwise.
- BlockPipeline.WrongSizeRow: does not model the number of G2 powers of the trusted setup, 65, which bounds the accepted sizes by 64.
- MeloStore.Pallet.Finalize: which entries are removed when there are more than the limit is a parameter, since it depends on hashes.
- CommitmentQuery.CommitmentStore.Commitments: requires a block number of at least 1, as in every block; reads the block's list from a given state of the pallet.
- ProofOfSpaceIndex.SaveAllExactly: is about one farmer and distinct pieces; that it fails otherwise is stated for pieces whose bytes do not decode as a list of cells, since the layout of those bytes is not modelled.
- ParityProofs.FetchedBlockProofs: assumes a prover that is linear in the polynomial and a check that accepts no other proof than the computed one; which proofs coincide by chance depends on the curve.
- DataRecovery.BytesRecovered: is about rows of a field on the modelled scalars given by the settings; that the scalars modulo the curve order form such a field is not proved.
