/**
 `pallet-melo-store/src/lib.rs`: the pallet that records submitted blobs and the validators' votes
 on their unavailability.
 */
module MeloStore {
  import Blobs

  // What the pallet stores but does not look into.
  type Commitment(==, !new)
  type Proof(==, !new)
  type AccountId(==, !new)
  type AuthorityId(==, !new)

  const DELAY_CHECK_THRESHOLD: nat := 1
  const BYTES_PER_BLOB: nat := 65536
  const U32_MAX: nat := 0xFFFF_FFFF

  datatype Config = Config(maxBlobNum: nat, maxKeys: nat)

  datatype BlobMetadata = BlobMetadata(
    appId: nat,
    from: AccountId,
    commitments: seq<Commitment>,
    proofs: seq<Proof>,
    bytesLen: nat,
    isAvailable: bool,
    nonce: nat)

  datatype SidecarMetadata = SidecarMetadata(
    appId: nat, bytesLen: nat, nonce: nat, commitments: seq<Commitment>, proofs: seq<Proof>)
  {
    predicate Check() {
      |commitments| == |proofs| && |commitments| > 0 && bytesLen > 0
    }
  }

  datatype UnavailableDataReport = UnavailableDataReport(atBlock: nat, authorityIndex: nat, indexSet: seq<nat>)

  datatype Error =
    | ExceedMaxBlobLimit
    | AppIdError
    | ExceedMaxBlobPerBlock
    | ExceedUnavailableDataConfirmTime
    | IndexSetIsEmpty
    | DataNotExist
    | DuplicateReportSubmission
    | ExceedMaxTotalVotes
    | ReportForFutureBlock
    | SubmittedDataIsInvalid
    | InvalidKey
    | NonceError

  datatype Outcome<+T> = Done(value: T) | Failed(error: Error) {
    predicate IsFailure() {
      Failed?
    }

    function PropagateFailure<U>(): Outcome<U>
      requires Failed?
    {
      Failed(error)
    }

    function Extract(): T
      requires Done?
    {
      value
    }
  }

  /** An entry of the vote table: a block and the index of a blob in it. */
  datatype BlobId = BlobId(block: nat, index: nat)

  /** The pallet's storage and the block number. */
  datatype State = State(
    metadata: map<nat, seq<BlobMetadata>>,
    votes: map<BlobId, seq<nat>>,
    nonces: map<nat, nat>,
    keys: seq<AuthorityId>,
    appId: nat,
    now: nat)
  {
    function BlobsAt(block: nat): seq<BlobMetadata> {
      if block in metadata then metadata[block] else []
    }

    function NonceOf(app: nat): nat {
      if app in nonces then nonces[app] else 0
    }
  }

  /** `Permill::mul_floor` */
  function MulFloor(parts: nat, n: nat): nat {
    n * parts / 1_000_000
  }

  /** 50% of the keys, rounded down. */
  function Threshold(keys: nat): (t: nat)
    ensures t == keys / 2
  {
    MulFloor(500_000, keys)
  }

  function SaturatingInc(n: nat): nat {
    if n >= U32_MAX then U32_MAX else n + 1
  }

  function BlobCount(bytesLen: nat): nat {
    Blobs.BlobCount(bytesLen, BYTES_PER_BLOB)
  }

  // ----- the calls as functions of the state; a failing call leaves the state as it was -----

  function SubmitData(cfg: Config, s: State, who: AccountId, params: SidecarMetadata): Outcome<State> {
    if !params.Check() then Failed(SubmittedDataIsInvalid)
    else if BlobCount(params.bytesLen) > cfg.maxBlobNum then Failed(ExceedMaxBlobLimit)
    else if params.appId > s.appId then Failed(AppIdError)
    else if params.nonce != SaturatingInc(s.NonceOf(s.appId)) then Failed(NonceError)
    else if |params.commitments| > cfg.maxBlobNum || |params.proofs| > cfg.maxBlobNum then Failed(ExceedMaxBlobPerBlock)
    else if |s.BlobsAt(s.now)| >= cfg.maxKeys then Failed(ExceedMaxBlobPerBlock)
    else
      var blob := BlobMetadata(params.appId, who, params.commitments, params.proofs, params.bytesLen, true, params.nonce);
      Done(s.(metadata := s.metadata[s.now := s.BlobsAt(s.now) + [blob]],
              nonces := s.nonces[s.appId := params.nonce]))
  }

  function RegisterApp(s: State): State {
    s.(appId := (s.appId + 1) % (U32_MAX + 1))
  }

  /** `handle_vote` on one blob. */
  function VoteOne(cfg: Config, s: State, block: nat, authority: nat, index: nat): Outcome<State> {
    if index >= |s.BlobsAt(block)| then Failed(DataNotExist) else
    var id := BlobId(block, index);
    var cast := if id in s.votes then s.votes[id] else [];
    if authority in cast then Failed(DuplicateReportSubmission)
    else if |cast| >= cfg.maxBlobNum then Failed(ExceedMaxTotalVotes)
    else
      var blobs := s.BlobsAt(block);
      var blob := if |cast| + 1 > Threshold(|s.keys|) then blobs[index].(isAvailable := false) else blobs[index];
      Done(s.(metadata := s.metadata[block := blobs[index := blob]], votes := s.votes[id := cast + [authority]]))
  }

  function VoteAll(cfg: Config, s: State, block: nat, authority: nat, indexes: seq<nat>): Outcome<State>
    decreases |indexes|
  {
    if |indexes| == 0 then Done(s) else
    var t :- VoteOne(cfg, s, block, authority, indexes[0]);
    VoteAll(cfg, t, block, authority, indexes[1..])
  }

  function ReportUnavailable(cfg: Config, s: State, report: UnavailableDataReport): Outcome<State> {
    if report.atBlock > s.now then Failed(ReportForFutureBlock)
    else if report.atBlock + DELAY_CHECK_THRESHOLD < s.now then Failed(ExceedUnavailableDataConfirmTime)
    else if |report.indexSet| == 0 then Failed(IndexSetIsEmpty)
    else if report.authorityIndex >= |s.keys| then Failed(InvalidKey)
    else VoteAll(cfg, s, report.atBlock, report.authorityIndex, report.indexSet)
  }

  /** The indexes of the blobs of a block that have votes recorded. */
  function VotedAt(s: State, block: nat): set<nat> {
    set id | id in s.votes && id.block == block :: id.index
  }

  /**
   The entries that `clear_prefix` may remove: all of them, or `limit` of them if there are more.
   Which ones depends on the hashes of the storage keys.
   */
  ghost predicate Clears(cfg: Config, s: State, block: nat, cleared: set<nat>) {
    && cleared <= VotedAt(s, block)
    && |cleared| == if |VotedAt(s, block)| <= cfg.maxBlobNum then |VotedAt(s, block)| else cfg.maxBlobNum
  }

  function WithoutVotes(s: State, block: nat, cleared: set<nat>): State {
    s.(votes := map id | id in s.votes && !(id.block == block && id.index in cleared) :: s.votes[id])
  }

  /** `on_finalize`: drop the votes of the block that can no longer be voted on. */
  function OnFinalize(s: State, cleared: set<nat>): State {
    if DELAY_CHECK_THRESHOLD + 1 >= s.now then s
    else WithoutVotes(s, s.now - (DELAY_CHECK_THRESHOLD + 1), cleared)
  }

  // ----- the header's lists -----

  datatype AppLookup = AppLookup(appId: nat, nonce: nat, count: nat)

  datatype HeaderLists = HeaderLists(commitments: seq<Commitment>, lookups: seq<AppLookup>)

  function Available(blobs: seq<BlobMetadata>): seq<BlobMetadata> {
    if |blobs| == 0 then []
    else Available(blobs[..|blobs| - 1]) + if blobs[|blobs| - 1].isAvailable then [blobs[|blobs| - 1]] else []
  }

  /** The lookup of a blob; the count is truncated to 16 bits. */
  function LookupOf(blob: BlobMetadata): AppLookup {
    AppLookup(blob.appId, blob.nonce, |blob.commitments| % 0x1_0000)
  }

  function Flatten(blobs: seq<BlobMetadata>): HeaderLists {
    if |blobs| == 0 then HeaderLists([], [])
    else
      var rest := Flatten(blobs[..|blobs| - 1]);
      var last := blobs[|blobs| - 1];
      HeaderLists(rest.commitments + last.commitments, rest.lookups + [LookupOf(last)])
  }

  /** `get_commitments_and_app_lookups` */
  function CommitmentsAndLookups(s: State, block: nat): HeaderLists {
    Flatten(Available(s.BlobsAt(block)))
  }

  /** `HeaderCommitList::last` */
  function Last(s: State): HeaderLists {
    if s.now <= DELAY_CHECK_THRESHOLD then HeaderLists([], [])
    else CommitmentsAndLookups(s, s.now - DELAY_CHECK_THRESHOLD)
  }

  // ----- the pallet -----

  class Pallet {
    const cfg: Config
    var metadata: map<nat, seq<BlobMetadata>>
    var votes: map<BlobId, seq<nat>>
    var nonces: map<nat, nat>
    var keys: seq<AuthorityId>
    var appId: nat
    var blockNumber: nat

    ghost function Storage(): State
      reads this
    {
      State(metadata, votes, nonces, keys, appId, blockNumber)
    }

    /** Genesis: `initialize_keys` with the keys of the first session. */
    constructor (cfg: Config, genesisKeys: seq<AuthorityId>)
      requires |genesisKeys| <= cfg.maxKeys
      ensures this.cfg == cfg
      ensures Storage() == State(map[], map[], map[], genesisKeys, 0, 1)
    {
      this.cfg := cfg;
      metadata, votes, nonces := map[], map[], map[];
      keys, appId, blockNumber := genesisKeys, 0, 1;
    }

    method Submit(who: AccountId, params: SidecarMetadata) returns (r: Outcome<nat>)
      modifies this
      ensures match SubmitData(cfg, old(Storage()), who, params)
              case Done(s) => r == Done(|old(Storage()).BlobsAt(old(blockNumber))|) && Storage() == s
              case Failed(e) => r == Failed(e) && Storage() == old(Storage())
    {
      if !params.Check() {
        return Failed(SubmittedDataIsInvalid);
      }
      if BlobCount(params.bytesLen) > cfg.maxBlobNum {
        return Failed(ExceedMaxBlobLimit);
      }
      var currentAppId := appId;
      if params.appId > currentAppId {
        return Failed(AppIdError);
      }
      var currentNonce := if currentAppId in nonces then nonces[currentAppId] else 0;
      if params.nonce != SaturatingInc(currentNonce) {
        return Failed(NonceError);
      }
      if |params.commitments| > cfg.maxBlobNum || |params.proofs| > cfg.maxBlobNum {
        return Failed(ExceedMaxBlobPerBlock);
      }
      var blobs := if blockNumber in metadata then metadata[blockNumber] else [];
      if |blobs| >= cfg.maxKeys {
        return Failed(ExceedMaxBlobPerBlock);
      }
      var blob := BlobMetadata(params.appId, who, params.commitments, params.proofs, params.bytesLen, true, params.nonce);
      metadata := metadata[blockNumber := blobs + [blob]];
      nonces := nonces[currentAppId := params.nonce];
      r := Done(|blobs|);
    }

    /**
     `report`. The votes are written to storage one by one and the blobs to a copy; if one index
     fails, the storage layer around the call discards the votes written so far.
     */
    method Report(report: UnavailableDataReport) returns (r: Outcome<()>)
      modifies this
      ensures match ReportUnavailable(cfg, old(Storage()), report)
              case Done(s) => r == Done(()) && Storage() == s
              case Failed(e) => r == Failed(e) && Storage() == old(Storage())
    {
      if report.atBlock > blockNumber {
        return Failed(ReportForFutureBlock);
      }
      if report.atBlock + DELAY_CHECK_THRESHOLD < blockNumber {
        return Failed(ExceedUnavailableDataConfirmTime);
      }
      if |report.indexSet| == 0 {
        return Failed(IndexSetIsEmpty);
      }
      if report.authorityIndex >= |keys| {
        return Failed(InvalidKey);
      }
      var block := report.atBlock;
      var blobs := if block in metadata then metadata[block] else [];
      var savedVotes := votes;
      assert block in metadata ==> With(block, blobs) == Storage();
      var updated := CastVotes(block, report.authorityIndex, report.indexSet, blobs);
      if updated.Failed? {
        votes := savedVotes;
        return Failed(updated.error);
      }
      metadata := metadata[block := updated.value];
      r := Done(());
    }

    /** The storage as it would be with these blobs in the block. */
    ghost function With(block: nat, blobs: seq<BlobMetadata>): State
      reads this
    {
      Storage().(metadata := metadata[block := blobs])
    }

    /** The loop of `report` over the reported indexes, on a copy of the block's blobs. */
    method CastVotes(block: nat, authority: nat, indexes: seq<nat>,
        blobs: seq<BlobMetadata>) returns (r: Outcome<seq<BlobMetadata>>)
      modifies this`votes
      ensures match VoteAll(cfg, old(With(block, blobs)), block, authority, indexes)
              case Done(s) => r.Done? && s == With(block, r.value)
              case Failed(e) => r == Failed(e)
    {
      r := Done(blobs);
      ghost var goal := VoteAll(cfg, With(block, blobs), block, authority, indexes);
      assert indexes[0..] == indexes;
      for i := 0 to |indexes|
        invariant r.Done? && goal == VoteAll(cfg, With(block, r.value), block, authority, indexes[i..])
      {
        assert indexes[i..][1..] == indexes[i + 1..];
        r := CastVote(block, authority, indexes[i], r.value);
        if r.Failed? {
          return;
        }
      }
    }

    /** One pass of the loop: the vote on one blob of the copy. */
    method CastVote(block: nat, authority: nat, index: nat,
        blobs: seq<BlobMetadata>) returns (r: Outcome<seq<BlobMetadata>>)
      modifies this`votes
      ensures match VoteOne(cfg, old(With(block, blobs)), block, authority, index)
              case Done(s) => r.Done? && s == With(block, r.value)
              case Failed(e) => r == Failed(e)
    {
      if index >= |blobs| {
        return Failed(DataNotExist);
      }
      var blob := HandleVote(block, authority, index, blobs[index]);
      if blob.Failed? {
        return Failed(blob.error);
      }
      assert metadata[block := blobs][block := blobs[index := blob.value]] == metadata[block := blobs[index := blob.value]];
      r := Done(blobs[index := blob.value]);
    }

    /** `handle_vote`: record one authority's vote on one blob and judge the blob by the votes so far. */
    method HandleVote(block: nat, authority: nat, index: nat, blob: BlobMetadata) returns (r: Outcome<BlobMetadata>)
      modifies this`votes
      ensures var cast := if BlobId(block, index) in old(votes) then old(votes)[BlobId(block, index)] else [];
        if authority in cast then r == Failed(DuplicateReportSubmission) && votes == old(votes)
        else if |cast| >= cfg.maxBlobNum then r == Failed(ExceedMaxTotalVotes) && votes == old(votes)
        else
          && votes == old(votes)[BlobId(block, index) := cast + [authority]]
          && r == Done(if |cast| + 1 > |keys| / 2 then blob.(isAvailable := false) else blob)
    {
      var id := BlobId(block, index);
      var cast := if id in votes then votes[id] else [];
      if authority in cast {
        return Failed(DuplicateReportSubmission);
      }
      if |cast| >= cfg.maxBlobNum {
        return Failed(ExceedMaxTotalVotes);
      }
      votes := votes[id := cast + [authority]];
      r := Done(if |cast| + 1 > Threshold(|keys|) then blob.(isAvailable := false) else blob);
    }

    method Register()
      modifies this`appId
      ensures Storage() == RegisterApp(old(Storage()))
    {
      appId := (appId + 1) % (U32_MAX + 1);
    }

    /** `on_finalize`; the storage backend decides which entries go when there are too many. */
    method Finalize(cleared: set<nat>)
      requires DELAY_CHECK_THRESHOLD + 1 < blockNumber ==>
                 Clears(cfg, Storage(), blockNumber - (DELAY_CHECK_THRESHOLD + 1), cleared)
      modifies this`votes
      ensures Storage() == OnFinalize(old(Storage()), cleared)
    {
      if DELAY_CHECK_THRESHOLD + 1 >= blockNumber {
        return;
      }
      var expired := blockNumber - (DELAY_CHECK_THRESHOLD + 1);
      votes := map id | id in votes && !(id.block == expired && id.index in cleared) :: votes[id];
    }

    /** `on_new_session` keeps all the keys, even more than the maximum. */
    method OnNewSession(newKeys: seq<AuthorityId>)
      modifies this`keys
      ensures Storage() == old(Storage()).(keys := newKeys)
    {
      keys := newKeys;
    }

    /** `on_disabled` removes a key and so renumbers the ones behind it. */
    method OnDisabled(i: nat)
      requires i < |keys|
      modifies this`keys
      ensures Storage() == old(Storage()).(keys := old(keys)[..i] + old(keys)[i + 1..])
    {
      keys := keys[..i] + keys[i + 1..];
    }

    method NextBlock()
      modifies this`blockNumber
      ensures Storage() == old(Storage()).(now := old(blockNumber) + 1)
    {
      blockNumber := blockNumber + 1;
    }

    /** `HeaderCommitList::last` with the fold of the code over the block's blobs. */
    method HeaderList() returns (r: HeaderLists)
      ensures r == Last(Storage())
    {
      if blockNumber <= DELAY_CHECK_THRESHOLD {
        return HeaderLists([], []);
      }
      var at := blockNumber - DELAY_CHECK_THRESHOLD;
      var blobs := if at in metadata then metadata[at] else [];
      var commitments: seq<Commitment>, lookups: seq<AppLookup> := [], [];
      for i := 0 to |blobs|
        invariant HeaderLists(commitments, lookups) == Flatten(Available(blobs[..i]))
      {
        assert blobs[..i + 1][..i] == blobs[..i];
        ghost var kept := Available(blobs[..i]);
        assert kept + [] == kept;
        if blobs[i].isAvailable {
          assert (kept + [blobs[i]])[..|kept|] == kept;
          lookups := lookups + [LookupOf(blobs[i])];
          commitments := commitments + blobs[i].commitments;
        }
      }
      assert blobs[..|blobs|] == blobs;
      r := HeaderLists(commitments, lookups);
    }
  }
}
