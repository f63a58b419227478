/**
 What the pallet stores and puts into headers, told by the calls that it accepted: the blobs of a
 block are the submissions accepted in it, and a header lists those that were not outvoted.
 */
module MeloStoreHistory {
  import opened Sequences
  import opened Wrappers
  import opened MeloStore
  import opened MeloStoreRuns
  import opened MeloStoreReach

  // ----- the blobs of a block are the submissions accepted in it -----

  /** The submissions accepted in the block, in order. */
  function Within(subs: seq<Submission>, block: nat): seq<Submission> {
    if |subs| == 0 then []
    else
      var last := subs[|subs| - 1];
      Within(subs[..|subs| - 1], block) + if last.block == block then [last] else []
  }

  lemma WithinAppend(subs: seq<Submission>, x: Submission, block: nat)
    ensures Within(subs + [x], block) == Within(subs, block) + if x.block == block then [x] else []
  {
    assert (subs + [x])[..|subs|] == subs;
  }

  /** The blob holds what was submitted, by the account that submitted it. */
  predicate Holds(blob: BlobMetadata, x: Submission) {
    && blob.appId == x.params.appId && blob.from == x.who && blob.nonce == x.params.nonce
    && blob.commitments == x.params.commitments && blob.proofs == x.params.proofs
    && blob.bytesLen == x.params.bytesLen
  }

  ghost predicate BlockHolds(blobs: seq<BlobMetadata>, subs: seq<Submission>) {
    |blobs| == |subs| && forall i :: 0 <= i < |blobs| ==> Holds(blobs[i], subs[i])
  }

  ghost predicate AllHeld(c: Chain) {
    forall b: nat :: BlockHolds(c.st.BlobsAt(b), Within(c.submissions, b))
  }

  /** Apart from their availability, the blobs are the same. */
  ghost predicate SameBlobs(s: State, t: State) {
    forall b: nat ::
      && |s.BlobsAt(b)| == |t.BlobsAt(b)|
      && forall i :: 0 <= i < |s.BlobsAt(b)| ==>
           t.BlobsAt(b)[i] == s.BlobsAt(b)[i].(isAvailable := t.BlobsAt(b)[i].isAvailable)
  }

  lemma VoteKeepsBlobs(cfg: Config, s: State, block: nat, authority: nat, index: nat)
    requires VoteOne(cfg, s, block, authority, index).Done?
    ensures SameBlobs(s, VoteOne(cfg, s, block, authority, index).value)
  {
    VoteEffect(cfg, s, block, authority, index);
  }

  lemma {:induction false} ReportKeepsBlobs(cfg: Config, s: State, block: nat, authority: nat, indexes: seq<nat>)
    requires VoteAll(cfg, s, block, authority, indexes).Done?
    ensures SameBlobs(s, VoteAll(cfg, s, block, authority, indexes).value)
    decreases |indexes|
  {
    if |indexes| > 0 {
      VoteKeepsBlobs(cfg, s, block, authority, indexes[0]);
      ReportKeepsBlobs(cfg, VoteOne(cfg, s, block, authority, indexes[0]).value, block, authority, indexes[1..]);
    }
  }

  lemma SameMetadata(s: State, t: State)
    requires s.metadata == t.metadata
    ensures SameBlobs(s, t)
  {
    assert forall b: nat :: s.BlobsAt(b) == t.BlobsAt(b);
  }

  lemma SameBlobsHeld(c: Chain, d: Chain)
    requires AllHeld(c) && SameBlobs(c.st, d.st) && d.submissions == c.submissions
    ensures AllHeld(d)
  {
    forall b: nat ensures BlockHolds(d.st.BlobsAt(b), Within(d.submissions, b)) {
      assert BlockHolds(c.st.BlobsAt(b), Within(c.submissions, b));
    }
  }

  lemma SubmitHeld(cfg: Config, c: Chain, who: AccountId, params: SidecarMetadata)
    requires AllHeld(c) && SubmitData(cfg, c.st, who, params).Done?
    ensures AllHeld(Submitted(cfg, c, who, params))
  {
    var d, x := Submitted(cfg, c, who, params), Submission(c.st.now, c.st.appId, who, params);
    forall b: nat ensures BlockHolds(d.st.BlobsAt(b), Within(d.submissions, b)) {
      assert BlockHolds(c.st.BlobsAt(b), Within(c.submissions, b));
      WithinAppend(c.submissions, x, b);
    }
  }

  lemma StepHeld(cfg: Config, c: Chain, step: Step, d: Chain)
    requires AllHeld(c) && Next(cfg, c, step, d)
    ensures AllHeld(d)
  {
    match step
    case Submitting(who, params) =>
      if SubmitData(cfg, c.st, who, params).Done? {
        SubmitHeld(cfg, c, who, params);
      }
    case Reporting(report) =>
      if ReportUnavailable(cfg, c.st, report).Done? {
        ReportKeepsBlobs(cfg, c.st, report.atBlock, report.authorityIndex, report.indexSet);
        SameBlobsHeld(c, d);
      }
    case _ =>
      SameMetadata(c.st, d.st);
      SameBlobsHeld(c, d);
  }

  /**
   In every state of every run the blobs of a block are, in order, the submissions accepted in that
   block, each with its app id, account, nonce, commitments, proofs and length.
   */
  lemma {:induction false} BlobsAreSubmissions(cfg: Config, run: seq<Chain>, j: nat)
    requires IsRun(cfg, run) && j < |run|
    ensures AllHeld(run[j])
  {
    if j > 0 {
      BlobsAreSubmissions(cfg, run, j - 1);
      assert StepAt(cfg, run, j - 1);
      var step :| Next(cfg, run[j - 1], step, run[j]);
      StepHeld(cfg, run[j - 1], step, run[j]);
    }
  }

  /** In every state of every run the newest app id is the number of apps registered, modulo 2^32. */
  lemma {:induction false} NewestIsCount(cfg: Config, run: seq<Chain>, j: nat)
    requires IsRun(cfg, run) && j < |run|
    ensures run[j].st.appId == run[j].registered % 0x1_0000_0000
  {
    if j > 0 {
      NewestIsCount(cfg, run, j - 1);
      assert StepAt(cfg, run, j - 1);
      var step :| Next(cfg, run[j - 1], step, run[j]);
      StepCounts(cfg, run[j - 1], step, run[j]);
    }
  }

  lemma {:induction false} ReportKeepsApp(cfg: Config, s: State, block: nat, authority: nat, indexes: seq<nat>)
    requires VoteAll(cfg, s, block, authority, indexes).Done?
    ensures VoteAll(cfg, s, block, authority, indexes).value.appId == s.appId
    decreases |indexes|
  {
    if |indexes| > 0 {
      ReportKeepsApp(cfg, VoteOne(cfg, s, block, authority, indexes[0]).value, block, authority, indexes[1..]);
    }
  }

  lemma StepCounts(cfg: Config, c: Chain, step: Step, d: Chain)
    requires c.st.appId == c.registered % 0x1_0000_0000 && Next(cfg, c, step, d)
    ensures d.st.appId == d.registered % 0x1_0000_0000
  {
    match step
    case Reporting(report) =>
      if ReportUnavailable(cfg, c.st, report).Done? {
        ReportKeepsApp(cfg, c.st, report.atBlock, report.authorityIndex, report.indexSet);
      }
    case _ =>
  }

  lemma CountWithin(bytesLen: nat, n: nat)
    requires bytesLen > 0
    ensures BlobCount(bytesLen) <= n <==> bytesLen <= BYTES_PER_BLOB * n
  {
  }

  /**
   In every state of every run a submission is accepted exactly if it has a proof for each of its
   commitments, between one and `MaxBlobNum` of them; a length of at least one byte that makes at most
   `MaxBlobNum` blobs; an app id up to the newest; the number of submissions accepted before under the
   newest app id, plus one, as nonce; and if fewer than `MaxKeys` were accepted in the block.
   */
  lemma AcceptedExactly(cfg: Config, run: seq<Chain>, j: nat, who: AccountId, params: SidecarMetadata)
    requires IsRun(cfg, run) && j < |run|
    ensures var c := run[j];
      SubmitData(cfg, c.st, who, params).Done? <==>
        && |params.commitments| == |params.proofs| && 1 <= |params.commitments| <= cfg.maxBlobNum
        && 1 <= params.bytesLen <= BYTES_PER_BLOB * cfg.maxBlobNum
        && params.appId <= c.registered % 0x1_0000_0000
        && params.nonce == Capped(Under(c.submissions, c.registered % 0x1_0000_0000) + 1)
        && |Within(c.submissions, c.st.now)| < cfg.maxKeys
  {
    var c := run[j];
    RunInv(cfg, run, j);
    NewestIsCount(cfg, run, j);
    BlobsAreSubmissions(cfg, run, j);
    assert BlockHolds(c.st.BlobsAt(c.st.now), Within(c.submissions, c.st.now));
    assert c.st.NonceOf(c.st.appId) == Capped(Under(c.submissions, c.st.appId));
    if params.bytesLen > 0 {
      CountWithin(params.bytesLen, cfg.maxBlobNum);
    }
  }

  /** The error of the first requirement that is not met. */
  function FirstMissed(requirements: seq<(bool, Error)>): Option<Error> {
    if |requirements| == 0 then None
    else if !requirements[0].0 then Some(requirements[0].1)
    else FirstMissed(requirements[1..])
  }

  /** A refused submission is told the first requirement that it does not meet, in this order. */
  lemma SubmitErrors(cfg: Config, s: State, who: AccountId, params: SidecarMetadata)
    ensures var missed := FirstMissed([
        (|params.commitments| == |params.proofs| > 0 && params.bytesLen > 0, SubmittedDataIsInvalid),
        (params.bytesLen <= BYTES_PER_BLOB * cfg.maxBlobNum, ExceedMaxBlobLimit),
        (params.appId <= s.appId, AppIdError),
        (params.nonce == SaturatingInc(s.NonceOf(s.appId)), NonceError),
        (|params.commitments| <= cfg.maxBlobNum && |s.BlobsAt(s.now)| < cfg.maxKeys, ExceedMaxBlobPerBlock)]);
      && (missed.None? <==> SubmitData(cfg, s, who, params).Done?)
      && (missed.Some? ==> SubmitData(cfg, s, who, params) == Failed(missed.value))
  {
    var check := |params.commitments| == |params.proofs| > 0 && params.bytesLen > 0;
    if check {
      CountWithin(params.bytesLen, cfg.maxBlobNum);
    }
    FirstOfFive((check, SubmittedDataIsInvalid), (params.bytesLen <= BYTES_PER_BLOB * cfg.maxBlobNum, ExceedMaxBlobLimit),
                (params.appId <= s.appId, AppIdError), (params.nonce == SaturatingInc(s.NonceOf(s.appId)), NonceError),
                (|params.commitments| <= cfg.maxBlobNum && |s.BlobsAt(s.now)| < cfg.maxKeys, ExceedMaxBlobPerBlock));
  }

  lemma FirstOf(a: (bool, Error), rest: seq<(bool, Error)>)
    ensures FirstMissed([a] + rest) == if !a.0 then Some(a.1) else FirstMissed(rest)
  {
    assert ([a] + rest)[1..] == rest;
  }

  lemma FirstOfFive(a: (bool, Error), b: (bool, Error), c: (bool, Error), d: (bool, Error), e: (bool, Error))
    ensures FirstMissed([a, b, c, d, e]) ==
      if !a.0 then Some(a.1) else if !b.0 then Some(b.1) else if !c.0 then Some(c.1)
      else if !d.0 then Some(d.1) else if !e.0 then Some(e.1) else None
  {
    FirstOf(a, [b, c, d, e]);
    FirstOf(b, [c, d, e]);
    FirstOf(c, [d, e]);
    FirstOf(d, [e]);
    FirstOf(e, []);
    assert [a, b, c, d, e] == [a] + [b, c, d, e];
    assert [b, c, d, e] == [b] + [c, d, e];
    assert [c, d, e] == [c] + [d, e];
    assert [d, e] == [d] + [e];
    assert [e] == [e] + [];
  }

  // ----- the order of the header's lists -----

  /** The commitments of the available ones among the first i blobs. */
  function RowsBefore(blobs: seq<BlobMetadata>, i: nat): nat
    requires i <= |blobs|
  {
    if i == 0 then 0
    else RowsBefore(blobs, i - 1) + if blobs[i - 1].isAvailable then |blobs[i - 1].commitments| else 0
  }

  /** The number of available ones among the first i blobs. */
  function KeptBefore(blobs: seq<BlobMetadata>, i: nat): nat
    requires i <= |blobs|
  {
    if i == 0 then 0 else KeptBefore(blobs, i - 1) + if blobs[i - 1].isAvailable then 1 else 0
  }

  lemma {:induction false} BeforePrefix(blobs: seq<BlobMetadata>, n: nat, i: nat)
    requires i <= n <= |blobs|
    ensures RowsBefore(blobs[..n], i) == RowsBefore(blobs, i) && KeptBefore(blobs[..n], i) == KeptBefore(blobs, i)
  {
    if i > 0 {
      BeforePrefix(blobs, n, i - 1);
    }
  }

  /** The lists give the commitments of blob i at its row, and its lookup at its place. */
  ghost predicate ListedAt(lists: HeaderLists, row: nat, place: nat, appId: nat, nonce: nat, commitments: seq<Commitment>) {
    && row + |commitments| <= |lists.commitments| && lists.commitments[row..row + |commitments|] == commitments
    && place < |lists.lookups| && lists.lookups[place] == AppLookup(appId, nonce, |commitments| % 0x1_0000)
  }

  ghost predicate Listed(lists: HeaderLists, blobs: seq<BlobMetadata>, i: nat)
    requires i < |blobs|
  {
    ListedAt(lists, RowsBefore(blobs, i), KeptBefore(blobs, i), blobs[i].appId, blobs[i].nonce, blobs[i].commitments)
  }

  lemma ListedLonger(lists: HeaderLists, more: HeaderLists, row: nat, place: nat, appId: nat, nonce: nat,
      commitments: seq<Commitment>)
    requires ListedAt(lists, row, place, appId, nonce, commitments)
    requires lists.commitments <= more.commitments && lists.lookups <= more.lookups
    ensures ListedAt(more, row, place, appId, nonce, commitments)
  {
  }

  lemma FlattenSnoc(kept: seq<BlobMetadata>, blob: BlobMetadata)
    ensures Flatten(kept + [blob]) ==
      HeaderLists(Flatten(kept).commitments + blob.commitments, Flatten(kept).lookups + [LookupOf(blob)])
  {
    assert (kept + [blob])[..|kept|] == kept;
  }

  /** The lists of the blobs without the last, and with it. */
  lemma ListsSnoc(blobs: seq<BlobMetadata>, n: nat)
    requires |blobs| == n + 1
    ensures var before, lists := Flatten(Available(blobs[..n])), Flatten(Available(blobs));
      lists == if blobs[n].isAvailable
               then HeaderLists(before.commitments + blobs[n].commitments, before.lookups + [LookupOf(blobs[n])])
               else before
  {
    if blobs[n].isAvailable {
      FlattenSnoc(Available(blobs[..n]), blobs[n]);
    } else {
      assert Available(blobs) == Available(blobs[..n]);
    }
  }

  lemma {:induction false} ListLengths(blobs: seq<BlobMetadata>)
    ensures var lists := Flatten(Available(blobs));
      |lists.commitments| == RowsBefore(blobs, |blobs|) && |lists.lookups| == KeptBefore(blobs, |blobs|)
  {
    if |blobs| > 0 {
      var n := |blobs| - 1;
      ListLengths(blobs[..n]);
      BeforePrefix(blobs, n, n);
      ListsSnoc(blobs, n);
    }
  }

  /**
   The lists of a block follow the order of its blobs: the commitments of an available blob stand
   behind those of the available blobs before it, and its lookup behind theirs.
   */
  lemma {:induction false} ListsInOrder(blobs: seq<BlobMetadata>, i: nat)
    requires i < |blobs| && blobs[i].isAvailable
    ensures Listed(Flatten(Available(blobs)), blobs, i)
  {
    var n := |blobs| - 1;
    ListsSnoc(blobs, n);
    if i < n {
      ListsInOrder(blobs[..n], i);
      BeforePrefix(blobs, n, i);
      ListedLonger(Flatten(Available(blobs[..n])), Flatten(Available(blobs)), RowsBefore(blobs, i), KeptBefore(blobs, i),
                   blobs[i].appId, blobs[i].nonce, blobs[i].commitments);
    } else {
      ListLengths(blobs[..n]);
      BeforePrefix(blobs, n, n);
    }
  }

  // ----- the header, told by submissions and votes -----

  /** The commitments of those of the block's first i submissions that were not outvoted. */
  ghost function RowsKept(c: Chain, block: nat, i: nat): nat
    requires i <= |Within(c.submissions, block)|
  {
    if i == 0 then 0
    else RowsKept(c, block, i - 1) +
         if Outvoted(c.log, BlobId(block, i - 1)) then 0 else |Within(c.submissions, block)[i - 1].params.commitments|
  }

  ghost function SubmissionsKept(c: Chain, block: nat, i: nat): nat
    requires i <= |Within(c.submissions, block)|
  {
    if i == 0 then 0
    else SubmissionsKept(c, block, i - 1) + if Outvoted(c.log, BlobId(block, i - 1)) then 0 else 1
  }

  lemma {:induction false} KeptAgrees(c: Chain, block: nat, i: nat)
    requires Judged(c) && AllHeld(c) && i <= |Within(c.submissions, block)|
    ensures |c.st.BlobsAt(block)| == |Within(c.submissions, block)|
    ensures RowsKept(c, block, i) == RowsBefore(c.st.BlobsAt(block), i)
    ensures SubmissionsKept(c, block, i) == KeptBefore(c.st.BlobsAt(block), i)
  {
    assert BlockHolds(c.st.BlobsAt(block), Within(c.submissions, block));
    if i > 0 {
      KeptAgrees(c, block, i - 1);
      assert Holds(c.st.BlobsAt(block)[i - 1], Within(c.submissions, block)[i - 1]);
    }
  }

  /**
   Every header n > 1 of every run lists the submissions accepted in block n - 1 that were not
   outvoted, in their order, and nothing else: the commitments of submission i stand behind those of
   the earlier ones, and its app id, nonce and count behind theirs.
   */
  lemma HeaderFromCalls(cfg: Config, run: seq<Chain>, j: nat, n: nat, i: nat)
    requires IsRun(cfg, run) && j < |run| && n > 1 && n in run[j].headers
    ensures var c, header := run[j], run[j].headers[n];
      var subs := Within(c.submissions, n - 1);
      && |header.commitments| == RowsKept(c, n - 1, |subs|) && |header.lookups| == SubmissionsKept(c, n - 1, |subs|)
      && (i < |subs| && !Outvoted(c.log, BlobId(n - 1, i)) ==>
            ListedAt(header, RowsKept(c, n - 1, i), SubmissionsKept(c, n - 1, i),
                     subs[i].params.appId, subs[i].params.nonce, subs[i].params.commitments))
  {
    var c := run[j];
    var subs, blobs := Within(c.submissions, n - 1), c.st.BlobsAt(n - 1);
    RunInv(cfg, run, j);
    BlobsAreSubmissions(cfg, run, j);
    KeptAgrees(c, n - 1, |subs|);
    ListLengths(blobs);
    assert BlockHolds(blobs, subs);
    if i < |subs| && !Outvoted(c.log, BlobId(n - 1, i)) {
      KeptAgrees(c, n - 1, i);
      assert Holds(blobs[i], subs[i]);
      ListsInOrder(blobs, i);
    }
  }

  // ----- accepted reports -----

  /** A vote of the authority on the blob would be accepted. */
  predicate CanVote(cfg: Config, s: State, block: nat, authority: nat, index: nat) {
    && index < |s.BlobsAt(block)|
    && authority !in VotesOn(s, BlobId(block, index)) && |VotesOn(s, BlobId(block, index))| < cfg.maxBlobNum
  }

  ghost predicate CanVoteAll(cfg: Config, s: State, block: nat, authority: nat, indexes: seq<nat>) {
    forall k :: 0 <= k < |indexes| ==> CanVote(cfg, s, block, authority, indexes[k])
  }

  /** After a vote on one blob the authority can vote on exactly the other ones that it could vote on before. */
  lemma CanVoteAfter(cfg: Config, s: State, block: nat, authority: nat, voted: nat, index: nat)
    requires CanVote(cfg, s, block, authority, voted)
    ensures VoteOne(cfg, s, block, authority, voted).Done?
    ensures CanVote(cfg, VoteOne(cfg, s, block, authority, voted).value, block, authority, index)
       <==> index != voted && CanVote(cfg, s, block, authority, index)
  {
    VoteEffect(cfg, s, block, authority, voted);
  }

  lemma {:induction false} VotesAcceptedExactly(cfg: Config, s: State, block: nat, authority: nat, indexes: seq<nat>)
    ensures VoteAll(cfg, s, block, authority, indexes).Done? <==>
              Distinct(indexes) && CanVoteAll(cfg, s, block, authority, indexes)
    decreases |indexes|
  {
    if |indexes| > 0 {
      var first, rest := indexes[0], indexes[1..];
      if CanVote(cfg, s, block, authority, first) {
        forall k | 0 <= k < |rest|
          ensures CanVote(cfg, VoteOne(cfg, s, block, authority, first).value, block, authority, rest[k])
             <==> rest[k] != first && CanVote(cfg, s, block, authority, rest[k])
        {
          CanVoteAfter(cfg, s, block, authority, first, rest[k]);
        }
        CanVoteAfter(cfg, s, block, authority, first, first);
        VotesAcceptedExactly(cfg, VoteOne(cfg, s, block, authority, first).value, block, authority, rest);
      }
    }
  }

  /**
   A report is accepted exactly if it comes from the holder of a key in the block of the blobs or the
   one after, and names at least one blob and none twice, all of which exist, have room for a vote and
   none of this authority yet.
   */
  lemma ReportAcceptedExactly(cfg: Config, s: State, report: UnavailableDataReport)
    ensures ReportUnavailable(cfg, s, report).Done? <==>
              && report.atBlock <= s.now <= report.atBlock + 1
              && report.authorityIndex < |s.keys|
              && |report.indexSet| > 0 && Distinct(report.indexSet)
              && CanVoteAll(cfg, s, report.atBlock, report.authorityIndex, report.indexSet)
  {
    VotesAcceptedExactly(cfg, s, report.atBlock, report.authorityIndex, report.indexSet);
  }
}
