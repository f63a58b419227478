/** What the chain can be brought to: states that some sequence of steps reaches, and ones that none does. */
module MeloStoreReach {
  import opened MeloStore
  import opened MeloStoreRuns

  // ----- paths -----

  ghost predicate StepsTo(cfg: Config, c: Chain, d: Chain, onlyReports: bool) {
    exists step :: Next(cfg, c, step, d) && (onlyReports ==> step.Reporting?)
  }

  ghost predicate PathStep(cfg: Config, path: seq<Chain>, i: nat, onlyReports: bool)
    requires i + 1 < |path|
  {
    StepsTo(cfg, path[i], path[i + 1], onlyReports)
  }

  ghost predicate Path(cfg: Config, path: seq<Chain>, onlyReports: bool) {
    |path| > 0 && forall i: nat :: i < |path| - 1 ==> PathStep(cfg, path, i, onlyReports)
  }

  ghost predicate Joins(cfg: Config, path: seq<Chain>, c: Chain, d: Chain, onlyReports: bool) {
    Path(cfg, path, onlyReports) && path[0] == c && path[|path| - 1] == d
  }

  /** Some steps, or only reports, lead from c to d. */
  ghost predicate Reaches(cfg: Config, c: Chain, d: Chain, onlyReports: bool) {
    exists path :: Joins(cfg, path, c, d, onlyReports)
  }

  ghost predicate Reachable(cfg: Config, c: Chain) {
    exists first :: Initial(cfg, first) && Reaches(cfg, first, c, false)
  }

  lemma ReachesSelf(cfg: Config, c: Chain, onlyReports: bool)
    ensures Reaches(cfg, c, c, onlyReports)
  {
    assert Joins(cfg, [c], c, c, onlyReports);
  }

  lemma ReachesNext(cfg: Config, c: Chain, d: Chain, step: Step, e: Chain, onlyReports: bool)
    requires Reaches(cfg, c, d, onlyReports)
    requires Next(cfg, d, step, e) && (onlyReports ==> step.Reporting?)
    ensures Reaches(cfg, c, e, onlyReports)
  {
    var path :| Joins(cfg, path, c, d, onlyReports);
    assert StepsTo(cfg, d, e, onlyReports);
    var longer := path + [e];
    forall i: nat | i < |longer| - 1 ensures PathStep(cfg, longer, i, onlyReports) {
      if i < |path| - 1 {
        assert PathStep(cfg, path, i, onlyReports);
      }
    }
    assert Joins(cfg, longer, c, e, onlyReports);
  }

  lemma ReachesAll(cfg: Config, c: Chain, d: Chain, e: Chain, onlyReports: bool)
    requires Reaches(cfg, c, d, onlyReports) && Reaches(cfg, d, e, onlyReports)
    ensures Reaches(cfg, c, e, onlyReports)
  {
    var path :| Joins(cfg, path, c, d, onlyReports);
    var rest :| Joins(cfg, rest, d, e, onlyReports);
    var whole := path + rest[1..];
    forall i: nat | i < |whole| - 1 ensures PathStep(cfg, whole, i, onlyReports) {
      if i < |path| - 1 {
        assert PathStep(cfg, path, i, onlyReports);
      } else {
        assert whole[i] == rest[i - (|path| - 1)] && whole[i + 1] == rest[i - (|path| - 1) + 1];
        assert PathStep(cfg, rest, i - (|path| - 1), onlyReports);
      }
    }
    assert Joins(cfg, whole, c, e, onlyReports);
  }

  lemma ReachesByReports(cfg: Config, c: Chain, d: Chain)
    requires Reaches(cfg, c, d, true)
    ensures Reaches(cfg, c, d, false)
  {
    var path :| Joins(cfg, path, c, d, true);
    forall i: nat | i < |path| - 1 ensures PathStep(cfg, path, i, false) {
      assert PathStep(cfg, path, i, true);
    }
    assert Joins(cfg, path, c, d, false);
  }

  /** The reachable states are the states of runs. */
  lemma ReachableIsRun(cfg: Config, c: Chain) returns (run: seq<Chain>)
    requires Reachable(cfg, c)
    ensures IsRun(cfg, run) && run[|run| - 1] == c
  {
    var first :| Initial(cfg, first) && Reaches(cfg, first, c, false);
    run :| Joins(cfg, run, first, c, false);
    forall i: nat | i < |run| - 1 ensures StepAt(cfg, run, i) {
      assert PathStep(cfg, run, i, false);
    }
  }

  /** A run through a state to one that it reaches. */
  lemma RunThrough(cfg: Config, c: Chain, d: Chain) returns (run: seq<Chain>, k: nat)
    requires Reachable(cfg, c) && Reaches(cfg, c, d, false)
    ensures IsRun(cfg, run) && k < |run| && run[k] == c && run[|run| - 1] == d
  {
    var before := ReachableIsRun(cfg, c);
    var path :| Joins(cfg, path, c, d, false);
    run, k := before + path[1..], |before| - 1;
    forall i: nat | i < |run| - 1 ensures StepAt(cfg, run, i) {
      if i < k {
        assert StepAt(cfg, before, i);
      } else {
        assert run[i] == path[i - k] && run[i + 1] == path[i - k + 1];
        assert PathStep(cfg, path, i - k, false);
      }
    }
  }

  // ----- voting a blob out -----

  function VotesOn(s: State, id: BlobId): seq<nat> {
    if id in s.votes then s.votes[id] else []
  }

  /** The blob exists and reports on its block are still accepted. */
  ghost predicate Votable(c: Chain, block: nat, index: nat) {
    && !c.finalized && block <= c.st.now <= block + DELAY_CHECK_THRESHOLD
    && index < |c.st.BlobsAt(block)|
  }

  /** The state after a blob was made unavailable: nothing else about blobs, keys and headers changed. */
  ghost predicate OnlyFlipped(c: Chain, d: Chain, block: nat, index: nat)
    requires index < |c.st.BlobsAt(block)|
  {
    && d.st.now == c.st.now && d.st.keys == c.st.keys && d.finalized == c.finalized && d.headers == c.headers
    && d.st.BlobsAt(block) == c.st.BlobsAt(block)[index := c.st.BlobsAt(block)[index].(isAvailable := false)]
    && forall b :: b != block ==> d.st.BlobsAt(b) == c.st.BlobsAt(b)
  }

  /** One more authority reports the blob. */
  lemma OneMoreVote(cfg: Config, c: Chain, block: nat, index: nat, authority: nat) returns (d: Chain)
    requires Votable(c, block, index) && authority < |c.st.keys|
    requires authority !in VotesOn(c.st, BlobId(block, index)) && |VotesOn(c.st, BlobId(block, index))| < cfg.maxBlobNum
    ensures Next(cfg, c, Reporting(UnavailableDataReport(block, authority, [index])), d)
    ensures VotesOn(d.st, BlobId(block, index)) == VotesOn(c.st, BlobId(block, index)) + [authority]
    ensures d.log == c.log + [Vote(BlobId(block, index), authority, c.st.keys)]
    ensures |VotesOn(d.st, BlobId(block, index))| > |c.st.keys| / 2 ==> OnlyFlipped(c, d, block, index)
    ensures |VotesOn(d.st, BlobId(block, index))| <= |c.st.keys| / 2 ==>
      && d.st.now == c.st.now && d.st.keys == c.st.keys && d.finalized == c.finalized && d.headers == c.headers
      && forall b :: d.st.BlobsAt(b) == c.st.BlobsAt(b)
    ensures forall id :: id != BlobId(block, index) ==> (id in d.st.votes <==> id in c.st.votes)
  {
    var report := UnavailableDataReport(block, authority, [index]);
    var s := VoteOne(cfg, c.st, block, authority, index).value;
    VoteEffect(cfg, c.st, block, authority, index);
    assert report.indexSet[1..] == [];
    assert VoteAll(cfg, c.st, block, authority, [index]) == Done(s);
    d := c.(st := s, log := c.log + VotesCast(block, authority, [index], c.st.keys));
  }

  /** The indexes of keys under which nobody has voted on the blob. */
  ghost function Free(s: State, id: BlobId): set<nat> {
    set a: nat | a < |s.keys| && a !in VotesOn(s, id)
  }

  function Min(a: nat, b: nat): nat {
    if a < b then a else b
  }

  /** There is a vote left to cast, and with all that can be recorded more than half of the keys have voted. */
  ghost predicate Power(cfg: Config, s: State, id: BlobId) {
    && Free(s, id) != {} && |VotesOn(s, id)| < cfg.maxBlobNum
    && Min(cfg.maxBlobNum, |VotesOn(s, id)| + |Free(s, id)|) > |s.keys| / 2
  }

  lemma FreeAfterVote(s: State, t: State, id: BlobId, authority: nat)
    requires t.keys == s.keys && VotesOn(t, id) == VotesOn(s, id) + [authority] && authority in Free(s, id)
    ensures |Free(t, id)| == |Free(s, id)| - 1
  {
    assert Free(t, id) == Free(s, id) - {authority};
  }

  /** Reports of authorities that have not voted yet vote the blob out. */
  lemma {:induction false} VotedOut(cfg: Config, c: Chain, block: nat, index: nat) returns (d: Chain)
    requires Votable(c, block, index) && Power(cfg, c.st, BlobId(block, index))
    ensures Reaches(cfg, c, d, true) && OnlyFlipped(c, d, block, index)
    decreases |Free(c.st, BlobId(block, index))|
  {
    var id := BlobId(block, index);
    var a :| a in Free(c.st, id);
    var e := OneMoreVote(cfg, c, block, index, a);
    ReachesSelf(cfg, c, true);
    ReachesNext(cfg, c, c, Reporting(UnavailableDataReport(block, a, [index])), e, true);
    if |VotesOn(e.st, id)| > |c.st.keys| / 2 {
      d := e;
    } else {
      FreeAfterVote(c.st, e.st, id, a);
      d := VotedOut(cfg, e, block, index);
      ReachesAll(cfg, c, e, d, true);
    }
  }

  /** The blob is available, and no reports can change that. */
  ghost predicate Safe(cfg: Config, s: State, id: BlobId) {
    && id.index < |s.BlobsAt(id.block)| && s.BlobsAt(id.block)[id.index].isAvailable && !Power(cfg, s, id)
  }

  lemma VoteKeepsSafe(cfg: Config, s: State, block: nat, authority: nat, index: nat, id: BlobId)
    requires Safe(cfg, s, id) && authority < |s.keys| && VoteOne(cfg, s, block, authority, index).Done?
    ensures Safe(cfg, VoteOne(cfg, s, block, authority, index).value, id)
  {
    var t := VoteOne(cfg, s, block, authority, index).value;
    VoteEffect(cfg, s, block, authority, index);
    if id == BlobId(block, index) {
      assert authority in Free(s, id);
      FreeAfterVote(s, t, id, authority);
    } else {
      assert id.block != block || id.index != index;
      assert VotesOn(t, id) == VotesOn(s, id);
      assert Free(t, id) == Free(s, id);
    }
  }

  lemma {:induction false} ReportKeepsSafe(cfg: Config, s: State, block: nat, authority: nat, indexes: seq<nat>, id: BlobId)
    requires Safe(cfg, s, id) && authority < |s.keys| && VoteAll(cfg, s, block, authority, indexes).Done?
    ensures Safe(cfg, VoteAll(cfg, s, block, authority, indexes).value, id)
    decreases |indexes|
  {
    if |indexes| > 0 {
      VoteEffect(cfg, s, block, authority, indexes[0]);
      VoteKeepsSafe(cfg, s, block, authority, indexes[0], id);
      ReportKeepsSafe(cfg, VoteOne(cfg, s, block, authority, indexes[0]).value, block, authority, indexes[1..], id);
    }
  }

  lemma {:induction false} ReportsKeepSafe(cfg: Config, path: seq<Chain>, i: nat, id: BlobId)
    requires Path(cfg, path, true) && i < |path| && Safe(cfg, path[0].st, id)
    ensures Safe(cfg, path[i].st, id)
  {
    if i > 0 {
      ReportsKeepSafe(cfg, path, i - 1, id);
      assert PathStep(cfg, path, i - 1, true);
      var step :| Next(cfg, path[i - 1], step, path[i]) && step.Reporting?;
      if ReportUnavailable(cfg, path[i - 1].st, step.report).Done? {
        ReportKeepsSafe(cfg, path[i - 1].st, step.report.atBlock, step.report.authorityIndex, step.report.indexSet, id);
      }
    }
  }

  ghost predicate Unavailable(c: Chain, block: nat, index: nat) {
    index < |c.st.BlobsAt(block)| && !c.st.BlobsAt(block)[index].isAvailable
  }

  /**
   Reports alone can make an available blob unavailable exactly if some key has not been used on it,
   there is room for a vote, and the recorded votes with those that can still be added, up to the
   bound on recorded votes, are more than half of the keys.
   */
  lemma VotedOutExactly(cfg: Config, c: Chain, block: nat, index: nat)
    requires Votable(c, block, index) && c.st.BlobsAt(block)[index].isAvailable
    ensures (exists d :: Reaches(cfg, c, d, true) && Unavailable(d, block, index))
       <==> Power(cfg, c.st, BlobId(block, index))
  {
    if Power(cfg, c.st, BlobId(block, index)) {
      var d := VotedOut(cfg, c, block, index);
      assert Unavailable(d, block, index);
    }
    if exists d :: Reaches(cfg, c, d, true) && Unavailable(d, block, index) {
      var d :| Reaches(cfg, c, d, true) && Unavailable(d, block, index);
      var path :| Joins(cfg, path, c, d, true);
      if !Power(cfg, c.st, BlobId(block, index)) {
        ReportsKeepSafe(cfg, path, |path| - 1, BlobId(block, index));
      }
    }
  }

  /** Without votes yet: exactly if there are keys, and fewer than twice the bound on recorded votes. */
  lemma PowerWithoutVotes(cfg: Config, s: State, id: BlobId)
    requires VotesOn(s, id) == []
    ensures Power(cfg, s, id) <==> 1 <= |s.keys| < 2 * cfg.maxBlobNum
  {
    BelowCount(|s.keys|);
    assert Free(s, id) == Below(|s.keys|);
  }

  /**
   Removing a key renumbers the ones behind it, so the holder of key j can vote again as j - 1:
   exactly if nobody has voted under that index and there is room for a vote.
   */
  lemma DisablingRenumbers(cfg: Config, c: Chain, removed: nat, j: nat, block: nat, index: nat) returns (d: Chain)
    requires Votable(c, block, index) && removed < j < |c.st.keys|
    ensures Next(cfg, c, Disabling(removed), d)
    ensures d == c.(st := c.st.(keys := c.st.keys[..removed] + c.st.keys[removed + 1..]))
    ensures |d.st.keys| == |c.st.keys| - 1 && d.st.keys[j - 1] == c.st.keys[j]
    ensures ReportUnavailable(cfg, d.st, UnavailableDataReport(block, j - 1, [index])).Done?
       <==> j - 1 !in VotesOn(c.st, BlobId(block, index)) && |VotesOn(c.st, BlobId(block, index))| < cfg.maxBlobNum
  {
    d := c.(st := c.st.(keys := c.st.keys[..removed] + c.st.keys[removed + 1..]));
    var report := UnavailableDataReport(block, j - 1, [index]);
    var voted := VoteOne(cfg, d.st, block, j - 1, index);
    assert report.indexSet[1..] == [];
    assert VoteAll(cfg, d.st, block, j - 1, [index]) == voted;
    assert ReportUnavailable(cfg, d.st, report) == voted;
  }

  // ----- submitting -----

  /** A blob of one commitment, under app id 0. */
  function OneCommitment(s: State, commitment: Commitment, proof: Proof): SidecarMetadata {
    SidecarMetadata(0, 1, SaturatingInc(s.NonceOf(s.appId)), [commitment], [proof])
  }

  lemma OneMoreBlob(cfg: Config, c: Chain, who: AccountId, commitment: Commitment, proof: Proof) returns (d: Chain)
    requires cfg.maxBlobNum >= 1 && !c.finalized && |c.st.BlobsAt(c.st.now)| < cfg.maxKeys
    ensures Next(cfg, c, Submitting(who, OneCommitment(c.st, commitment, proof)), d)
    ensures d.finalized == c.finalized && d.headers == c.headers && d.st.votes == c.st.votes && d.log == c.log
    ensures d.st.now == c.st.now && d.st.keys == c.st.keys && d.st.appId == c.st.appId
    ensures |d.st.BlobsAt(c.st.now)| == |c.st.BlobsAt(c.st.now)| + 1
    ensures d.st.BlobsAt(c.st.now)[|c.st.BlobsAt(c.st.now)|]
         == BlobMetadata(0, who, [commitment], [proof], 1, true, OneCommitment(c.st, commitment, proof).nonce)
    ensures d.submissions == c.submissions + [Submission(c.st.now, c.st.appId, who, OneCommitment(c.st, commitment, proof))]
    ensures d.st.NonceOf(c.st.appId) == OneCommitment(c.st, commitment, proof).nonce
    ensures forall app :: app != c.st.appId ==> d.st.NonceOf(app) == c.st.NonceOf(app)
  {
    var params := OneCommitment(c.st, commitment, proof);
    var s := SubmitData(cfg, c.st, who, params).value;
    d := c.(st := s, submissions := c.submissions + [Submission(c.st.now, c.st.appId, who, params)]);
  }

  lemma {:induction false} ManyBlobs(cfg: Config, c: Chain, n: nat, who: AccountId, commitment: Commitment,
      proof: Proof)
    returns (d: Chain)
    requires cfg.maxBlobNum >= 1 && !c.finalized && |c.st.BlobsAt(c.st.now)| + n <= cfg.maxKeys
    ensures Reaches(cfg, c, d, false)
    ensures !d.finalized && d.headers == c.headers
    ensures d.st.votes == c.st.votes && d.st.now == c.st.now && d.st.keys == c.st.keys
    ensures |d.st.BlobsAt(c.st.now)| == |c.st.BlobsAt(c.st.now)| + n
    decreases n
  {
    ReachesSelf(cfg, c, false);
    if n == 0 {
      d := c;
    } else {
      var e := OneMoreBlob(cfg, c, who, commitment, proof);
      ReachesNext(cfg, c, c, Submitting(who, OneCommitment(c.st, commitment, proof)), e, false);
      d := ManyBlobs(cfg, e, n - 1, who, commitment, proof);
      ReachesAll(cfg, c, e, d, false);
    }
  }

  function Genesis(keys: seq<AuthorityId>): Chain {
    Chain(State(map[], map[], map[], keys, 0, 1), false, map[], [], [], 0)
  }

  lemma FirstVote(cfg: Config, keys: seq<AuthorityId>, who: AccountId, commitment: Commitment, proof: Proof)
    returns (d: Chain)
    requires cfg.maxBlobNum >= 1 && |keys| == 3 <= cfg.maxKeys
    ensures Reachable(cfg, d) && Votable(d, 1, 0) && d.st.keys == keys
    ensures d.log == [Vote(BlobId(1, 0), 1, keys)] && VotesOn(d.st, BlobId(1, 0)) == [1]
  {
    var c0 := Genesis(keys);
    ReachesSelf(cfg, c0, false);
    var c1 := OneMoreBlob(cfg, c0, who, commitment, proof);
    ReachesNext(cfg, c0, c0, Submitting(who, OneCommitment(c0.st, commitment, proof)), c1, false);
    d := OneMoreVote(cfg, c1, 1, 0, 1);
    ReachesNext(cfg, c0, c1, Reporting(UnavailableDataReport(1, 1, [0])), d, false);
    assert Initial(cfg, c0);
  }

  lemma ReachableNext(cfg: Config, c: Chain, step: Step, d: Chain)
    requires Reachable(cfg, c) && Next(cfg, c, step, d)
    ensures Reachable(cfg, d)
  {
    var first :| Initial(cfg, first) && Reaches(cfg, first, c, false);
    ReachesNext(cfg, first, c, step, d, false);
  }

  lemma FirstDisabled(cfg: Config, c: Chain, a: AuthorityId, rest: seq<AuthorityId>, block: nat, index: nat)
    returns (d: Chain)
    requires Votable(c, block, index) && |rest| > 0 && c.st.keys == [a] + rest
    ensures Next(cfg, c, Disabling(0), d) && Votable(d, block, index) && d.st.keys == rest && d.log == c.log
    ensures VotesOn(d.st, BlobId(block, index)) == VotesOn(c.st, BlobId(block, index))
  {
    d := DisablingRenumbers(cfg, c, 0, 1, block, index);
  }

  /**
   A run in which one validator votes a blob out alone, although there are three. It votes under index
   1, the key before it is disabled, and it votes again under index 0.
   */
  lemma VotesTwice(cfg: Config, a: AuthorityId, b: AuthorityId, e: AuthorityId, who: AccountId, commitment: Commitment,
      proof: Proof) returns (d: Chain)
    requires cfg.maxBlobNum >= 2 && cfg.maxKeys >= 3
    ensures Reachable(cfg, d) && Unavailable(d, 1, 0)
    ensures d.log == [Vote(BlobId(1, 0), 1, [a, b, e]), Vote(BlobId(1, 0), 0, [b, e])]
  {
    var c1 := FirstVote(cfg, [a, b, e], who, commitment, proof);
    var c2 := FirstDisabled(cfg, c1, a, [b, e], 1, 0);
    ReachableNext(cfg, c1, Disabling(0), c2);
    d := OneMoreVote(cfg, c2, 1, 0, 0);
    ReachableNext(cfg, c2, Reporting(UnavailableDataReport(1, 0, [0])), d);
  }

  /**
   Nothing ties the number of commitments to the number of bytes: every number of commitments up to
   the bound can be submitted with every admitted length, and becomes the count of a lookup.
   */
  lemma CountUnchecked(cfg: Config, keys: seq<AuthorityId>, who: AccountId, bytesLen: nat, commitments: seq<Commitment>,
      proofs: seq<Proof>) returns (d: Chain)
    requires |keys| <= cfg.maxKeys && 0 < cfg.maxKeys
    requires bytesLen > 0 && BlobCount(bytesLen) <= cfg.maxBlobNum
    requires 0 < |commitments| == |proofs| <= cfg.maxBlobNum && |commitments| < 0x1_0000
    ensures Reachable(cfg, d)
    ensures |d.st.BlobsAt(1)| == 1 && d.st.BlobsAt(1)[0].bytesLen == bytesLen
    ensures CommitmentsAndLookups(d.st, 1) == HeaderLists(commitments, [AppLookup(0, 1, |commitments|)])
  {
    var c0 := Genesis(keys);
    var params := SidecarMetadata(0, bytesLen, 1, commitments, proofs);
    var s := SubmitData(cfg, c0.st, who, params).value;
    d := c0.(st := s, submissions := c0.submissions + [Submission(1, 0, who, params)]);
    ReachesSelf(cfg, c0, false);
    ReachesNext(cfg, c0, c0, Submitting(who, params), d, false);
    assert Initial(cfg, c0);
    var blobs := d.st.BlobsAt(1);
    assert |blobs| == 1 && blobs[..0] == [];
    assert Available(blobs) == [blobs[0]];
    assert [blobs[0]][..0] == [];
    assert Flatten([]) == HeaderLists([], []);
  }

  /**
   A run that accepts the same app id and nonce twice: submit, register another app, submit again.
   The two blobs are the same, and stand in one block.
   */
  lemma NonceReused(cfg: Config, key: AuthorityId, who: AccountId, commitment: Commitment,
      proof: Proof) returns (d: Chain)
    requires cfg.maxBlobNum >= 1 && cfg.maxKeys >= 2
    ensures Reachable(cfg, d)
    ensures var params := SidecarMetadata(0, 1, 1, [commitment], [proof]);
      d.submissions == [Submission(1, 0, who, params), Submission(1, 1, who, params)]
    ensures |d.st.BlobsAt(1)| == 2 && d.st.BlobsAt(1)[0] == d.st.BlobsAt(1)[1]
  {
    var c0 := Genesis([key]);
    ReachesSelf(cfg, c0, false);
    var c1 := OneMoreBlob(cfg, c0, who, commitment, proof);
    ReachesNext(cfg, c0, c0, Submitting(who, OneCommitment(c0.st, commitment, proof)), c1, false);
    var c2 := c1.(st := RegisterApp(c1.st), registered := c1.registered + 1);
    ReachesNext(cfg, c0, c1, Registering, c2, false);
    d := OneMoreBlob(cfg, c2, who, commitment, proof);
    ReachesNext(cfg, c0, c2, Submitting(who, OneCommitment(c2.st, commitment, proof)), d, false);
    assert Initial(cfg, c0);
  }

  // ----- votes left behind -----

  lemma FinalizeEarly(cfg: Config, c: Chain) returns (d: Chain, e: Chain)
    requires !c.finalized && c.st.now <= DELAY_CHECK_THRESHOLD + 1
    ensures Next(cfg, c, Finalizing({}), d) && Next(cfg, d, NextBlock, e)
    ensures d.finalized && d.st == c.st && d.headers == c.headers[c.st.now := Last(c.st)]
    ensures !e.finalized && e.st == c.st.(now := c.st.now + 1) && e.headers == d.headers
  {
    d := c.(finalized := true, headers := c.headers[c.st.now := Last(c.st)]);
    e := d.(st := d.st.(now := d.st.now + 1), finalized := false);
  }

  /** A vote on each of the first n blobs of the block. */
  lemma {:induction false} ManyVotes(cfg: Config, c: Chain, block: nat, n: nat) returns (d: Chain)
    requires cfg.maxBlobNum >= 1 && n > 0 && Votable(c, block, n - 1) && |c.st.keys| >= 1 && c.st.votes == map[]
    ensures Reaches(cfg, c, d, false)
    ensures !d.finalized && d.st.now == c.st.now && d.st.keys == c.st.keys
    ensures forall b :: |d.st.BlobsAt(b)| == |c.st.BlobsAt(b)|
    ensures forall id :: id in d.st.votes <==> id.block == block && id.index < n
  {
    var e := c;
    ReachesSelf(cfg, c, false);
    if n > 1 {
      e := ManyVotes(cfg, c, block, n - 1);
    }
    d := OneMoreVote(cfg, e, block, n - 1, 0);
    ReachesNext(cfg, c, e, Reporting(UnavailableDataReport(block, 0, [n - 1])), d, false);
    forall b ensures |d.st.BlobsAt(b)| == |c.st.BlobsAt(b)| {
      assert |d.st.BlobsAt(b)| == |e.st.BlobsAt(b)|;
    }
    assert BlobId(block, n - 1) in d.st.votes;
  }

  ghost function Below(n: nat): set<nat> {
    if n == 0 then {} else Below(n - 1) + {n - 1}
  }

  lemma {:induction false} BelowCount(n: nat)
    ensures |Below(n)| == n
    ensures forall i: nat :: i in Below(n) <==> i < n
  {
    if n > 0 {
      BelowCount(n - 1);
    }
  }

  lemma VotedBelow(s: State, n: nat)
    requires forall id :: id in s.votes <==> id.block == 1 && id.index < n
    ensures VotedAt(s, 1) == Below(n) && |VotedAt(s, 1)| == n
  {
    BelowCount(n);
    forall i: nat | i < n ensures i in VotedAt(s, 1) {
      assert BlobId(1, i) in s.votes;
    }
  }

  /** Finalizing block 3 removes the votes on all blobs of block 1 but one. */
  lemma OneVoteStays(cfg: Config, c: Chain) returns (d: Chain)
    requires !c.finalized && c.st.now == 3
    requires forall id :: id in c.st.votes <==> id.block == 1 && id.index < cfg.maxBlobNum + 1
    ensures Next(cfg, c, Finalizing(Below(cfg.maxBlobNum)), d) && !InWindow(d)
  {
    var n := cfg.maxBlobNum;
    BelowCount(n);
    VotedBelow(c.st, n + 1);
    assert Below(n) <= Below(n + 1);
    var s := OnFinalize(c.st, Below(n));
    d := c.(st := s, finalized := true, headers := c.headers[3 := Last(s)]);
    assert BlobId(1, n) in d.st.votes;
  }

  /** A run that leaves a vote behind, for every bound on the cleanup that a block's blobs can exceed. */
  lemma LeakingRun(cfg: Config, key: AuthorityId, who: AccountId, commitment: Commitment,
      proof: Proof) returns (d: Chain)
    requires 1 <= cfg.maxBlobNum < cfg.maxKeys
    ensures Reachable(cfg, d) && !InWindow(d)
  {
    var c0 := Genesis([key]);
    var n := cfg.maxBlobNum + 1;
    var c1 := ManyBlobs(cfg, c0, n, who, commitment, proof);
    var c2 := ManyVotes(cfg, c1, 1, n);
    ReachesAll(cfg, c0, c1, c2, false);
    var c3, c4 := FinalizeEarly(cfg, c2);
    ReachesNext(cfg, c0, c2, Finalizing({}), c3, false);
    ReachesNext(cfg, c0, c3, NextBlock, c4, false);
    var c5, c6 := FinalizeEarly(cfg, c4);
    ReachesNext(cfg, c0, c4, Finalizing({}), c5, false);
    ReachesNext(cfg, c0, c5, NextBlock, c6, false);
    d := OneVoteStays(cfg, c6);
    ReachesNext(cfg, c0, c6, Finalizing(Below(cfg.maxBlobNum)), d, false);
    assert Initial(cfg, c0);
  }

  /** Without room for votes none is ever recorded. */
  lemma {:induction false} NoRoomNoVotes(cfg: Config, run: seq<Chain>, i: nat)
    requires IsRun(cfg, run) && i < |run| && cfg.maxBlobNum == 0
    ensures run[i].st.votes == map[]
  {
    if i > 0 {
      NoRoomNoVotes(cfg, run, i - 1);
      assert StepAt(cfg, run, i - 1);
      var step :| Next(cfg, run[i - 1], step, run[i]);
    }
  }

  /** Votes can be left behind exactly in the configurations in which a block can have more blobs than the cleanup removes. */
  lemma LeaksExactly(cfg: Config, key: AuthorityId, who: AccountId, commitment: Commitment, proof: Proof)
    ensures (exists d :: Reachable(cfg, d) && !InWindow(d)) <==> 1 <= cfg.maxBlobNum < cfg.maxKeys
  {
    if 1 <= cfg.maxBlobNum < cfg.maxKeys {
      var d := LeakingRun(cfg, key, who, commitment, proof);
    }
    forall d | Reachable(cfg, d) && !InWindow(d) ensures 1 <= cfg.maxBlobNum < cfg.maxKeys {
      var run := ReachableIsRun(cfg, d);
      if cfg.maxBlobNum == 0 {
        NoRoomNoVotes(cfg, run, |run| - 1);
      } else if cfg.maxKeys <= cfg.maxBlobNum {
        SmallBlocksNeverLeak(cfg, run, |run| - 1);
      }
    }
  }
}
