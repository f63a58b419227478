/**
 `CommitmentFromPosition::commitments` of the pallet: the commitment that a farmer's cell at a
 position is checked against, with the extended list of a block kept once it has been computed.
 */
module CommitmentQuery {
  import opened Wrappers
  import opened Bits
  import opened Algebra
  import opened Dft
  import opened ErasureCoding
  import opened MeloStore
  import opened MeloStoreRuns
  import opened MeloStoreReach

  // ----- one query -----

  function At<T>(s: seq<T>, y: nat): Option<T> {
    if y < |s| then Some(s[y]) else None
  }

  /**
   The answer to a query on a block, and what is cached after it, given the block's list of
   commitments and what `extend_fs_g1` makes of it.
   */
  function Answer<G>(extended: Result<seq<G>>, maxLen: nat, cached: Option<seq<G>>, commitments: seq<G>, y: nat)
    : (Option<G>, Option<seq<G>>)
  {
    if cached.Some? then (At(cached.value, y), cached)
    else if y < |commitments| then (Some(commitments[y]), None)
    else if extended.Err? || y >= |extended.value| || |extended.value| > maxLen then (None, None)
    else (Some(extended.value[y]), Some(extended.value))
  }

  /** The `CommitmentsExt` storage: lists bounded by the maximal number of blobs. */
  class CommitmentStore<F(!new)> {
    const cfg: Config
    const fs: FftSettings<F>
    const m: Module<F, Commitment>
    var ext: map<nat, seq<Commitment>>

    constructor (cfg: Config, fs: FftSettings<F>, m: Module<F, Commitment>)
      ensures this.cfg == cfg && this.fs == fs && this.m == m && ext == map[]
    {
      this.cfg, this.fs, this.m, ext := cfg, fs, m, map[];
    }

    function Cached(block: nat): Option<seq<Commitment>>
      reads this
    {
      if block in ext then Some(ext[block]) else None
    }

    /** Nothing for the current and later blocks; otherwise the answer, caching at most that block's list. */
    method Commitments(s: State, block: nat, y: nat) returns (r: Option<Commitment>)
      requires s.now >= DELAY_CHECK_THRESHOLD
      modifies this`ext
      ensures block > s.now - DELAY_CHECK_THRESHOLD ==> r == None && ext == old(ext)
      ensures block <= s.now - DELAY_CHECK_THRESHOLD ==>
        var commitments := CommitmentsAndLookups(s, block).commitments;
        (r, Cached(block)) == Answer(ExtendFsG1(fs, m, commitments), cfg.maxBlobNum, old(Cached(block)), commitments, y)
      ensures forall b :: b != block ==> Cached(b) == old(Cached(b))
    {
      if block > s.now - DELAY_CHECK_THRESHOLD {
        return None;
      }
      if block in ext {
        if y >= |ext[block]| {
          return None;
        }
        return Some(ext[block][y]);
      }
      var commitments := CommitmentsAndLookups(s, block).commitments;
      if y < |commitments| {
        return Some(commitments[y]);
      }
      var extended := ExtendFsG1(fs, m, commitments);
      if extended.Err? || y >= |extended.value| || |extended.value| > cfg.maxBlobNum {
        return None;
      }
      ext := ext[block := extended.value];
      return Some(extended.value[y]);
    }
  }

  // ----- the entries of the extended list -----

  /** The row that entry y of `extend_fs_g1` on k commitments belongs to. */
  function RowAt(k: nat, y: nat): nat {
    if y % 2 == 0 then y / 2 else k + y / 2
  }

  lemma FixedRows(k: nat, y: nat)
    requires y < 2 * k
    ensures RowAt(k, y) == y <==> y == 0 || y == 2 * k - 1
  {
  }

  lemma Deinterleaved<T>(e: seq<T>, k: nat, y: nat)
    requires |e| == 2 * k && y < 2 * k
    ensures RowAt(k, y) < |Evens(e) + Odds(e)| && (Evens(e) + Odds(e))[RowAt(k, y)] == e[y]
  {
  }

  /**
   Entry y of `extend_fs_g1` is the commitment of row RowAt(k, y) of the extended block, in the order
   in which `extend_segments_col` numbers its rows: of row y only for the first and the last y.
   */
  lemma InterleavedEntry<F(!new), G(!new)>(fs: FftSettings<F>, m: Module<F, G>, commitments: seq<G>, y: nat)
    requires Valid(fs, m) && ExtendFsG1(fs, m, commitments).Ok? && y < 2 * |commitments|
    ensures |ExtendFsG1(fs, m, commitments).value| == 2 * |commitments|
    ensures ExtendAndReorder(fs, m, commitments).Ok?
    ensures var k := |commitments|;
      && RowAt(k, y) < |ExtendAndReorder(fs, m, commitments).value|
      && ExtendFsG1(fs, m, commitments).value[y] == ExtendAndReorder(fs, m, commitments).value[RowAt(k, y)]
      && (RowAt(k, y) == y <==> y == 0 || y == 2 * k - 1)
  {
    ExtendFsG1Interleaves(fs, m, commitments);
    Deinterleaved(ExtendFsG1(fs, m, commitments).value, |commitments|, y);
    FixedRows(|commitments|, y);
  }

  // ----- sequences of queries -----

  /** What is cached for a block after queries for rows ys, while its list of commitments stays the same. */
  function CachedAfter<G>(extended: Result<seq<G>>, maxLen: nat, commitments: seq<G>, ys: seq<nat>): Option<seq<G>> {
    if |ys| == 0 then None
    else
      var before := CachedAfter(extended, maxLen, commitments, ys[..|ys| - 1]);
      Answer(extended, maxLen, before, commitments, ys[|ys| - 1]).1
  }

  /** The list can be extended and the extension fits the storage. */
  ghost predicate Extendable<F>(fs: FftSettings<F>, maxLen: nat, k: nat) {
    IsPow2(k) && 2 * k <= fs.maxWidth && 2 * k <= maxLen
  }

  /** A parity row is among the queries. */
  ghost predicate AskedParity(k: nat, ys: seq<nat>) {
    exists t :: 0 <= t < |ys| && k <= ys[t] < 2 * k
  }

  lemma AskedParitySnoc(k: nat, ys: seq<nat>)
    requires |ys| > 0
    ensures AskedParity(k, ys) <==> AskedParity(k, ys[..|ys| - 1]) || k <= ys[|ys| - 1] < 2 * k
  {
    var front := ys[..|ys| - 1];
    if AskedParity(k, front) {
      var t :| 0 <= t < |front| && k <= front[t] < 2 * k;
      assert ys[t] == front[t];
    }
    if AskedParity(k, ys) && !(k <= ys[|ys| - 1] < 2 * k) {
      var t :| 0 <= t < |ys| && k <= ys[t] < 2 * k;
      assert front[t] == ys[t];
    }
  }

  /** The extended list is cached exactly when it fits and a parity row has been asked for. */
  lemma {:induction false} CachedExactly<G>(extended: Result<seq<G>>, maxLen: nat, commitments: seq<G>, ys: seq<nat>)
    requires extended.Ok? ==> |extended.value| == 2 * |commitments|
    ensures CachedAfter(extended, maxLen, commitments, ys) ==
      if extended.Ok? && 2 * |commitments| <= maxLen && AskedParity(|commitments|, ys) then Some(extended.value) else None
  {
    if |ys| > 0 {
      CachedExactly(extended, maxLen, commitments, ys[..|ys| - 1]);
      AskedParitySnoc(|commitments|, ys);
    }
  }

  lemma AnswerAfter<G>(extended: Result<seq<G>>, maxLen: nat, commitments: seq<G>, ys: seq<nat>, y: nat)
    requires extended.Ok? ==> |extended.value| == 2 * |commitments|
    ensures Answer(extended, maxLen, CachedAfter(extended, maxLen, commitments, ys), commitments, y).0 ==
      if extended.Ok? && 2 * |commitments| <= maxLen && AskedParity(|commitments|, ys + [y])
      then At(extended.value, y) else At(commitments, y)
  {
    CachedExactly(extended, maxLen, commitments, ys);
    AskedParitySnoc(|commitments|, ys + [y]);
    assert (ys + [y])[..|ys|] == ys;
  }

  /**
   The answer depends on the queries before it: with a parity row among them, or itself one, it is
   the interleaved entry, which belongs to row RowAt(k, y); otherwise it is entry y of the block's list.
   */
  lemma AnswerAfterQueries<F(!new), G(!new)>(fs: FftSettings<F>, m: Module<F, G>, maxLen: nat, commitments: seq<G>,
      ys: seq<nat>, y: nat)
    requires Valid(fs, m)
    ensures var k, extended := |commitments|, ExtendFsG1(fs, m, commitments);
      var r := Answer(extended, maxLen, CachedAfter(extended, maxLen, commitments, ys), commitments, y).0;
      if Extendable(fs, maxLen, k) && AskedParity(k, ys + [y])
      then ExtendAndReorder(fs, m, commitments).Ok? &&
           r == if y < 2 * k then At(ExtendAndReorder(fs, m, commitments).value, RowAt(k, y)) else None
      else r == At(commitments, y)
  {
    ExtendFsG1Interleaves(fs, m, commitments);
    AnswerAfter(ExtendFsG1(fs, m, commitments), maxLen, commitments, ys, y);
    if ExtendFsG1(fs, m, commitments).Ok? && y < 2 * |commitments| {
      InterleavedEntry(fs, m, commitments, y);
    }
    ExtendAndReorderCorrect(fs, m, commitments);
  }

  // ----- queries on a chain -----

  /** No vote on the block can be accepted any more. */
  ghost predicate Settled(c: Chain, block: nat) {
    block + DELAY_CHECK_THRESHOLD < c.st.now || (block + DELAY_CHECK_THRESHOLD == c.st.now && c.finalized)
  }

  lemma {:induction false} VotesKeepOthers(cfg: Config, s: State, block: nat, authority: nat, indexes: seq<nat>,
      other: nat)
    requires VoteAll(cfg, s, block, authority, indexes).Done? && other != block
    ensures VoteAll(cfg, s, block, authority, indexes).value.BlobsAt(other) == s.BlobsAt(other)
    decreases |indexes|
  {
    if |indexes| > 0 {
      VotesKeepOthers(cfg, VoteOne(cfg, s, block, authority, indexes[0]).value, block, authority, indexes[1..], other);
    }
  }

  lemma StepKeepsSettled(cfg: Config, c: Chain, step: Step, d: Chain, block: nat)
    requires Next(cfg, c, step, d) && Settled(c, block)
    ensures Settled(d, block) && d.st.BlobsAt(block) == c.st.BlobsAt(block)
  {
    match step
    case Reporting(report) =>
      if ReportUnavailable(cfg, c.st, report).Done? {
        VotesKeepOthers(cfg, c.st, report.atBlock, report.authorityIndex, report.indexSet, block);
        ReportSizes(cfg, c.st, report.atBlock, report.authorityIndex, report.indexSet);
      }
    case _ =>
  }

  /** From any state in which the votes on a block are over, its list of commitments never changes. */
  lemma {:induction false} SettledForever(cfg: Config, run: seq<Chain>, i: nat, j: nat, block: nat)
    requires IsRun(cfg, run) && i <= j < |run| && Settled(run[i], block)
    ensures Settled(run[j], block)
    ensures CommitmentsAndLookups(run[j].st, block) == CommitmentsAndLookups(run[i].st, block)
    decreases j
  {
    if i < j {
      SettledForever(cfg, run, i, j - 1, block);
      assert StepAt(cfg, run, j - 1);
      var step :| Next(cfg, run[j - 1], step, run[j]);
      StepKeepsSettled(cfg, run[j - 1], step, run[j], block);
    }
  }

  lemma {:induction false} PathSettled(cfg: Config, path: seq<Chain>, i: nat, block: nat)
    requires Path(cfg, path, false) && i < |path| && Settled(path[0], block)
    ensures Settled(path[i], block) && path[i].st.BlobsAt(block) == path[0].st.BlobsAt(block)
  {
    if i > 0 {
      PathSettled(cfg, path, i - 1, block);
      assert PathStep(cfg, path, i - 1, false);
      var step :| Next(cfg, path[i - 1], step, path[i]);
      StepKeepsSettled(cfg, path[i - 1], step, path[i], block);
    }
  }

  lemma {:induction false} FlattenLookups(blobs: seq<BlobMetadata>)
    ensures |Flatten(blobs).lookups| == |blobs|
  {
    if |blobs| > 0 {
      FlattenLookups(blobs[..|blobs| - 1]);
    }
  }

  lemma {:induction false} FlippedShorter(blobs: seq<BlobMetadata>, index: nat)
    requires index < |blobs| && blobs[index].isAvailable
    ensures |Available(blobs[index := blobs[index].(isAvailable := false)])| + 1 == |Available(blobs)|
  {
    var n := |blobs| - 1;
    var flipped := blobs[index := blobs[index].(isAvailable := false)];
    if index < n {
      FlippedShorter(blobs[..n], index);
      assert flipped[..n] == blobs[..n][index := blobs[index].(isAvailable := false)];
    } else {
      assert flipped[..n] == blobs[..n];
    }
  }

  ghost function Elements(s: seq<nat>): set<nat> {
    if |s| == 0 then {} else Elements(s[..|s| - 1]) + {s[|s| - 1]}
  }

  lemma {:induction false} ElementsAre(s: seq<nat>)
    ensures |Elements(s)| <= |s|
    ensures forall x :: x in s ==> x in Elements(s)
  {
    if |s| > 0 {
      var n := |s| - 1;
      ElementsAre(s[..n]);
      assert s == s[..n] + [s[n]];
    }
  }

  lemma SubsetSize(a: set<nat>, b: set<nat>)
    requires a <= b
    ensures |a| <= |b|
  {
    assert b == a + (b - a);
  }

  /** Among one more index than there are votes, one has not voted. */
  lemma UnusedIndex(cast: seq<nat>) returns (a: nat)
    ensures a <= |cast| && a !in cast
  {
    var used, all := Elements(cast), Below(|cast| + 1);
    BelowCount(|cast| + 1);
    ElementsAre(cast);
    if all <= used {
      SubsetSize(all, used);
    }
    a :| a in all && a !in used;
  }

  /** A session in which the next vote on the blob is decisive. */
  lemma DecisiveSession(cfg: Config, s: State, id: BlobId, key: AuthorityId) returns (keys: seq<AuthorityId>)
    requires |VotesOn(s, id)| < cfg.maxBlobNum
    ensures Power(cfg, s.(keys := keys), id)
  {
    var a := UnusedIndex(VotesOn(s, id));
    keys := seq(a + 1, _ => key);
    var free := Free(s.(keys := keys), id);
    assert a in free;
    assert free != {} && |free| >= 1;
  }

  /** Votes can still change the lists. */
  lemma StillChanges(cfg: Config, c: Chain, block: nat, index: nat, key: AuthorityId) returns (d: Chain)
    requires !Settled(c, block) && block <= c.st.now && index < |c.st.BlobsAt(block)|
    requires c.st.BlobsAt(block)[index].isAvailable && |VotesOn(c.st, BlobId(block, index))| < cfg.maxBlobNum
    ensures Reaches(cfg, c, d, false) && CommitmentsAndLookups(d.st, block) != CommitmentsAndLookups(c.st, block)
  {
    var open := c;
    ReachesSelf(cfg, c, false);
    if c.finalized {
      open := c.(st := c.st.(now := c.st.now + 1), finalized := false);
      ReachesNext(cfg, c, c, NextBlock, open, false);
    }
    var keys := DecisiveSession(cfg, open.st, BlobId(block, index), key);
    var decisive := open.(st := open.st.(keys := keys));
    ReachesNext(cfg, c, open, NewSession(keys), decisive, false);
    d := VotedOut(cfg, decisive, block, index);
    ReachesByReports(cfg, decisive, d);
    ReachesAll(cfg, c, decisive, d, false);
    FlippedShorter(c.st.BlobsAt(block), index);
    FlattenLookups(Available(c.st.BlobsAt(block)));
    FlattenLookups(Available(d.st.BlobsAt(block)));
  }

  /** The blob can still be made unavailable, as far as the room for votes on it goes. */
  ghost predicate Open(cfg: Config, s: State, block: nat, index: nat) {
    && index < |s.BlobsAt(block)| && s.BlobsAt(block)[index].isAvailable
    && |VotesOn(s, BlobId(block, index))| < cfg.maxBlobNum
  }

  /** The votes on the block are over, or there is no room for votes on any available blob. */
  ghost predicate Closed(cfg: Config, c: Chain, block: nat) {
    Settled(c, block) || forall index: nat :: !Open(cfg, c.st, block, index)
  }

  lemma {:induction false} ClosedVotes(cfg: Config, s: State, block: nat, authority: nat, indexes: seq<nat>, closed: nat)
    requires VoteAll(cfg, s, block, authority, indexes).Done?
    requires forall index: nat :: !Open(cfg, s, closed, index)
    ensures var t := VoteAll(cfg, s, block, authority, indexes).value;
      t.BlobsAt(closed) == s.BlobsAt(closed) && forall index: nat :: !Open(cfg, t, closed, index)
    decreases |indexes|
  {
    if |indexes| > 0 {
      var t := VoteOne(cfg, s, block, authority, indexes[0]).value;
      VoteEffect(cfg, s, block, authority, indexes[0]);
      assert !Open(cfg, s, closed, indexes[0]);
      assert t.BlobsAt(closed) == s.BlobsAt(closed);
      forall index: nat ensures !Open(cfg, t, closed, index) {
        assert !Open(cfg, s, closed, index);
        assert |VotesOn(t, BlobId(closed, index))| >= |VotesOn(s, BlobId(closed, index))|;
      }
      ClosedVotes(cfg, t, block, authority, indexes[1..], closed);
    }
  }

  lemma SameOpen(cfg: Config, s: State, t: State, block: nat)
    requires forall index: nat :: !Open(cfg, s, block, index)
    requires t.BlobsAt(block) == s.BlobsAt(block)
    requires forall id: BlobId :: id.block == block ==> VotesOn(t, id) == VotesOn(s, id)
    ensures forall index: nat :: !Open(cfg, t, block, index)
  {
    forall index: nat ensures !Open(cfg, t, block, index) {
      assert !Open(cfg, s, block, index);
    }
  }

  lemma StepKeepsClosed(cfg: Config, c: Chain, step: Step, d: Chain, block: nat)
    requires Next(cfg, c, step, d) && Closed(cfg, c, block) && block < c.st.now
    ensures Closed(cfg, d, block) && block < d.st.now && d.st.BlobsAt(block) == c.st.BlobsAt(block)
  {
    if Settled(c, block) {
      StepKeepsSettled(cfg, c, step, d, block);
      assert block < d.st.now;
    } else {
      match step
      case Reporting(report) =>
        if ReportUnavailable(cfg, c.st, report).Done? {
          ClosedVotes(cfg, c.st, report.atBlock, report.authorityIndex, report.indexSet, block);
          ReportSizes(cfg, c.st, report.atBlock, report.authorityIndex, report.indexSet);
        }
      case _ =>
        SameOpen(cfg, c.st, d.st, block);
    }
  }

  lemma {:induction false} PathClosed(cfg: Config, path: seq<Chain>, i: nat, block: nat)
    requires Path(cfg, path, false) && i < |path| && Closed(cfg, path[0], block) && block < path[0].st.now
    ensures Closed(cfg, path[i], block) && block < path[i].st.now && path[i].st.BlobsAt(block) == path[0].st.BlobsAt(block)
  {
    if i > 0 {
      PathClosed(cfg, path, i - 1, block);
      assert PathStep(cfg, path, i - 1, false);
      var step :| Next(cfg, path[i - 1], step, path[i]);
      StepKeepsClosed(cfg, path[i - 1], step, path[i], block);
    }
  }

  ghost predicate Final(cfg: Config, c: Chain, block: nat) {
    forall d :: Reaches(cfg, c, d, false) ==> CommitmentsAndLookups(d.st, block) == CommitmentsAndLookups(c.st, block)
  }

  /**
   The lists of a block that the query answers for are final, in the sense that no further steps
   change them, exactly if the votes on the block are over or no available blob of it has room for
   a vote. The query answers from the next block on, when the votes are not over.
   */
  lemma FinalExactly(cfg: Config, c: Chain, block: nat, key: AuthorityId)
    requires block < c.st.now
    ensures Final(cfg, c, block) <==> Closed(cfg, c, block)
  {
    if Closed(cfg, c, block) {
      forall d | Reaches(cfg, c, d, false) ensures CommitmentsAndLookups(d.st, block) == CommitmentsAndLookups(c.st, block) {
        var path :| Joins(cfg, path, c, d, false);
        PathClosed(cfg, path, |path| - 1, block);
      }
    } else {
      var index: nat :| Open(cfg, c.st, block, index);
      var d := StillChanges(cfg, c, block, index, key);
    }
  }

  /** The header of block 2 has no commitments, and a query for row 0 of block 1 is answered with one. */
  ghost predicate StaleAt<F>(cfg: Config, fs: FftSettings<F>, m: Module<F, Commitment>, d: Chain,
      cached: Option<seq<Commitment>>, commitment: Commitment) {
    && 2 in d.headers && d.headers[2].commitments == []
    && var list := CommitmentsAndLookups(d.st, 1).commitments;
       && list == []
       && Answer(ExtendFsG1(fs, m, list), cfg.maxBlobNum, cached, list, 0).0 == Some(commitment)
  }

  /**
   A run in which a list is cached that the header does not have. Block 1 has one blob of one
   commitment, the only validator has one key. In block 2 the parity row of block 1 is asked for and
   the extension cached; then the validator votes, and block 2 is finalized. In every later state of
   every run that goes on from there the header has no commitments and the query still returns the
   commitment of the blob.
   */
  lemma StaleCache<F(!new)>(cfg: Config, fs: FftSettings<F>, m: Module<F, Commitment>, key: AuthorityId, who: AccountId,
      commitment: Commitment, proof: Proof) returns (asked: Chain, done: Chain, cached: Option<seq<Commitment>>)
    requires Valid(fs, m) && fs.maxWidth >= 2 && cfg.maxBlobNum >= 2 && cfg.maxKeys >= 1
    ensures Reachable(cfg, asked) && asked.st.now == 2
    ensures var list := CommitmentsAndLookups(asked.st, 1).commitments;
      var (r, after) := Answer(ExtendFsG1(fs, m, list), cfg.maxBlobNum, None, list, 1);
      list == [commitment] && r.Some? && after == cached
    ensures Reaches(cfg, asked, done, false) && done.finalized && done.st.now == 2
    ensures forall d :: Reaches(cfg, done, d, false) ==> StaleAt(cfg, fs, m, d, cached, commitment)
  {
    var c0 := Genesis([key]);
    ReachesSelf(cfg, c0, false);
    var c1 := OneMoreBlob(cfg, c0, who, commitment, proof);
    ReachesNext(cfg, c0, c0, Submitting(who, OneCommitment(c0.st, commitment, proof)), c1, false);
    var c2, c3 := FinalizeEarly(cfg, c1);
    ReachesNext(cfg, c0, c1, Finalizing({}), c2, false);
    ReachesNext(cfg, c0, c2, NextBlock, c3, false);
    assert Initial(cfg, c0);
    asked := c3;
    OneBlob(asked.st, 1);
    cached := CachedFirst(fs, m, cfg.maxBlobNum, commitment);
    PowerWithoutVotes(cfg, asked.st, BlobId(1, 0));
    var voted := VotedOut(cfg, asked, 1, 0);
    ReachesByReports(cfg, asked, voted);
    OneBlob(voted.st, 1);
    var next;
    done, next := FinalizeEarly(cfg, voted);
    ReachesNext(cfg, asked, voted, Finalizing({}), done, false);
    ReachesAll(cfg, c0, asked, done, false);
    forall d | Reaches(cfg, done, d, false) ensures StaleAt(cfg, fs, m, d, cached, commitment) {
      StaysStale(cfg, done, d);
    }
  }

  lemma CachedFirst<F(!new)>(fs: FftSettings<F>, m: Module<F, Commitment>, maxLen: nat, commitment: Commitment)
    returns (cached: Option<seq<Commitment>>)
    requires Valid(fs, m) && fs.maxWidth >= 2 && maxLen >= 2
    ensures Answer(ExtendFsG1(fs, m, [commitment]), maxLen, None, [commitment], 1).0.Some?
    ensures Answer(ExtendFsG1(fs, m, [commitment]), maxLen, None, [commitment], 1).1 == cached
    ensures cached.Some? && |cached.value| == 2 && cached.value[0] == commitment
  {
    ExtendFsG1Interleaves(fs, m, [commitment]);
    var e := ExtendFsG1(fs, m, [commitment]).value;
    assert Evens(e)[0] == e[0];
    cached := Some(e);
  }

  /** A header stays as it is, and so does the list of a block whose votes are over. */
  lemma StaysStale(cfg: Config, done: Chain, d: Chain)
    requires Reachable(cfg, done) && Reaches(cfg, done, d, false)
    requires done.finalized && done.st.now == 2
    ensures 2 in d.headers && d.headers[2] == CommitmentsAndLookups(done.st, 1)
    ensures CommitmentsAndLookups(d.st, 1) == CommitmentsAndLookups(done.st, 1)
  {
    var path :| Joins(cfg, path, done, d, false);
    PathSettled(cfg, path, |path| - 1, 1);
    var run, k := RunThrough(cfg, done, d);
    RunFrozen(cfg, run, k);
    RunExtends(cfg, run, k, |run| - 1);
  }

  lemma OneBlob(s: State, block: nat)
    requires |s.BlobsAt(block)| == 1
    ensures CommitmentsAndLookups(s, block).commitments ==
      if s.BlobsAt(block)[0].isAvailable then s.BlobsAt(block)[0].commitments else []
  {
    var blobs := s.BlobsAt(block);
    assert blobs[..0] == [];
    assert Available(blobs) == if blobs[0].isAvailable then [blobs[0]] else [];
    assert blobs[0].isAvailable ==> Flatten([blobs[0]]).commitments == blobs[0].commitments by {
      assert [blobs[0]][..0] == [];
    }
  }
}
