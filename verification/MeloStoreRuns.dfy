/**
 Runs of the chain through the pallet: blocks of calls, session changes, finalization, headers.

 A chain records, next to the pallet's state, what happened so far: the headers built, every vote
 that was accepted with the keys at that time, every accepted submission, and the number of apps
 registered.
 */
module MeloStoreRuns {
  import opened Sequences
  import opened MeloStore

  /** An accepted vote: the index of the authority, and the keys at that time. */
  datatype Vote = Vote(id: BlobId, authority: nat, keys: seq<AuthorityId>)

  /** An accepted submission: the block, the newest app id at that time, the account and what it submitted. */
  datatype Submission = Submission(block: nat, newest: nat, who: AccountId, params: SidecarMetadata)

  datatype Chain = Chain(
    st: State,
    finalized: bool,
    headers: map<nat, HeaderLists>,
    log: seq<Vote>,
    submissions: seq<Submission>,
    registered: nat)

  datatype Step =
    | Submitting(who: AccountId, params: SidecarMetadata)
    | Reporting(report: UnavailableDataReport)
    | Registering
    | NewSession(keys: seq<AuthorityId>)
    | Disabling(key: nat)
    | Finalizing(cleared: set<nat>)
    | NextBlock

  function VotesCast(block: nat, authority: nat, indexes: seq<nat>, keys: seq<AuthorityId>): seq<Vote> {
    seq(|indexes|, i requires 0 <= i < |indexes| => Vote(BlobId(block, indexes[i]), authority, keys))
  }

  ghost predicate Initial(cfg: Config, c: Chain) {
    && c.st.metadata == map[] && c.st.votes == map[] && c.st.nonces == map[]
    && |c.st.keys| <= cfg.maxKeys && c.st.appId == 0 && c.st.now == 1
    && !c.finalized && c.headers == map[] && c.log == [] && c.submissions == [] && c.registered == 0
  }

  /** One step of the chain. A call that fails changes nothing. */
  ghost predicate Next(cfg: Config, c: Chain, step: Step, d: Chain) {
    match step
    case Submitting(who, params) =>
      !c.finalized && d == (match SubmitData(cfg, c.st, who, params)
        case Done(s) => c.(st := s, submissions := c.submissions + [Submission(c.st.now, c.st.appId, who, params)])
        case Failed(_) => c)
    case Reporting(report) =>
      !c.finalized && d == (match ReportUnavailable(cfg, c.st, report)
        case Done(s) => c.(st := s, log := c.log + VotesCast(report.atBlock, report.authorityIndex, report.indexSet, c.st.keys))
        case Failed(_) => c)
    case Registering => !c.finalized && d == c.(st := RegisterApp(c.st), registered := c.registered + 1)
    case NewSession(keys) => d == c.(st := c.st.(keys := keys))
    case Disabling(key) => key < |c.st.keys| && d == c.(st := c.st.(keys := c.st.keys[..key] + c.st.keys[key + 1..]))
    case Finalizing(cleared) =>
      && !c.finalized
      && (DELAY_CHECK_THRESHOLD + 1 < c.st.now ==> Clears(cfg, c.st, c.st.now - (DELAY_CHECK_THRESHOLD + 1), cleared))
      && var s := OnFinalize(c.st, cleared);
         d == c.(st := s, finalized := true, headers := c.headers[c.st.now := Last(s)])
    case NextBlock => c.finalized && d == c.(st := c.st.(now := c.st.now + 1), finalized := false)
  }

  ghost predicate IsRun(cfg: Config, run: seq<Chain>) {
    && |run| > 0 && Initial(cfg, run[0])
    && forall i: nat :: i < |run| - 1 ==> StepAt(cfg, run, i)
  }

  ghost predicate StepAt(cfg: Config, run: seq<Chain>, i: nat)
    requires i + 1 < |run|
  {
    CanStep(cfg, run[i], run[i + 1])
  }

  ghost predicate CanStep(cfg: Config, c: Chain, d: Chain) {
    exists step :: Next(cfg, c, step, d)
  }

  // ----- what the votes say -----

  /** The authorities whose votes on the blob were accepted. */
  ghost function Authors(log: seq<Vote>, id: BlobId): set<nat> {
    set v | v in log && v.id == id :: v.authority
  }

  /** Vote t was on this blob, and with it more than half of the keys of that time had voted. */
  ghost predicate MajorityAt(log: seq<Vote>, id: BlobId, t: nat) {
    t < |log| && log[t].id == id && |Authors(log[..t + 1], id)| > |log[t].keys| / 2
  }

  ghost predicate Outvoted(log: seq<Vote>, id: BlobId) {
    exists t :: MajorityAt(log, id, t)
  }

  ghost predicate NoDoubleVote(log: seq<Vote>) {
    forall s, t :: 0 <= s < t < |log| && log[s].id == log[t].id ==> log[s].authority != log[t].authority
  }

  lemma {:induction false} AuthorsAppend(log: seq<Vote>, v: Vote, id: BlobId)
    ensures Authors(log + [v], id) == Authors(log, id) + if v.id == id then {v.authority} else {}
  {
    forall a ensures a in Authors(log + [v], id) <==> a in Authors(log, id) + if v.id == id then {v.authority} else {} {
      if a in Authors(log, id) {
        var u :| u in log && u.id == id && u.authority == a;
        assert u in log + [v];
      }
      if v.id == id {
        assert v in log + [v];
      }
    }
  }

  lemma OutvotedAppend(log: seq<Vote>, v: Vote, id: BlobId)
    ensures Outvoted(log + [v], id) <==> Outvoted(log, id) || (v.id == id && |Authors(log + [v], id)| > |v.keys| / 2)
  {
    var more := log + [v];
    forall t | 0 <= t < |log| ensures MajorityAt(more, id, t) <==> MajorityAt(log, id, t) {
      assert more[..t + 1] == log[..t + 1];
    }
    assert more[..|log| + 1] == more;
    if Outvoted(log, id) {
      var t :| MajorityAt(log, id, t);
      assert MajorityAt(more, id, t);
    }
    if v.id == id && |Authors(more, id)| > |v.keys| / 2 {
      assert MajorityAt(more, id, |log|);
    }
    if Outvoted(more, id) {
      var t :| MajorityAt(more, id, t);
    }
  }

  // ----- the invariant -----

  ghost predicate PastBlocks(cfg: Config, c: Chain) {
    && c.st.now >= 1
    && (forall b :: b in c.st.metadata ==> 1 <= b <= c.st.now)
    && (forall b :: |c.st.BlobsAt(b)| <= cfg.maxKeys)
  }

  /** The header of block n holds what the blobs of block n - 1 give now. */
  ghost predicate HeadersFrozen(c: Chain) {
    && (c.finalized ==> c.st.now in c.headers)
    && forall n :: n in c.headers ==>
         && (n < c.st.now || (n == c.st.now && c.finalized))
         && c.headers[n] == if n <= 1 then HeaderLists([], []) else CommitmentsAndLookups(c.st, n - 1)
  }

  /** The vote table agrees with the votes accepted. */
  ghost predicate VotesRecorded(cfg: Config, c: Chain) {
    forall id :: id in c.st.votes ==> Recorded(cfg, c.log, id, c.st.votes[id])
  }

  ghost predicate Recorded(cfg: Config, log: seq<Vote>, id: BlobId, cast: seq<nat>) {
    && |cast| == |Authors(log, id)| <= cfg.maxBlobNum
    && forall a :: a in cast <==> a in Authors(log, id)
  }

  /** Every accepted vote was on an existing blob, by the holder of a key of that time. */
  ghost predicate LogValid(c: Chain) {
    forall v :: v in c.log ==> v.id.index < |c.st.BlobsAt(v.id.block)| && v.authority < |v.keys|
  }

  /** The votes on blobs that can still be voted on have not been cleared. */
  ghost predicate VotesLive(c: Chain) {
    forall v :: v in c.log && c.st.now <= v.id.block + 1 ==> v.id in c.st.votes
  }

  /** A blob is unavailable exactly when it was outvoted. */
  ghost predicate Judged(c: Chain) {
    forall b, i :: 0 <= i < |c.st.BlobsAt(b)| ==> (c.st.BlobsAt(b)[i].isAvailable <==> !Outvoted(c.log, BlobId(b, i)))
  }

  function Under(subs: seq<Submission>, app: nat): nat {
    if |subs| == 0 then 0 else Under(subs[..|subs| - 1], app) + if subs[|subs| - 1].newest == app then 1 else 0
  }

  function Capped(n: nat): nat {
    if n <= U32_MAX then n else U32_MAX
  }

  /** The nonce of a submission is its rank among those accepted under the same newest app id. */
  ghost predicate NoncesAreRanks(c: Chain) {
    && (forall app :: c.st.NonceOf(app) == Capped(Under(c.submissions, app)))
    && forall t :: 0 <= t < |c.submissions| ==> Ranked(c.submissions, t)
  }

  ghost predicate Inv(cfg: Config, c: Chain) {
    && PastBlocks(cfg, c) && HeadersFrozen(c) && VotesRecorded(cfg, c)
    && LogValid(c) && NoDoubleVote(c.log) && VotesLive(c) && Judged(c) && NoncesAreRanks(c)
  }

  // ----- what keeps each part of the invariant -----

  /** The blobs that the headers so far are about are the same. */
  ghost predicate SameBefore(c: Chain, d: Chain) {
    && d.st.now == c.st.now && d.finalized == c.finalized && d.headers == c.headers
    && forall b: nat :: b + 1 < c.st.now || (b + 1 == c.st.now && c.finalized) ==> d.st.BlobsAt(b) == c.st.BlobsAt(b)
  }

  lemma HeadersKept(c: Chain, d: Chain)
    requires HeadersFrozen(c) && SameBefore(c, d)
    ensures HeadersFrozen(d)
  {
    forall n | n in d.headers && n > 1 ensures d.headers[n] == CommitmentsAndLookups(d.st, n - 1) {
      assert d.st.BlobsAt(n - 1) == c.st.BlobsAt(n - 1);
    }
  }

  lemma NoncesKept(c: Chain, d: Chain)
    requires NoncesAreRanks(c) && d.st.nonces == c.st.nonces && d.submissions == c.submissions
    ensures NoncesAreRanks(d)
  {
    forall app ensures d.st.NonceOf(app) == Capped(Under(d.submissions, app)) {
      assert c.st.NonceOf(app) == Capped(Under(c.submissions, app));
    }
  }

  lemma BlocksKept(cfg: Config, c: Chain, d: Chain)
    requires PastBlocks(cfg, c) && d.st.metadata == c.st.metadata && c.st.now <= d.st.now
    ensures PastBlocks(cfg, d)
  {
    forall b ensures |d.st.BlobsAt(b)| <= cfg.maxKeys {
      assert |c.st.BlobsAt(b)| <= cfg.maxKeys;
    }
  }

  lemma LogKept(c: Chain, d: Chain)
    requires LogValid(c) && d.st.metadata == c.st.metadata && d.log == c.log
    ensures LogValid(d)
  {
    forall v | v in d.log ensures v.id.index < |d.st.BlobsAt(v.id.block)| && v.authority < |v.keys| {
      assert v.id.index < |c.st.BlobsAt(v.id.block)|;
    }
  }

  lemma JudgementKept(c: Chain, d: Chain)
    requires Judged(c) && d.st.metadata == c.st.metadata && d.log == c.log
    ensures Judged(d)
  {
    forall b, i | 0 <= i < |d.st.BlobsAt(b)|
      ensures d.st.BlobsAt(b)[i].isAvailable <==> !Outvoted(d.log, BlobId(b, i))
    {
      assert c.st.BlobsAt(b)[i].isAvailable <==> !Outvoted(c.log, BlobId(b, i));
    }
  }

  lemma RecordsKept(cfg: Config, c: Chain, d: Chain)
    requires VotesRecorded(cfg, c) && d.log == c.log
    requires forall id :: id in d.st.votes ==> id in c.st.votes && d.st.votes[id] == c.st.votes[id]
    ensures VotesRecorded(cfg, d)
  {
    forall id | id in d.st.votes ensures Recorded(cfg, d.log, id, d.st.votes[id]) {
      assert Recorded(cfg, c.log, id, c.st.votes[id]);
    }
  }

  /** A step that leaves the blobs, the log and the submissions alone, and drops no vote that is still needed. */
  lemma QuietKeepsInv(cfg: Config, c: Chain, d: Chain)
    requires Inv(cfg, c) && HeadersFrozen(d) && VotesLive(d) && c.st.now <= d.st.now
    requires d.st.metadata == c.st.metadata && d.st.nonces == c.st.nonces && d.log == c.log && d.submissions == c.submissions
    requires forall id :: id in d.st.votes ==> id in c.st.votes && d.st.votes[id] == c.st.votes[id]
    ensures Inv(cfg, d)
  {
    BlocksKept(cfg, c, d);
    RecordsKept(cfg, c, d);
    LogKept(c, d);
    JudgementKept(c, d);
    NoncesKept(c, d);
  }

  // ----- one vote -----

  /** The chain after one accepted vote. */
  ghost function Voted(c: Chain, s: State, id: BlobId, authority: nat): Chain {
    c.(st := s, log := c.log + [Vote(id, authority, c.st.keys)])
  }

  /** The votes stored for a blob that can still be voted on are those accepted. */
  lemma CastIsAuthors(cfg: Config, c: Chain, id: BlobId)
    requires VotesRecorded(cfg, c) && VotesLive(c)
    requires c.st.now <= id.block + 1
    ensures Recorded(cfg, c.log, id, if id in c.st.votes then c.st.votes[id] else [])
  {
    if id !in c.st.votes {
      assert Authors(c.log, id) == {};
    }
  }

  lemma VoteEffect(cfg: Config, s: State, block: nat, authority: nat, index: nat)
    requires VoteOne(cfg, s, block, authority, index).Done?
    ensures var t := VoteOne(cfg, s, block, authority, index).value;
      && t.now == s.now && t.keys == s.keys && t.nonces == s.nonces && t.appId == s.appId
      && t.metadata.Keys == s.metadata.Keys
      && (forall b :: b != block ==> t.BlobsAt(b) == s.BlobsAt(b))
      && |t.BlobsAt(block)| == |s.BlobsAt(block)|
      && (forall i :: 0 <= i < |s.BlobsAt(block)| && i != index ==> t.BlobsAt(block)[i] == s.BlobsAt(block)[i])
  {
    assert block in s.metadata;
  }

  lemma VoteIsRecorded(cfg: Config, c: Chain, block: nat, authority: nat, index: nat)
    requires VotesRecorded(cfg, c) && VotesLive(c) && c.st.now <= block + 1
    requires VoteOne(cfg, c.st, block, authority, index).Done?
    ensures VotesRecorded(cfg, Voted(c, VoteOne(cfg, c.st, block, authority, index).value, BlobId(block, index), authority))
  {
    var id := BlobId(block, index);
    var s := VoteOne(cfg, c.st, block, authority, index).value;
    CastIsAuthors(cfg, c, id);
    forall i | i in s.votes ensures Recorded(cfg, Voted(c, s, id, authority).log, i, s.votes[i]) {
      AuthorsAppend(c.log, Vote(id, authority, c.st.keys), i);
    }
  }

  lemma VoteIsNew(cfg: Config, c: Chain, block: nat, authority: nat, index: nat)
    requires VotesRecorded(cfg, c) && VotesLive(c) && NoDoubleVote(c.log) && c.st.now <= block + 1
    requires VoteOne(cfg, c.st, block, authority, index).Done?
    ensures NoDoubleVote(Voted(c, VoteOne(cfg, c.st, block, authority, index).value, BlobId(block, index), authority).log)
  {
    var id := BlobId(block, index);
    CastIsAuthors(cfg, c, id);
    forall t | 0 <= t < |c.log| && c.log[t].id == id ensures c.log[t].authority != authority {
      assert c.log[t] in c.log;
      assert c.log[t].authority in Authors(c.log, id);
    }
  }

  lemma VoteKeepsRecords(cfg: Config, c: Chain, block: nat, authority: nat, index: nat)
    requires VotesRecorded(cfg, c) && VotesLive(c) && NoDoubleVote(c.log)
    requires c.st.now <= block + 1
    requires VoteOne(cfg, c.st, block, authority, index).Done?
    ensures var d := Voted(c, VoteOne(cfg, c.st, block, authority, index).value, BlobId(block, index), authority);
            VotesRecorded(cfg, d) && NoDoubleVote(d.log) && VotesLive(d)
  {
    VoteIsRecorded(cfg, c, block, authority, index);
    VoteIsNew(cfg, c, block, authority, index);
  }

  lemma VoteKeepsJudgement(cfg: Config, c: Chain, block: nat, authority: nat, index: nat)
    requires VotesRecorded(cfg, c) && VotesLive(c) && Judged(c)
    requires c.st.now <= block + 1
    requires VoteOne(cfg, c.st, block, authority, index).Done?
    ensures Judged(Voted(c, VoteOne(cfg, c.st, block, authority, index).value, BlobId(block, index), authority))
  {
    var id := BlobId(block, index);
    var s := VoteOne(cfg, c.st, block, authority, index).value;
    var v := Vote(id, authority, c.st.keys);
    VoteEffect(cfg, c.st, block, authority, index);
    forall b, i | 0 <= i < |s.BlobsAt(b)|
      ensures s.BlobsAt(b)[i].isAvailable <==> !Outvoted(c.log + [v], BlobId(b, i))
    {
      OutvotedAppend(c.log, v, BlobId(b, i));
      if BlobId(b, i) == id {
        VoteJudges(cfg, c, block, authority, index);
      } else {
        assert b != block || i != index;
      }
    }
  }

  /** The vote makes the blob unavailable exactly if its voters are now more than half of the keys. */
  lemma VoteJudges(cfg: Config, c: Chain, block: nat, authority: nat, index: nat)
    requires VotesRecorded(cfg, c) && VotesLive(c) && c.st.now <= block + 1
    requires VoteOne(cfg, c.st, block, authority, index).Done?
    ensures var id, s := BlobId(block, index), VoteOne(cfg, c.st, block, authority, index).value;
      && index < |c.st.BlobsAt(block)| && index < |s.BlobsAt(block)|
      && (s.BlobsAt(block)[index].isAvailable <==>
            c.st.BlobsAt(block)[index].isAvailable
            && |Authors(c.log + [Vote(id, authority, c.st.keys)], id)| <= |c.st.keys| / 2)
  {
    var id := BlobId(block, index);
    CastIsAuthors(cfg, c, id);
    AuthorsAppend(c.log, Vote(id, authority, c.st.keys), id);
  }

  lemma VoteKeepsBlocks(cfg: Config, c: Chain, block: nat, authority: nat, index: nat)
    requires PastBlocks(cfg, c) && LogValid(c) && authority < |c.st.keys|
    requires VoteOne(cfg, c.st, block, authority, index).Done?
    ensures var d := Voted(c, VoteOne(cfg, c.st, block, authority, index).value, BlobId(block, index), authority);
            PastBlocks(cfg, d) && LogValid(d)
  {
    VoteEffect(cfg, c.st, block, authority, index);
    var d := Voted(c, VoteOne(cfg, c.st, block, authority, index).value, BlobId(block, index), authority);
    assert forall b :: |d.st.BlobsAt(b)| == |c.st.BlobsAt(b)|;
  }

  lemma VoteKeepsInv(cfg: Config, c: Chain, block: nat, authority: nat, index: nat)
    requires Inv(cfg, c) && !c.finalized
    requires block <= c.st.now <= block + 1 && authority < |c.st.keys|
    requires VoteOne(cfg, c.st, block, authority, index).Done?
    ensures Inv(cfg, Voted(c, VoteOne(cfg, c.st, block, authority, index).value, BlobId(block, index), authority))
  {
    var d := Voted(c, VoteOne(cfg, c.st, block, authority, index).value, BlobId(block, index), authority);
    assert SameBefore(c, d) by {
      VoteEffect(cfg, c.st, block, authority, index);
    }
    HeadersKept(c, d);
    VoteKeepsBlocks(cfg, c, block, authority, index);
    VoteKeepsRecords(cfg, c, block, authority, index);
    VoteKeepsJudgement(cfg, c, block, authority, index);
    assert NoncesAreRanks(d) by {
      VoteEffect(cfg, c.st, block, authority, index);
      NoncesKept(c, d);
    }
  }

  // ----- every step keeps the invariant -----

  /** The chain after an accepted report. */
  ghost function Reported(cfg: Config, c: Chain, block: nat, authority: nat, indexes: seq<nat>): Chain
    requires VoteAll(cfg, c.st, block, authority, indexes).Done?
  {
    c.(st := VoteAll(cfg, c.st, block, authority, indexes).value,
       log := c.log + VotesCast(block, authority, indexes, c.st.keys))
  }

  lemma VotesCastSplit(log: seq<Vote>, block: nat, authority: nat, indexes: seq<nat>, keys: seq<AuthorityId>)
    requires |indexes| > 0
    ensures log + VotesCast(block, authority, indexes, keys) ==
            (log + [Vote(BlobId(block, indexes[0]), authority, keys)]) + VotesCast(block, authority, indexes[1..], keys)
  {
  }

  /** A report is one vote followed by the report on the other indexes. */
  lemma ReportUnfolds(cfg: Config, c: Chain, block: nat, authority: nat, indexes: seq<nat>)
    requires |indexes| > 0
    requires VoteAll(cfg, c.st, block, authority, indexes).Done?
    ensures VoteOne(cfg, c.st, block, authority, indexes[0]).Done?
    ensures var d := Voted(c, VoteOne(cfg, c.st, block, authority, indexes[0]).value, BlobId(block, indexes[0]), authority);
      && d.st.now == c.st.now && d.st.keys == c.st.keys
      && VoteAll(cfg, d.st, block, authority, indexes[1..]).Done?
      && Reported(cfg, c, block, authority, indexes) == Reported(cfg, d, block, authority, indexes[1..])
  {
    var d := Voted(c, VoteOne(cfg, c.st, block, authority, indexes[0]).value, BlobId(block, indexes[0]), authority);
    VoteEffect(cfg, c.st, block, authority, indexes[0]);
    VotesCastSplit(c.log, block, authority, indexes, c.st.keys);
  }

  lemma {:induction false} ReportKeepsInv(cfg: Config, c: Chain, block: nat, authority: nat, indexes: seq<nat>)
    requires Inv(cfg, c) && !c.finalized
    requires block <= c.st.now <= block + 1 && authority < |c.st.keys|
    requires VoteAll(cfg, c.st, block, authority, indexes).Done?
    ensures Inv(cfg, Reported(cfg, c, block, authority, indexes))
    decreases |indexes|
  {
    if |indexes| == 0 {
      assert c.log + VotesCast(block, authority, indexes, c.st.keys) == c.log;
      assert Reported(cfg, c, block, authority, indexes) == c;
    } else {
      ReportUnfolds(cfg, c, block, authority, indexes);
      VoteKeepsInv(cfg, c, block, authority, indexes[0]);
      var d := Voted(c, VoteOne(cfg, c.st, block, authority, indexes[0]).value, BlobId(block, indexes[0]), authority);
      ReportKeepsInv(cfg, d, block, authority, indexes[1..]);
    }
  }

  lemma {:induction false} UnderAppend(subs: seq<Submission>, x: Submission, app: nat)
    ensures Under(subs + [x], app) == Under(subs, app) + if x.newest == app then 1 else 0
  {
    assert (subs + [x])[..|subs|] == subs;
  }

  ghost predicate Ranked(subs: seq<Submission>, t: nat)
    requires t < |subs|
  {
    subs[t].params.nonce == Capped(Under(subs[..t], subs[t].newest) + 1)
  }

  lemma RanksAppend(subs: seq<Submission>, x: Submission)
    requires forall t :: 0 <= t < |subs| ==> Ranked(subs, t)
    requires x.params.nonce == Capped(Under(subs, x.newest) + 1)
    ensures forall t :: 0 <= t < |subs| + 1 ==> Ranked(subs + [x], t)
  {
    forall t | 0 <= t < |subs| + 1 ensures Ranked(subs + [x], t) {
      assert (subs + [x])[..t] == subs[..t];
      assert t < |subs| ==> Ranked(subs, t);
      assert subs[..|subs|] == subs;
    }
  }

  lemma SubmitKeepsNonces(cfg: Config, c: Chain, who: AccountId, params: SidecarMetadata)
    requires NoncesAreRanks(c) && SubmitData(cfg, c.st, who, params).Done?
    ensures NoncesAreRanks(Submitted(cfg, c, who, params))
  {
    var x := Submission(c.st.now, c.st.appId, who, params);
    var s := SubmitData(cfg, c.st, who, params).value;
    forall app ensures s.NonceOf(app) == Capped(Under(c.submissions + [x], app)) {
      UnderAppend(c.submissions, x, app);
      assert c.st.NonceOf(app) == Capped(Under(c.submissions, app));
    }
    RanksAppend(c.submissions, x);
  }

  /** The chain after an accepted submission. */
  ghost function Submitted(cfg: Config, c: Chain, who: AccountId, params: SidecarMetadata): Chain
    requires SubmitData(cfg, c.st, who, params).Done?
  {
    c.(st := SubmitData(cfg, c.st, who, params).value,
       submissions := c.submissions + [Submission(c.st.now, c.st.appId, who, params)])
  }

  lemma SubmitEffect(cfg: Config, c: Chain, who: AccountId, params: SidecarMetadata)
    requires SubmitData(cfg, c.st, who, params).Done?
    ensures var d := Submitted(cfg, c, who, params);
      && (forall b :: b != c.st.now ==> d.st.BlobsAt(b) == c.st.BlobsAt(b))
      && |d.st.BlobsAt(c.st.now)| == |c.st.BlobsAt(c.st.now)| + 1 <= cfg.maxKeys
      && (forall i :: 0 <= i < |c.st.BlobsAt(c.st.now)| ==> d.st.BlobsAt(c.st.now)[i] == c.st.BlobsAt(c.st.now)[i])
      && d.st.BlobsAt(c.st.now)[|c.st.BlobsAt(c.st.now)|].isAvailable
  {
  }

  lemma SubmitKeepsBlocks(cfg: Config, c: Chain, who: AccountId, params: SidecarMetadata)
    requires PastBlocks(cfg, c) && LogValid(c) && SubmitData(cfg, c.st, who, params).Done?
    ensures PastBlocks(cfg, Submitted(cfg, c, who, params)) && LogValid(Submitted(cfg, c, who, params))
  {
    SubmitEffect(cfg, c, who, params);
    var d := Submitted(cfg, c, who, params);
    assert forall b :: |c.st.BlobsAt(b)| <= |d.st.BlobsAt(b)| <= cfg.maxKeys;
  }

  /** No vote was on the new blob. */
  lemma SubmitKeepsJudgement(cfg: Config, c: Chain, who: AccountId, params: SidecarMetadata)
    requires LogValid(c) && Judged(c) && SubmitData(cfg, c.st, who, params).Done?
    ensures Judged(Submitted(cfg, c, who, params))
  {
    SubmitEffect(cfg, c, who, params);
    var d, now, n := Submitted(cfg, c, who, params), c.st.now, |c.st.BlobsAt(c.st.now)|;
    forall t: nat ensures !MajorityAt(c.log, BlobId(now, n), t) {
      assert t < |c.log| ==> c.log[t] in c.log;
    }
    forall b, i | 0 <= i < |d.st.BlobsAt(b)|
      ensures d.st.BlobsAt(b)[i].isAvailable <==> !Outvoted(d.log, BlobId(b, i))
    {
      assert b != now || i < n ==> d.st.BlobsAt(b)[i] == c.st.BlobsAt(b)[i];
    }
  }

  lemma SubmitKeepsInv(cfg: Config, c: Chain, who: AccountId, params: SidecarMetadata)
    requires Inv(cfg, c) && !c.finalized && SubmitData(cfg, c.st, who, params).Done?
    ensures Inv(cfg, Submitted(cfg, c, who, params))
  {
    var d := Submitted(cfg, c, who, params);
    SubmitKeepsNonces(cfg, c, who, params);
    SubmitKeepsBlocks(cfg, c, who, params);
    SubmitKeepsJudgement(cfg, c, who, params);
    RecordsKept(cfg, c, d);
    assert SameBefore(c, d) by {
      SubmitEffect(cfg, c, who, params);
    }
    HeadersKept(c, d);
    assert VotesLive(d);
  }

  /** The chain after finalization. */
  ghost function Finalized(c: Chain, cleared: set<nat>): Chain {
    var s := OnFinalize(c.st, cleared);
    c.(st := s, finalized := true, headers := c.headers[c.st.now := Last(s)])
  }

  lemma SameLookups(s: State, t: State, block: nat)
    requires s.metadata == t.metadata
    ensures CommitmentsAndLookups(s, block) == CommitmentsAndLookups(t, block)
  {
    assert s.BlobsAt(block) == t.BlobsAt(block);
  }

  /** The header of the block is added when only votes were removed. */
  lemma HeaderAdded(c: Chain, s: State)
    requires HeadersFrozen(c) && !c.finalized
    requires s.metadata == c.st.metadata && s.now == c.st.now
    ensures HeadersFrozen(c.(st := s, finalized := true, headers := c.headers[c.st.now := Last(s)]))
  {
    var headers := c.headers[c.st.now := Last(s)];
    forall n | n in headers
      ensures n <= s.now
      ensures headers[n] == if n <= 1 then HeaderLists([], []) else CommitmentsAndLookups(s, n - 1)
    {
      if n != c.st.now {
        assert n in c.headers;
        if n > 1 {
          SameLookups(s, c.st, n - 1);
        }
      }
    }
  }

  lemma FinalizeKeepsHeaders(c: Chain, cleared: set<nat>)
    requires HeadersFrozen(c) && !c.finalized
    ensures HeadersFrozen(Finalized(c, cleared))
  {
    HeaderAdded(c, OnFinalize(c.st, cleared));
  }

  lemma FinalizeKeepsVotes(c: Chain, cleared: set<nat>)
    requires VotesLive(c)
    ensures VotesLive(Finalized(c, cleared))
    ensures forall id :: id in Finalized(c, cleared).st.votes ==>
              id in c.st.votes && Finalized(c, cleared).st.votes[id] == c.st.votes[id]
  {
    var d := Finalized(c, cleared);
    forall v | v in d.log && d.st.now <= v.id.block + 1 ensures v.id in d.st.votes {
      assert v.id in c.st.votes;
    }
  }

  lemma FinalizeKeepsInv(cfg: Config, c: Chain, cleared: set<nat>)
    requires Inv(cfg, c) && !c.finalized
    ensures Inv(cfg, Finalized(c, cleared))
  {
    FinalizeKeepsHeaders(c, cleared);
    FinalizeKeepsVotes(c, cleared);
    QuietKeepsInv(cfg, c, Finalized(c, cleared));
  }

  lemma NextBlockKeepsInv(cfg: Config, c: Chain, d: Chain)
    requires Inv(cfg, c) && c.finalized && d == c.(st := c.st.(now := c.st.now + 1), finalized := false)
    ensures Inv(cfg, d)
  {
    assert HeadersFrozen(d) by {
      forall n | n in d.headers && n > 1 ensures d.headers[n] == CommitmentsAndLookups(d.st, n - 1) {
        assert d.st.BlobsAt(n - 1) == c.st.BlobsAt(n - 1);
      }
    }
    assert VotesLive(d);
    QuietKeepsInv(cfg, c, d);
  }

  /** Steps that change only the keys or the newest app id. */
  lemma SettingKeepsInv(cfg: Config, c: Chain, d: Chain)
    requires Inv(cfg, c)
    requires d == c.(st := c.st.(keys := d.st.keys, appId := d.st.appId), registered := d.registered)
    ensures Inv(cfg, d)
  {
    assert SameBefore(c, d);
    HeadersKept(c, d);
    assert VotesLive(d);
    QuietKeepsInv(cfg, c, d);
  }

  lemma StepKeepsInv(cfg: Config, c: Chain, step: Step, d: Chain)
    requires Inv(cfg, c) && Next(cfg, c, step, d)
    ensures Inv(cfg, d)
  {
    match step
    case Submitting(who, params) =>
      if SubmitData(cfg, c.st, who, params).Done? {
        SubmitKeepsInv(cfg, c, who, params);
      }
    case Reporting(report) =>
      if ReportUnavailable(cfg, c.st, report).Done? {
        ReportKeepsInv(cfg, c, report.atBlock, report.authorityIndex, report.indexSet);
      }
    case Finalizing(cleared) =>
      FinalizeKeepsInv(cfg, c, cleared);
    case NextBlock =>
      NextBlockKeepsInv(cfg, c, d);
    case _ =>
      SettingKeepsInv(cfg, c, d);
  }

  lemma InitialInv(cfg: Config, c: Chain)
    requires Initial(cfg, c)
    ensures Inv(cfg, c)
  {
  }

  /** Every state of every run satisfies the invariant. */
  lemma {:induction false} RunInv(cfg: Config, run: seq<Chain>, i: nat)
    requires IsRun(cfg, run) && i < |run|
    ensures Inv(cfg, run[i])
  {
    if i == 0 {
      InitialInv(cfg, run[0]);
    } else {
      RunInv(cfg, run, i - 1);
      assert StepAt(cfg, run, i - 1);
      var step :| Next(cfg, run[i - 1], step, run[i]);
      StepKeepsInv(cfg, run[i - 1], step, run[i]);
    }
  }

  lemma RunFrozen(cfg: Config, run: seq<Chain>, i: nat)
    requires IsRun(cfg, run) && i < |run|
    ensures HeadersFrozen(run[i])
  {
    RunInv(cfg, run, i);
  }

  // ----- what holds between two states of a run -----

  /** The accepted votes and the headers of a state are kept by every later one. */
  ghost predicate Extends(c: Chain, d: Chain) {
    && c.log <= d.log && c.st.now <= d.st.now
    && (c.st.now == d.st.now && c.finalized ==> d.finalized)
    && (forall n :: n in c.headers ==> n in d.headers && d.headers[n] == c.headers[n])
    && (forall b :: |c.st.BlobsAt(b)| <= |d.st.BlobsAt(b)|)
  }

  lemma {:induction false} ReportSizes(cfg: Config, s: State, block: nat, authority: nat, indexes: seq<nat>)
    requires VoteAll(cfg, s, block, authority, indexes).Done?
    ensures var t := VoteAll(cfg, s, block, authority, indexes).value;
      t.now == s.now && t.keys == s.keys && forall b :: |t.BlobsAt(b)| == |s.BlobsAt(b)|
    decreases |indexes|
  {
    if |indexes| > 0 {
      VoteEffect(cfg, s, block, authority, indexes[0]);
      var t := VoteOne(cfg, s, block, authority, indexes[0]).value;
      assert forall b :: |t.BlobsAt(b)| == |s.BlobsAt(b)|;
      ReportSizes(cfg, t, block, authority, indexes[1..]);
    }
  }

  lemma StepExtends(cfg: Config, c: Chain, step: Step, d: Chain)
    requires HeadersFrozen(c) && Next(cfg, c, step, d)
    ensures Extends(c, d)
  {
    match step
    case Reporting(report) =>
      if ReportUnavailable(cfg, c.st, report).Done? {
        ReportSizes(cfg, c.st, report.atBlock, report.authorityIndex, report.indexSet);
      }
    case _ =>
  }

  lemma ExtendsTransitive(a: Chain, b: Chain, c: Chain)
    requires Extends(a, b) && Extends(b, c)
    ensures Extends(a, c)
  {
  }

  lemma RunStepExtends(cfg: Config, run: seq<Chain>, i: nat)
    requires IsRun(cfg, run) && i + 1 < |run|
    ensures Extends(run[i], run[i + 1])
  {
    RunFrozen(cfg, run, i);
    assert StepAt(cfg, run, i);
    var step :| Next(cfg, run[i], step, run[i + 1]);
    StepExtends(cfg, run[i], step, run[i + 1]);
  }

  lemma {:induction false} RunExtends(cfg: Config, run: seq<Chain>, i: nat, j: nat)
    requires IsRun(cfg, run) && i <= j < |run|
    ensures Extends(run[i], run[j])
    decreases j
  {
    if i < j {
      RunExtends(cfg, run, i, j - 1);
      RunStepExtends(cfg, run, j - 1);
      ExtendsTransitive(run[i], run[j - 1], run[j]);
    }
  }

  // ----- the theorems -----

  /**
   Header freeze: the lists put into the header of block n > 1 when it is finalized are the lists
   of block n - 1 in every later state.
   */
  lemma HeaderFreeze(cfg: Config, run: seq<Chain>, i: nat, j: nat)
    requires IsRun(cfg, run) && i <= j < |run|
    requires run[i].finalized && run[i].st.now > 1
    ensures Last(run[i].st) == CommitmentsAndLookups(run[j].st, run[i].st.now - 1)
  {
    RunInv(cfg, run, i);
    RunInv(cfg, run, j);
    RunExtends(cfg, run, i, j);
    var n := run[i].st.now;
    assert run[i].headers[n] == run[j].headers[n];
  }

  /**
   Majority vote: in every state of every run a blob is unavailable exactly when, at some accepted
   vote on it, the distinct authorities that had voted on it were more than half of the keys of
   that time. Each of them held a key when voting.
   */
  lemma MajorityVote(cfg: Config, run: seq<Chain>, i: nat, block: nat, index: nat)
    requires IsRun(cfg, run) && i < |run|
    requires index < |run[i].st.BlobsAt(block)|
    ensures run[i].st.BlobsAt(block)[index].isAvailable <==> !Outvoted(run[i].log, BlobId(block, index))
    ensures forall v :: v in run[i].log ==> v.authority < |v.keys|
  {
    RunInv(cfg, run, i);
  }

  /** An unavailable blob stays unavailable. */
  lemma NeverAvailableAgain(cfg: Config, run: seq<Chain>, i: nat, j: nat, block: nat, index: nat)
    requires IsRun(cfg, run) && i <= j < |run|
    requires index < |run[i].st.BlobsAt(block)| && !run[i].st.BlobsAt(block)[index].isAvailable
    ensures index < |run[j].st.BlobsAt(block)| && !run[j].st.BlobsAt(block)[index].isAvailable
  {
    RunExtends(cfg, run, i, j);
    MajorityVote(cfg, run, i, block, index);
    MajorityVote(cfg, run, j, block, index);
    var id := BlobId(block, index);
    var t :| MajorityAt(run[i].log, id, t);
    assert run[j].log[..t + 1] == run[i].log[..t + 1];
    assert MajorityAt(run[j].log, id, t);
  }

  /** Over a whole run no authority index is counted twice for one blob, although votes are erased. */
  lemma NoDoubleCounting(cfg: Config, run: seq<Chain>, i: nat, s: nat, t: nat)
    requires IsRun(cfg, run) && i < |run|
    requires s < t < |run[i].log| && run[i].log[s].id == run[i].log[t].id
    ensures run[i].log[s].authority != run[i].log[t].authority
  {
    RunInv(cfg, run, i);
  }

  /**
   Two votes on one blob are cast with the same key only if the keys changed between them or one key
   is listed twice.
   */
  lemma OneVotePerKey(cfg: Config, run: seq<Chain>, i: nat, s: nat, t: nat)
    requires IsRun(cfg, run) && i < |run|
    requires s < t < |run[i].log| && run[i].log[s].id == run[i].log[t].id
    ensures var u, v := run[i].log[s], run[i].log[t];
      && u.authority < |u.keys| && v.authority < |v.keys|
      && (u.keys[u.authority] == v.keys[v.authority] && Distinct(u.keys) ==> u.keys != v.keys)
  {
    RunInv(cfg, run, i);
    assert run[i].log[s] in run[i].log && run[i].log[t] in run[i].log;
  }

  lemma {:induction false} ManyKeysKeepBlobs(cfg: Config, s: State, block: nat, authority: nat, indexes: seq<nat>)
    requires VoteAll(cfg, s, block, authority, indexes).Done?
    requires |s.keys| >= 2 * cfg.maxBlobNum
    ensures forall b :: VoteAll(cfg, s, block, authority, indexes).value.BlobsAt(b) == s.BlobsAt(b)
    decreases |indexes|
  {
    if |indexes| > 0 {
      var t := VoteOne(cfg, s, block, authority, indexes[0]).value;
      VoteEffect(cfg, s, block, authority, indexes[0]);
      assert t.BlobsAt(block) == s.BlobsAt(block);
      ManyKeysKeepBlobs(cfg, t, block, authority, indexes[1..]);
    }
  }

  /** The votes of a blob are capped at the blob limit, so with twice as many keys no step can flip a blob. */
  lemma ManyKeysNeverFlip(cfg: Config, c: Chain, step: Step, d: Chain, block: nat, index: nat)
    requires Next(cfg, c, step, d)
    requires |c.st.keys| >= 2 * cfg.maxBlobNum
    requires index < |c.st.BlobsAt(block)|
    ensures index < |d.st.BlobsAt(block)| && d.st.BlobsAt(block)[index].isAvailable == c.st.BlobsAt(block)[index].isAvailable
  {
    match step
    case Reporting(report) =>
      if ReportUnavailable(cfg, c.st, report).Done? {
        ManyKeysKeepBlobs(cfg, c.st, report.atBlock, report.authorityIndex, report.indexSet);
        assert d.st.BlobsAt(block) == c.st.BlobsAt(block);
      }
    case _ =>
  }

  // ----- how long votes are kept -----

  /** The votes stored are on blobs of the last two blocks, or of the last three before finalization. */
  ghost predicate InWindow(c: Chain) {
    forall id :: id in c.st.votes ==> 1 <= id.block <= c.st.now <= id.block + if c.finalized then 1 else 2
  }

  lemma {:induction false} SubsetFull(a: set<nat>, b: set<nat>)
    requires a <= b && |a| == |b|
    ensures a == b
  {
    assert |b - a| == |b| - |a|;
    assert b == a + (b - a);
  }

  /**
   When block n > 2 is finalized, the votes on block n - 2 are all removed exactly when at most
   `maxBlobNum` of its blobs have votes.
   */
  lemma FinalizeClearsExpired(cfg: Config, c: Chain, cleared: set<nat>, d: Chain)
    requires Next(cfg, c, Finalizing(cleared), d) && c.st.now > 2
    ensures (forall id :: id in d.st.votes ==> id.block != c.st.now - 2)
       <==> |VotedAt(c.st, c.st.now - 2)| <= cfg.maxBlobNum
  {
    var expired := c.st.now - 2;
    var voted := VotedAt(c.st, expired);
    if |voted| <= cfg.maxBlobNum {
      SubsetFull(cleared, voted);
      forall id | id in d.st.votes ensures id.block != expired {
        assert id in c.st.votes;
        assert id.block == expired ==> id.index in voted;
      }
    } else {
      assert |voted - cleared| == |voted| - |cleared|;
      assert voted - cleared != {};
      var x :| x in voted - cleared;
      var id :| id in c.st.votes && id.block == expired && id.index == x;
      assert id in d.st.votes;
    }
  }

  lemma {:induction false} ReportVotes(cfg: Config, s: State, block: nat, authority: nat, indexes: seq<nat>)
    requires VoteAll(cfg, s, block, authority, indexes).Done?
    ensures var t := VoteAll(cfg, s, block, authority, indexes).value;
      && (forall id :: id in s.votes ==> id in t.votes)
      && (forall id :: id in t.votes && id !in s.votes ==> id.block == block && block in s.metadata)
      && (forall id :: id in s.votes && id.block != block ==> t.votes[id] == s.votes[id])
    decreases |indexes|
  {
    if |indexes| > 0 {
      VoteEffect(cfg, s, block, authority, indexes[0]);
      ReportVotes(cfg, VoteOne(cfg, s, block, authority, indexes[0]).value, block, authority, indexes[1..]);
    }
  }

  lemma StepKeepsWindow(cfg: Config, c: Chain, step: Step, d: Chain)
    requires PastBlocks(cfg, c) && InWindow(c) && Next(cfg, c, step, d)
    requires forall b :: |VotedAt(c.st, b)| <= cfg.maxBlobNum
    ensures InWindow(d)
  {
    match step
    case Reporting(report) =>
      if ReportUnavailable(cfg, c.st, report).Done? {
        ReportVotes(cfg, c.st, report.atBlock, report.authorityIndex, report.indexSet);
        ReportSizes(cfg, c.st, report.atBlock, report.authorityIndex, report.indexSet);
      }
    case Finalizing(cleared) =>
      if c.st.now > 2 {
        FinalizeClearsExpired(cfg, c, cleared, d);
      }
    case _ =>
  }

  /** With at most `maxBlobNum` voted blobs per block, only votes on the last two blocks outlive finalization. */
  lemma {:induction false} VotesWindow(cfg: Config, run: seq<Chain>, j: nat)
    requires IsRun(cfg, run) && j < |run|
    requires forall i, b :: 0 <= i < j ==> |VotedAt(run[i].st, b)| <= cfg.maxBlobNum
    ensures InWindow(run[j])
  {
    if j > 0 {
      VotesWindow(cfg, run, j - 1);
      RunInv(cfg, run, j - 1);
      assert StepAt(cfg, run, j - 1);
      var step :| Next(cfg, run[j - 1], step, run[j]);
      StepKeepsWindow(cfg, run[j - 1], step, run[j]);
    }
  }

  ghost predicate VotedExist(c: Chain) {
    forall id :: id in c.st.votes ==> id.index < |c.st.BlobsAt(id.block)|
  }

  lemma {:induction false} ReportVotedExist(cfg: Config, s: State, block: nat, authority: nat, indexes: seq<nat>)
    requires VoteAll(cfg, s, block, authority, indexes).Done?
    requires forall id :: id in s.votes ==> id.index < |s.BlobsAt(id.block)|
    ensures var t := VoteAll(cfg, s, block, authority, indexes).value;
            forall id :: id in t.votes ==> id.index < |t.BlobsAt(id.block)|
    decreases |indexes|
  {
    if |indexes| > 0 {
      VoteEffect(cfg, s, block, authority, indexes[0]);
      ReportVotedExist(cfg, VoteOne(cfg, s, block, authority, indexes[0]).value, block, authority, indexes[1..]);
    }
  }

  lemma StepVotedExist(cfg: Config, c: Chain, step: Step, d: Chain)
    requires VotedExist(c) && HeadersFrozen(c) && Next(cfg, c, step, d)
    ensures VotedExist(d)
  {
    StepExtends(cfg, c, step, d);
    match step
    case Reporting(report) =>
      if ReportUnavailable(cfg, c.st, report).Done? {
        ReportVotedExist(cfg, c.st, report.atBlock, report.authorityIndex, report.indexSet);
      }
    case _ =>
      assert forall id :: id in d.st.votes ==> id in c.st.votes;
  }

  lemma {:induction false} RunVotedExist(cfg: Config, run: seq<Chain>, j: nat)
    requires IsRun(cfg, run) && j < |run|
    ensures VotedExist(run[j])
  {
    if j > 0 {
      RunVotedExist(cfg, run, j - 1);
      RunFrozen(cfg, run, j - 1);
      assert StepAt(cfg, run, j - 1);
      var step :| Next(cfg, run[j - 1], step, run[j]);
      StepVotedExist(cfg, run[j - 1], step, run[j]);
    }
  }

  lemma {:induction false} BelowSize(s: set<nat>, n: nat)
    requires forall x :: x in s ==> x < n
    ensures |s| <= n
  {
    if n > 0 {
      BelowSize(s - {n - 1}, n - 1);
    } else {
      assert s == {};
    }
  }

  /** A configuration that admits no more blobs per block than the limit of the cleanup never leaves votes behind. */
  lemma {:induction false} SmallBlocksNeverLeak(cfg: Config, run: seq<Chain>, j: nat)
    requires IsRun(cfg, run) && j < |run|
    requires cfg.maxKeys <= cfg.maxBlobNum
    ensures InWindow(run[j])
  {
    forall i, b | 0 <= i < j ensures |VotedAt(run[i].st, b)| <= cfg.maxBlobNum {
      RunInv(cfg, run, i);
      RunVotedExist(cfg, run, i);
      BelowSize(VotedAt(run[i].st, b), |run[i].st.BlobsAt(b)|);
    }
    VotesWindow(cfg, run, j);
  }

  lemma StepKeepsLeftover(cfg: Config, c: Chain, step: Step, d: Chain, id: BlobId)
    requires Next(cfg, c, step, d)
    requires id in c.st.votes && (if c.finalized then id.block + 1 else id.block + 2) < c.st.now
    ensures id in d.st.votes && d.st.votes[id] == c.st.votes[id]
    ensures (if d.finalized then id.block + 1 else id.block + 2) < d.st.now
  {
    match step
    case Reporting(report) =>
      if ReportUnavailable(cfg, c.st, report).Done? {
        ReportVotes(cfg, c.st, report.atBlock, report.authorityIndex, report.indexSet);
        ReportSizes(cfg, c.st, report.atBlock, report.authorityIndex, report.indexSet);
      }
    case _ =>
  }

  /** Votes that the cleanup leaves behind are never removed. */
  lemma {:induction false} LeftoverIsPermanent(cfg: Config, run: seq<Chain>, i: nat, j: nat, id: BlobId)
    requires IsRun(cfg, run) && i <= j < |run|
    requires run[i].finalized && id in run[i].st.votes && id.block + 1 < run[i].st.now
    ensures id in run[j].st.votes && run[j].st.votes[id] == run[i].st.votes[id]
    ensures (if run[j].finalized then id.block + 1 else id.block + 2) < run[j].st.now
    decreases j
  {
    if i < j {
      LeftoverIsPermanent(cfg, run, i, j - 1, id);
      assert StepAt(cfg, run, j - 1);
      var step :| Next(cfg, run[j - 1], step, run[j]);
      StepKeepsLeftover(cfg, run[j - 1], step, run[j], id);
    }
  }

  // ----- nonces -----

  lemma {:induction false} UnderMonotone(subs: seq<Submission>, s: nat, t: nat, app: nat)
    requires s <= t <= |subs|
    ensures Under(subs[..s], app) <= Under(subs[..t], app)
    ensures s < t && subs[s].newest == app ==> Under(subs[..s], app) < Under(subs[..t], app)
    decreases t
  {
    if s < t {
      UnderMonotone(subs, s, t - 1, app);
      assert subs[..t][..t - 1] == subs[..t - 1];
    }
  }

  /**
   Nonces are unique among the submissions accepted under one newest app id (below the saturation
   point): each is its rank there. They are not unique per app id: see `NonceRepeatsExactly`.
   */
  lemma NonceIsRank(cfg: Config, run: seq<Chain>, i: nat, s: nat, t: nat)
    requires IsRun(cfg, run) && i < |run|
    requires s < t < |run[i].submissions|
    ensures Ranked(run[i].submissions, s) && Ranked(run[i].submissions, t)
    ensures run[i].submissions[s].newest == run[i].submissions[t].newest && run[i].submissions[s].params.nonce < U32_MAX ==>
              run[i].submissions[s].params.nonce < run[i].submissions[t].params.nonce
  {
    RunInv(cfg, run, i);
    UnderMonotone(run[i].submissions, s, t, run[i].submissions[s].newest);
  }

  /**
   Two accepted submissions have the same nonce (below the saturation point) exactly if as many
   submissions had been accepted before each of them under the app id that was newest at its time.
   These newest app ids then differ: registering an app starts the nonces over.
   */
  lemma NonceRepeatsExactly(cfg: Config, run: seq<Chain>, i: nat, s: nat, t: nat)
    requires IsRun(cfg, run) && i < |run|
    requires s < t < |run[i].submissions|
    requires run[i].submissions[s].params.nonce < U32_MAX && run[i].submissions[t].params.nonce < U32_MAX
    ensures var subs := run[i].submissions;
      && (subs[s].params.nonce == subs[t].params.nonce <==> Under(subs[..s], subs[s].newest) == Under(subs[..t], subs[t].newest))
      && (subs[s].params.nonce == subs[t].params.nonce ==> subs[s].newest != subs[t].newest)
  {
    NonceIsRank(cfg, run, i, s, t);
  }
}
