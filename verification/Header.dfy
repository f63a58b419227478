/**
 `core-primitives/src/header`: the lists of a block in its header, and how a row is found in them.
 */
module Header {
  import opened Wrappers
  import opened Encoding
  import opened MeloStore
  import opened MeloStoreRuns

  // ----- lookups -----

  /** The first row of lookup k. */
  function Start(lookups: seq<AppLookup>, k: nat): nat
    requires k <= |lookups|
  {
    if k == 0 then 0 else Start(lookups, k - 1) + lookups[k - 1].count
  }

  function Total(lookups: seq<AppLookup>): nat {
    Start(lookups, |lookups|)
  }

  lemma {:induction false} StartMonotone(lookups: seq<AppLookup>, i: nat, k: nat)
    requires i <= k <= |lookups|
    ensures Start(lookups, i) <= Start(lookups, k)
    ensures i < k ==> Start(lookups, i) + lookups[i].count <= Start(lookups, k)
    decreases k
  {
    if i < k {
      StartMonotone(lookups, i, k - 1);
    }
  }

  /** Row `at` lies in lookup k at the given relative index. */
  ghost predicate Covers(lookups: seq<AppLookup>, k: nat, at: nat, relative: nat) {
    k < |lookups| && relative < lookups[k].count && at == Start(lookups, k) + relative
  }

  /** At most one lookup covers a row. */
  lemma CoverUnique(lookups: seq<AppLookup>, j: nat, k: nat, at: nat, r: nat, s: nat)
    requires Covers(lookups, j, at, r) && Covers(lookups, k, at, s)
    ensures j == k && r == s
  {
    if j < k {
      StartMonotone(lookups, j, k);
    } else if k < j {
      StartMonotone(lookups, k, j);
    }
  }

  /**
   `AppLookup::get_lookup`: the lookup that covers a row and the index of the row in it. The sum is
   a u32 and must not overflow.
   */
  method GetLookup(lookups: seq<AppLookup>, at: nat) returns (r: Option<(AppLookup, nat)>)
    requires Total(lookups) <= U32_MAX
    ensures r.Some? <==> at < Total(lookups)
    ensures r.Some? ==> exists k: nat :: Covers(lookups, k, at, r.value.1) && r.value.0 == lookups[k]
  {
    var prevSum := 0;
    for k := 0 to |lookups|
      invariant prevSum == Start(lookups, k) <= at
    {
      StartMonotone(lookups, k + 1, |lookups|);
      var nextSum := prevSum + lookups[k].count;
      if at < nextSum {
        assert Covers(lookups, k, at, at - prevSum);
        return Some((lookups[k], at - prevSum));
      }
      prevSum := nextSum;
    }
    r := None;
  }

  ghost predicate IsFirst(lookups: seq<AppLookup>, k: nat, appId: nat, nonce: nat) {
    && k < |lookups| && lookups[k].appId == appId && lookups[k].nonce == nonce
    && forall i :: 0 <= i < k ==> lookups[i].appId != appId || lookups[i].nonce != nonce
  }

  /** `HeaderExtension::start_at`: the first row of the first lookup of an app id and nonce. */
  method StartAt(lookups: seq<AppLookup>, appId: nat, nonce: nat) returns (r: Option<nat>)
    requires Total(lookups) <= U32_MAX
    ensures r.Some? <==> exists k: nat :: IsFirst(lookups, k, appId, nonce)
    ensures forall k: nat :: IsFirst(lookups, k, appId, nonce) ==> r == Some(Start(lookups, k))
  {
    var sum := 0;
    for k := 0 to |lookups|
      invariant sum == Start(lookups, k)
      invariant forall i :: 0 <= i < k ==> lookups[i].appId != appId || lookups[i].nonce != nonce
    {
      if lookups[k].appId == appId && lookups[k].nonce == nonce {
        assert IsFirst(lookups, k, appId, nonce);
        return Some(sum);
      }
      sum := sum + lookups[k].count;
    }
    r := None;
  }

  /**
   Going from a row to its lookup and back with `start_at` returns to the row exactly when no
   earlier lookup has the same app id and nonce.
   */
  lemma StartAtReturns(lookups: seq<AppLookup>, k: nat, at: nat, relative: nat, first: nat)
    requires Covers(lookups, k, at, relative)
    requires IsFirst(lookups, first, lookups[k].appId, lookups[k].nonce)
    requires forall i :: 0 <= i < |lookups| ==> lookups[i].count > 0
    ensures Start(lookups, first) + relative == at
       <==> forall i :: 0 <= i < k ==> lookups[i].appId != lookups[k].appId || lookups[i].nonce != lookups[k].nonce
  {
    if first < k {
      StartMonotone(lookups, first, k);
    }
  }

  // ----- the lists of a block -----

  ghost predicate CountsFit(blobs: seq<BlobMetadata>) {
    forall i :: 0 <= i < |blobs| ==> |blobs[i].commitments| < 0x1_0000
  }

  lemma {:induction false} StartPrefix(a: seq<AppLookup>, b: seq<AppLookup>, k: nat)
    requires k <= |a| <= |b| && a == b[..|a|]
    ensures Start(a, k) == Start(b, k)
  {
    if k > 0 {
      StartPrefix(a, b, k - 1);
    }
  }

  /** The rows of the lookups are the commitments exactly when no count was truncated. */
  lemma {:induction false} TotalIsCommitments(blobs: seq<BlobMetadata>)
    ensures |Flatten(blobs).lookups| == |blobs|
    ensures Total(Flatten(blobs).lookups) <= |Flatten(blobs).commitments|
    ensures Total(Flatten(blobs).lookups) == |Flatten(blobs).commitments| <==> CountsFit(blobs)
  {
    if |blobs| > 0 {
      var n := |blobs| - 1;
      TotalIsCommitments(blobs[..n]);
      StartPrefix(Flatten(blobs[..n]).lookups, Flatten(blobs).lookups, n);
      assert CountsFit(blobs) <==> CountsFit(blobs[..n]) && |blobs[n].commitments| < 0x1_0000 by {
        assert forall i :: 0 <= i < n ==> blobs[..n][i] == blobs[i];
      }
    }
  }

  /** Blob k of the list owns lookup k, and its commitments are the rows that the lookup covers. */
  lemma {:induction false} FlattenAt(blobs: seq<BlobMetadata>, k: nat, relative: nat)
    requires CountsFit(blobs) && k < |blobs| && relative < |blobs[k].commitments|
    ensures |Flatten(blobs).lookups| == |blobs| && Flatten(blobs).lookups[k] == LookupOf(blobs[k])
    ensures Start(Flatten(blobs).lookups, k) + relative < |Flatten(blobs).commitments|
    ensures Flatten(blobs).commitments[Start(Flatten(blobs).lookups, k) + relative] == blobs[k].commitments[relative]
  {
    var n := |blobs| - 1;
    assert CountsFit(blobs[..n]) by {
      assert forall i :: 0 <= i < n ==> blobs[..n][i] == blobs[i];
    }
    TotalIsCommitments(blobs[..n]);
    StartPrefix(Flatten(blobs[..n]).lookups, Flatten(blobs).lookups, k);
    if k < n {
      FlattenAt(blobs[..n], k, relative);
    }
  }

  lemma {:induction false} CoverExists(lookups: seq<AppLookup>, n: nat, at: nat) returns (k: nat, relative: nat)
    requires n <= |lookups| && at < Start(lookups, n)
    ensures Covers(lookups, k, at, relative)
    decreases n
  {
    if at < Start(lookups, n - 1) {
      k, relative := CoverExists(lookups, n - 1, at);
    } else {
      k, relative := n - 1, at - Start(lookups, n - 1);
    }
  }

  // ----- the header's byte encoding -----

  const COMMITMENT_SIZE: nat := 48

  /** `to_bytes` and `decode` of a commitment. */
  datatype Codec = Codec(encode: Commitment -> seq<Byte>, decode: seq<Byte> -> Option<Commitment>)

  ghost predicate ValidCodec(codec: Codec) {
    forall c :: |codec.encode(c)| == COMMITMENT_SIZE && codec.decode(codec.encode(c)) == Some(c)
  }

  datatype HeaderExtension = HeaderExtension(commitmentsBytes: seq<Byte>, appLookup: seq<AppLookup>)

  function EncodeAll(codec: Codec, commitments: seq<Commitment>): seq<Byte> {
    if |commitments| == 0 then [] else codec.encode(commitments[0]) + EncodeAll(codec, commitments[1..])
  }

  /** `set_extension` */
  function SetExtension(codec: Codec, lists: HeaderLists): HeaderExtension {
    HeaderExtension(EncodeAll(codec, lists.commitments), lists.lookups)
  }

  /** `commitments`: decode chunk by chunk; the last chunk may be short. */
  function Decoded(codec: Codec, bytes: seq<Byte>): Option<seq<Commitment>>
    decreases |bytes|
  {
    if |bytes| == 0 then Some([]) else
    var n := if |bytes| < COMMITMENT_SIZE then |bytes| else COMMITMENT_SIZE;
    var head, tail := codec.decode(bytes[..n]), Decoded(codec, bytes[n..]);
    if head.Some? && tail.Some? then Some([head.value] + tail.value) else None
  }

  function ColNum(ext: HeaderExtension): nat {
    |ext.commitmentsBytes| / COMMITMENT_SIZE
  }

  lemma {:induction false} DecodeEncode(codec: Codec, commitments: seq<Commitment>)
    requires ValidCodec(codec)
    ensures |EncodeAll(codec, commitments)| == COMMITMENT_SIZE * |commitments|
    ensures Decoded(codec, EncodeAll(codec, commitments)) == Some(commitments)
  {
    if |commitments| > 0 {
      DecodeEncode(codec, commitments[1..]);
      var head, tail := codec.encode(commitments[0]), EncodeAll(codec, commitments[1..]);
      assert (head + tail)[..COMMITMENT_SIZE] == head && (head + tail)[COMMITMENT_SIZE..] == tail;
      assert [commitments[0]] + commitments[1..] == commitments;
    }
  }

  // ----- the lists agree -----

  /** Every blob in the state has commitments, at most `maxBlobNum` of them. */
  ghost predicate BlobsBounded(cfg: Config, s: State) {
    forall b, i :: 0 <= i < |s.BlobsAt(b)| ==> 0 < |s.BlobsAt(b)[i].commitments| <= cfg.maxBlobNum
  }

  lemma {:induction false} ReportKeepsBounds(cfg: Config, s: State, block: nat, authority: nat, indexes: seq<nat>)
    requires BlobsBounded(cfg, s) && VoteAll(cfg, s, block, authority, indexes).Done?
    ensures BlobsBounded(cfg, VoteAll(cfg, s, block, authority, indexes).value)
    decreases |indexes|
  {
    if |indexes| > 0 {
      var t := VoteOne(cfg, s, block, authority, indexes[0]).value;
      VoteEffect(cfg, s, block, authority, indexes[0]);
      forall b, i | 0 <= i < |t.BlobsAt(b)| ensures 0 < |t.BlobsAt(b)[i].commitments| <= cfg.maxBlobNum {
        assert t.BlobsAt(b)[i].commitments == s.BlobsAt(b)[i].commitments;
      }
      ReportKeepsBounds(cfg, t, block, authority, indexes[1..]);
    }
  }

  lemma StepBounded(cfg: Config, c: Chain, step: Step, d: Chain)
    requires BlobsBounded(cfg, c.st) && Next(cfg, c, step, d)
    ensures BlobsBounded(cfg, d.st)
  {
    match step
    case Submitting(who, params) =>
      assert forall b :: b != c.st.now ==> d.st.BlobsAt(b) == c.st.BlobsAt(b);
    case Reporting(report) =>
      if ReportUnavailable(cfg, c.st, report).Done? {
        ReportKeepsBounds(cfg, c.st, report.atBlock, report.authorityIndex, report.indexSet);
      }
    case _ =>
      assert forall b :: d.st.BlobsAt(b) == c.st.BlobsAt(b);
  }

  lemma {:induction false} RunBounded(cfg: Config, run: seq<Chain>, j: nat)
    requires IsRun(cfg, run) && j < |run|
    ensures BlobsBounded(cfg, run[j].st)
  {
    if j > 0 {
      RunBounded(cfg, run, j - 1);
      assert StepAt(cfg, run, j - 1);
      var step :| Next(cfg, run[j - 1], step, run[j]);
      StepBounded(cfg, run[j - 1], step, run[j]);
    }
  }

  lemma {:induction false} AvailableIsSublist(blobs: seq<BlobMetadata>)
    ensures forall b :: b in Available(blobs) <==> b in blobs && b.isAvailable
  {
    if |blobs| > 0 {
      AvailableIsSublist(blobs[..|blobs| - 1]);
      assert blobs == blobs[..|blobs| - 1] + [blobs[|blobs| - 1]];
    }
  }

  /** The header extension built from a list of blobs describes that list. */
  ghost predicate Describes(codec: Codec, ext: HeaderExtension, kept: seq<BlobMetadata>) {
    && Decoded(codec, ext.commitmentsBytes) == Some(Flatten(kept).commitments)
    && ColNum(ext) == |Flatten(kept).commitments| == Total(ext.appLookup)
    && |ext.appLookup| == |kept|
    && forall k :: 0 <= k < |kept| ==>
         ext.appLookup[k] == AppLookup(kept[k].appId, kept[k].nonce, |kept[k].commitments|) && ext.appLookup[k].count > 0
  }

  /** Row `at` has the commitment that the blob of its lookup has at the relative index. */
  ghost predicate RowFound(ext: HeaderExtension, kept: seq<BlobMetadata>, at: nat, k: nat, relative: nat) {
    && Covers(ext.appLookup, k, at, relative) && k < |kept| && relative < |kept[k].commitments|
    && at < |Flatten(kept).commitments| && Flatten(kept).commitments[at] == kept[k].commitments[relative]
  }

  lemma ListsDescribe(codec: Codec, kept: seq<BlobMetadata>)
    requires ValidCodec(codec)
    requires forall k :: 0 <= k < |kept| ==> 0 < |kept[k].commitments| < 0x1_0000
    ensures Describes(codec, SetExtension(codec, Flatten(kept)), kept)
  {
    TotalIsCommitments(kept);
    DecodeEncode(codec, Flatten(kept).commitments);
    forall k | 0 <= k < |kept| ensures Flatten(kept).lookups[k] == LookupOf(kept[k]) {
      FlattenAt(kept, k, 0);
    }
  }

  lemma ListsAgree(codec: Codec, kept: seq<BlobMetadata>, at: nat)
    requires ValidCodec(codec)
    requires forall k :: 0 <= k < |kept| ==> 0 < |kept[k].commitments| < 0x1_0000
    ensures Describes(codec, SetExtension(codec, Flatten(kept)), kept)
    ensures at < ColNum(SetExtension(codec, Flatten(kept))) <==>
              exists k: nat, relative: nat :: RowFound(SetExtension(codec, Flatten(kept)), kept, at, k, relative)
  {
    var lists := Flatten(kept);
    ListsDescribe(codec, kept);
    if at < |lists.commitments| {
      TotalIsCommitments(kept);
      var k, relative := CoverExists(lists.lookups, |lists.lookups|, at);
      FlattenAt(kept, k, relative);
      assert RowFound(SetExtension(codec, lists), kept, at, k, relative);
    }
  }

  lemma KeptBounded(cfg: Config, run: seq<Chain>, j: nat, block: nat, k: nat)
    requires IsRun(cfg, run) && j < |run|
    requires k < |Available(run[j].st.BlobsAt(block))|
    ensures 0 < |Available(run[j].st.BlobsAt(block))[k].commitments| <= cfg.maxBlobNum
  {
    var blobs := run[j].st.BlobsAt(block);
    RunBounded(cfg, run, j);
    AvailableIsSublist(blobs);
    assert Available(blobs)[k] in blobs;
  }

  /**
   Flattening agreement: for the blobs of any block in any state of a run, the commitments of the
   header extension decode to the list that was encoded, the lookups cover exactly the rows below
   `col_num`, and the commitment of a row is the one that its lookup's blob has at the relative
   index.
   */
  lemma HeaderAgrees(cfg: Config, codec: Codec, run: seq<Chain>, j: nat, block: nat, at: nat)
    requires IsRun(cfg, run) && j < |run| && ValidCodec(codec)
    requires cfg.maxBlobNum < 0x1_0000
    ensures var kept := Available(run[j].st.BlobsAt(block));
      var ext := SetExtension(codec, CommitmentsAndLookups(run[j].st, block));
      && Describes(codec, ext, kept)
      && (at < ColNum(ext) <==> exists k: nat, relative: nat :: RowFound(ext, kept, at, k, relative))
  {
    var kept := Available(run[j].st.BlobsAt(block));
    forall k | 0 <= k < |kept| ensures 0 < |kept[k].commitments| < 0x1_0000 {
      KeptBounded(cfg, run, j, block, k);
    }
    ListsAgree(codec, kept, at);
  }
}
