/**
 `core-primitives/src/reliability.rs`: which segments a node samples, under which network keys, and
 how it judges availability by them.
 */
module Sampling {
  import opened Sequences
  import opened Wrappers
  import opened Encoding
  import opened Segments
  import opened MeloStore
  import opened Header

  /** `EXTENDED_SEGMENTS_PER_BLOB` */
  const WIDTH: nat := 256
  const BLOCK_AVAILABILITY_THRESHOLD: nat := 5

  datatype ReliabilityType = App | Block

  datatype Sample = Sample(id: Key, position: Position, isAvailable: bool)

  // ----- keys -----

  function SampleKey(appId: nat, nonce: nat, p: Position): (k: Key)
    ensures |k| == 16
  {
    Be4(appId) + Be4(nonce) + (Le4(p.x) + Le4(p.y))
  }

  function SampleKeyFromBlock(blockHash: seq<Byte>, p: Position): (k: Key)
    ensures |k| == |blockHash| + 8
  {
    blockHash + (Le4(p.x) + Le4(p.y))
  }

  predicate IsU32(n: nat) {
    n < U32_SIZE
  }

  predicate IsPosition(p: Position) {
    IsU32(p.x) && IsU32(p.y)
  }

  lemma PositionInjective(p: Position, q: Position)
    requires IsPosition(p) && IsPosition(q)
    ensures Le4(p.x) + Le4(p.y) == Le4(q.x) + Le4(q.y) <==> p == q
  {
    SplitEqual(Le4(p.x), Le4(p.y), Le4(q.x), Le4(q.y));
    Le4Injective(p.x, q.x);
    Le4Injective(p.y, q.y);
  }

  lemma SampleKeyInjective(a: nat, n: nat, p: Position, b: nat, m: nat, q: Position)
    requires IsU32(a) && IsU32(n) && IsU32(b) && IsU32(m) && IsPosition(p) && IsPosition(q)
    ensures SampleKey(a, n, p) == SampleKey(b, m, q) <==> a == b && n == m && p == q
  {
    SplitEqual(Be4(a) + Be4(n), Le4(p.x) + Le4(p.y), Be4(b) + Be4(m), Le4(q.x) + Le4(q.y));
    SplitEqual(Be4(a), Be4(n), Be4(b), Be4(m));
    Be4Injective(a, b);
    Be4Injective(n, m);
    PositionInjective(p, q);
  }

  lemma BlockKeyInjective(h: seq<Byte>, p: Position, q: Position)
    requires IsPosition(p) && IsPosition(q)
    ensures SampleKeyFromBlock(h, p) == SampleKeyFromBlock(h, q) <==> p == q
  {
    SplitEqual(h, Le4(p.x) + Le4(p.y), h, Le4(q.x) + Le4(q.y));
    PositionInjective(p, q);
  }

  // ----- drawing positions -----

  predicate InGrid(p: Position, columns: nat) {
    p.x < WIDTH && p.y < columns
  }

  /** The different positions among the draws, in the order of their first occurrence. */
  function Firsts(draws: seq<Position>): seq<Position> {
    if |draws| == 0 then [] else
    var rest, last := Firsts(draws[..|draws| - 1]), draws[|draws| - 1];
    if last in rest then rest else rest + [last]
  }

  lemma {:induction false} FirstsAre(draws: seq<Position>)
    ensures Distinct(Firsts(draws))
    ensures forall p :: p in Firsts(draws) <==> p in draws
  {
    if |draws| > 0 {
      FirstsAre(draws[..|draws| - 1]);
      assert draws == draws[..|draws| - 1] + [draws[|draws| - 1]];
    }
  }

  lemma {:induction false} FirstsPrefix(draws: seq<Position>, k: nat)
    requires k <= |draws|
    ensures Firsts(draws[..k]) <= Firsts(draws)
    decreases |draws| - k
  {
    if k == |draws| {
      assert draws[..k] == draws;
    } else {
      FirstsPrefix(draws, k + 1);
      assert draws[..k + 1][..k] == draws[..k];
    }
  }

  /** All positions of the grid, row by row. */
  function Grid(columns: nat): (g: seq<Position>)
    ensures |g| == WIDTH * columns
  {
    seq(WIDTH * columns, (i: nat) => Position(i % WIDTH, i / WIDTH))
  }

  lemma GridDistinct(columns: nat)
    ensures Distinct(Grid(columns))
    ensures forall p :: p in Grid(columns) <==> InGrid(p, columns)
  {
    forall p ensures p in Grid(columns) <==> InGrid(p, columns) {
      if InGrid(p, columns) {
        assert Grid(columns)[p.y * WIDTH + p.x] == p;
      }
    }
  }

  lemma {:induction false} DistinctFits<T>(a: seq<T>, b: seq<T>)
    requires Distinct(a) && forall x :: x in a ==> x in b
    ensures |a| <= |b|
  {
    if |a| > 0 {
      var x := a[0];
      assert x in b;
      var i :| 0 <= i < |b| && b[i] == x;
      var rest := b[..i] + b[i + 1..];
      forall y | y in a[1..] ensures y in rest {
        var j :| 0 <= j < |a[1..]| && a[1..][j] == y;
        assert a[j + 1] == y && y != x;
        assert y in b;
        var l :| 0 <= l < |b| && b[l] == y;
        assert if l < i then rest[l] == y else rest[l - 1] == y;
      }
      DistinctFits(a[1..], rest);
    }
  }

  /** The draws are positions of the grid, at least n different ones. */
  ghost predicate Suffice(draws: seq<Position>, columns: nat, n: nat) {
    (forall p :: p in draws ==> InGrid(p, columns)) && n <= |Firsts(draws)|
  }

  /**
   The loop of `set_sample` can find its n different positions exactly when the grid has that many;
   for a larger n it never ends.
   */
  lemma EnoughDraws(columns: nat, n: nat)
    ensures (exists draws :: Suffice(draws, columns, n)) <==> n <= WIDTH * columns
  {
    if draws :| Suffice(draws, columns, n) {
      FirstsAre(draws);
      GridDistinct(columns);
      DistinctFits(Firsts(draws), Grid(columns));
    }
    if n <= WIDTH * columns {
      var draws := Grid(columns);
      GridDistinct(columns);
      FirstsAre(draws);
      DistinctFits(draws, Firsts(draws));
      assert Suffice(draws, columns, n);
    }
  }

  // ----- sampling -----

  /** The sample that the position must get: an app's key below half of the columns, else the block's. */
  ghost predicate IsBlockSample(lookups: seq<AppLookup>, columns: nat, blockHash: seq<Byte>, pos: Position, id: Key) {
    if pos.y < columns / 2 then
      exists k: nat, relative: nat ::
        Covers(lookups, k, pos.y, relative) && id == SampleKey(lookups[k].appId, lookups[k].nonce, Position(pos.x, relative))
    else id == SampleKeyFromBlock(blockHash, pos)
  }

  ghost predicate IsSample(kind: ReliabilityType, lookups: seq<AppLookup>, columns: nat, blockHash: Option<seq<Byte>>,
      pos: Position, s: Sample) {
    && s.position == pos && !s.isAvailable
    && match kind
       case App => |lookups| > 0 && s.id == SampleKey(lookups[0].appId, lookups[0].nonce, pos)
       case Block => blockHash.Some? && IsBlockSample(lookups, columns, blockHash.value, pos, s.id)
  }

  class Reliability {
    const commitments: seq<Commitment>
    const kind: ReliabilityType
    var samples: seq<Sample>

    constructor (kind: ReliabilityType, commitments: seq<Commitment>)
      ensures this.kind == kind && this.commitments == commitments && samples == []
    {
      this.kind := kind;
      this.commitments := commitments;
      samples := [];
    }

    /** The loop of `set_sample` over the positions of an app. */
    static method AppSamples(lookups: seq<AppLookup>, columns: nat, blockHash: Option<seq<Byte>>,
        positions: seq<Position>) returns (drawn: seq<Sample>)
      requires |lookups| > 0
      ensures |drawn| == |positions|
      ensures forall l :: 0 <= l < |positions| ==> IsSample(App, lookups, columns, blockHash, positions[l], drawn[l])
    {
      drawn := [];
      for i := 0 to |positions|
        invariant |drawn| == i
        invariant forall l :: 0 <= l < i ==> IsSample(App, lookups, columns, blockHash, positions[l], drawn[l])
      {
        drawn := drawn + [Sample(SampleKey(lookups[0].appId, lookups[0].nonce, positions[i]), positions[i], false)];
      }
    }

    /** The loop of `set_sample` over the positions of a block; it fails at a row that no lookup covers. */
    static method BlockSamples(lookups: seq<AppLookup>, columns: nat, blockHash: seq<Byte>,
        positions: seq<Position>) returns (r: Result<seq<Sample>>)
      requires Total(lookups) <= U32_MAX
      ensures r.Ok? <==> forall p :: p in positions && p.y < columns / 2 ==> p.y < Total(lookups)
      ensures r.Ok? ==> |r.value| == |positions|
      ensures r.Ok? ==> forall l :: 0 <= l < |positions| ==>
                IsSample(Block, lookups, columns, Some(blockHash), positions[l], r.value[l])
    {
      var drawn: seq<Sample> := [];
      for i := 0 to |positions|
        invariant |drawn| == i
        invariant forall l :: 0 <= l < i ==> IsSample(Block, lookups, columns, Some(blockHash), positions[l], drawn[l])
        invariant forall l :: 0 <= l < i && positions[l].y < columns / 2 ==> positions[l].y < Total(lookups)
      {
        var id := BlockSampleId(lookups, columns, blockHash, positions[i]);
        if id.Err? {
          assert positions[i] in positions;
          return Err(id.error);
        }
        drawn := drawn + [Sample(id.value, positions[i], false)];
      }
      r := Ok(drawn);
    }

    /**
     `set_sample`. The random numbers are the draws, of which there are enough for the loop to end.
     */
    method SetSample(n: nat, lookups: seq<AppLookup>, blockHash: Option<seq<Byte>>, draws: seq<Position>)
      returns (r: Result<seq<Commitment>>)
      requires Total(lookups) <= U32_MAX
      requires forall p :: p in draws ==> InGrid(p, |commitments|)
      requires |commitments| > 0 ==> n <= |Firsts(draws)|
      modifies this
      ensures |commitments| == 0 ==> r == Ok([]) && samples == old(samples)
      ensures |commitments| > 0 ==>
                (r.Ok? <==> match kind
                            case App => |lookups| > 0
                            case Block =>
                              && blockHash.Some?
                              && forall p :: p in Firsts(draws)[..n] && p.y < |commitments| / 2 ==> p.y < Total(lookups))
      ensures r.Err? ==> samples == old(samples)
      ensures |commitments| > 0 && r.Ok? ==>
                && |samples| == |r.value| == n
                && forall i :: 0 <= i < n ==>
                     && IsSample(kind, lookups, |commitments|, blockHash, Firsts(draws)[i], samples[i])
                     && InGrid(samples[i].position, |commitments|)
                     && r.value[i] == commitments[samples[i].position.y]
      ensures |commitments| > 0 && r.Ok? ==>
                forall i, j :: 0 <= i < j < n ==> samples[i].position != samples[j].position
    {
      var columns := |commitments|;
      if columns == 0 {
        return Ok([]);
      }
      var positions, chosen := DrawPositions(n, draws);
      var drawn;
      if kind == App {
        if |lookups| == 0 {
          return Err("No app lookups available");
        }
        drawn := AppSamples(lookups, columns, blockHash, positions);
      } else {
        if blockHash.None? {
          return Err("Block hash not provided");
        }
        var made := BlockSamples(lookups, columns, blockHash.value, positions);
        if made.Err? {
          return Err(made.error);
        }
        drawn := made.value;
      }
      samples := drawn;
      r := Ok(chosen);
      FirstsAre(draws);
    }

    /** The loop of `set_sample`: keep drawing until there are n different positions. */
    method DrawPositions(n: nat, draws: seq<Position>) returns (positions: seq<Position>, chosen: seq<Commitment>)
      requires forall p :: p in draws ==> InGrid(p, |commitments|)
      requires n <= |Firsts(draws)|
      ensures positions == Firsts(draws)[..n] && |chosen| == n
      ensures forall i :: 0 <= i < n ==> InGrid(positions[i], |commitments|) && chosen[i] == commitments[positions[i].y]
    {
      positions, chosen := [], [];
      var d := 0;
      assert draws[..|draws|] == draws;
      while |positions| < n
        invariant 0 <= d <= |draws| && |positions| <= n && positions == Firsts(draws[..d])
        invariant |chosen| == |positions|
        invariant forall i :: 0 <= i < |positions| ==>
          InGrid(positions[i], |commitments|) && chosen[i] == commitments[positions[i].y]
        decreases |draws| - d
      {
        var pos := draws[d];
        assert pos in draws;
        assert draws[..d + 1][..d] == draws[..d];
        if pos !in positions {
          chosen := chosen + [commitments[pos.y]];
          positions := positions + [pos];
        }
        d := d + 1;
      }
      FirstsPrefix(draws, d);
    }

    /** The key of one block sample. */
    static method BlockSampleId(lookups: seq<AppLookup>, columns: nat, blockHash: seq<Byte>,
        pos: Position) returns (r: Result<Key>)
      requires Total(lookups) <= U32_MAX
      ensures r.Ok? <==> pos.y >= columns / 2 || pos.y < Total(lookups)
      ensures r.Ok? ==> IsBlockSample(lookups, columns, blockHash, pos, r.value)
    {
      if pos.y < columns / 2 {
        var found := GetLookup(lookups, pos.y);
        if found.None? {
          return Err("AppLookup not found for position");
        }
        var (lookup, relative) := found.value;
        return Ok(SampleKey(lookup.appId, lookup.nonce, Position(pos.x, relative)));
      }
      r := Ok(SampleKeyFromBlock(blockHash, pos));
    }

    /** `set_sample_success`: mark the first sample at the position. */
    method SetSampleSuccess(position: Position)
      modifies this
      ensures samples == Marked(old(samples), position)
    {
      for i := 0 to |samples|
        invariant samples == old(samples)
        invariant forall l :: 0 <= l < i ==> samples[l].position != position
      {
        if samples[i].position == position {
          MarkedAt(samples, position, i);
          samples := samples[i := samples[i].(isAvailable := true)];
          return;
        }
      }
      MarkedNowhere(samples, position);
    }
  }

  function Marked(samples: seq<Sample>, position: Position): (r: seq<Sample>)
    ensures |r| == |samples|
  {
    if |samples| == 0 then []
    else if samples[0].position == position then [samples[0].(isAvailable := true)] + samples[1..]
    else [samples[0]] + Marked(samples[1..], position)
  }

  lemma {:induction false} MarkedAt(samples: seq<Sample>, position: Position, i: nat)
    requires i < |samples| && samples[i].position == position
    requires forall l :: 0 <= l < i ==> samples[l].position != position
    ensures Marked(samples, position) == samples[i := samples[i].(isAvailable := true)]
  {
    if i > 0 {
      MarkedAt(samples[1..], position, i - 1);
    }
  }

  lemma {:induction false} MarkedNowhere(samples: seq<Sample>, position: Position)
    requires forall l :: 0 <= l < |samples| ==> samples[l].position != position
    ensures Marked(samples, position) == samples
  {
    if |samples| > 0 {
      MarkedNowhere(samples[1..], position);
    }
  }

  // ----- ids and published keys -----

  /** The lookups of different entries with rows differ in app id or nonce. */
  ghost predicate LookupsDistinct(lookups: seq<AppLookup>) {
    forall j, k :: 0 <= j < k < |lookups| && lookups[j].count > 0 && lookups[k].count > 0 ==>
      lookups[j].appId != lookups[k].appId || lookups[j].nonce != lookups[k].nonce
  }

  ghost predicate LookupsEncodable(lookups: seq<AppLookup>) {
    Total(lookups) <= U32_MAX && forall k :: 0 <= k < |lookups| ==> IsU32(lookups[k].appId) && IsU32(lookups[k].nonce)
  }

  /** The header of a block with `columns` extended rows, whose lookups cover the first half. */
  ghost predicate BlockGrid(lookups: seq<AppLookup>, columns: nat, blockHash: seq<Byte>) {
    && LookupsEncodable(lookups) && columns == 2 * Total(lookups) && IsU32(columns)
    && |blockHash| == 32
  }

  lemma CoverBound(lookups: seq<AppLookup>, k: nat, at: nat, relative: nat)
    requires Covers(lookups, k, at, relative)
    ensures relative <= at < Total(lookups)
  {
    StartMonotone(lookups, k, |lookups|);
  }

  /** Two app keys of a block agree exactly for the same column, relative row, app id and nonce. */
  lemma AppKeysAgree(lookups: seq<AppLookup>, j: nat, k: nat, p: Position, q: Position, r: nat, s: nat)
    requires LookupsEncodable(lookups) && p.x < WIDTH && q.x < WIDTH
    requires Covers(lookups, j, p.y, r) && Covers(lookups, k, q.y, s)
    ensures SampleKey(lookups[j].appId, lookups[j].nonce, Position(p.x, r)) ==
            SampleKey(lookups[k].appId, lookups[k].nonce, Position(q.x, s))
       <==> lookups[j].appId == lookups[k].appId && lookups[j].nonce == lookups[k].nonce && p.x == q.x && r == s
  {
    CoverBound(lookups, j, p.y, r);
    CoverBound(lookups, k, q.y, s);
    SampleKeyInjective(lookups[j].appId, lookups[j].nonce, Position(p.x, r),
                       lookups[k].appId, lookups[k].nonce, Position(q.x, s));
  }

  /** Different positions have different ids if the lookups differ. */
  lemma IdsDistinct(lookups: seq<AppLookup>, columns: nat, blockHash: seq<Byte>, p: Position, q: Position, a: Key,
      b: Key)
    requires BlockGrid(lookups, columns, blockHash) && LookupsDistinct(lookups)
    requires InGrid(p, columns) && InGrid(q, columns)
    requires IsBlockSample(lookups, columns, blockHash, p, a) && IsBlockSample(lookups, columns, blockHash, q, b)
    ensures a == b <==> p == q
  {
    if p.y < columns / 2 && q.y < columns / 2 {
      var j: nat, r: nat :| Covers(lookups, j, p.y, r) && a == SampleKey(lookups[j].appId, lookups[j].nonce, Position(p.x, r));
      var k: nat, s: nat :| Covers(lookups, k, q.y, s) && b == SampleKey(lookups[k].appId, lookups[k].nonce, Position(q.x, s));
      AppKeysAgree(lookups, j, k, p, q, r, s);
      if p == q {
        CoverUnique(lookups, j, k, p.y, r, s);
      }
    } else if p.y >= columns / 2 && q.y >= columns / 2 {
      BlockKeyInjective(blockHash, p, q);
    }
  }

  /** If two lookups with rows share app id and nonce, their first rows get the same id. */
  lemma IdsCollide(lookups: seq<AppLookup>, columns: nat, blockHash: seq<Byte>, j: nat, k: nat, x: nat, id: Key)
    requires BlockGrid(lookups, columns, blockHash)
    requires j < k < |lookups| && lookups[j].count > 0 && lookups[k].count > 0
    requires lookups[j].appId == lookups[k].appId && lookups[j].nonce == lookups[k].nonce
    requires id == SampleKey(lookups[j].appId, lookups[j].nonce, Position(x, 0))
    ensures Start(lookups, j) < Start(lookups, k) < columns / 2
    ensures IsBlockSample(lookups, columns, blockHash, Position(x, Start(lookups, j)), id)
    ensures IsBlockSample(lookups, columns, blockHash, Position(x, Start(lookups, k)), id)
  {
    StartMonotone(lookups, j, k);
    StartMonotone(lookups, k, |lookups|);
    assert Covers(lookups, j, Start(lookups, j), 0);
    assert Covers(lookups, k, Start(lookups, k), 0);
  }

  /** No two positions of the grid share an id. */
  ghost predicate AllIdsDistinct(lookups: seq<AppLookup>, columns: nat, blockHash: seq<Byte>) {
    forall p, q, a, b ::
      (InGrid(p, columns) && InGrid(q, columns) && p != q
       && IsBlockSample(lookups, columns, blockHash, p, a) && IsBlockSample(lookups, columns, blockHash, q, b)) ==> a != b
  }

  /** The ids of a block's samples are pairwise different exactly when its lookups are. */
  lemma IdsDistinctExactly(lookups: seq<AppLookup>, columns: nat, blockHash: seq<Byte>)
    requires BlockGrid(lookups, columns, blockHash)
    ensures AllIdsDistinct(lookups, columns, blockHash) <==> LookupsDistinct(lookups)
  {
    if LookupsDistinct(lookups) {
      forall p, q, a, b | InGrid(p, columns) && InGrid(q, columns) && p != q
        && IsBlockSample(lookups, columns, blockHash, p, a) && IsBlockSample(lookups, columns, blockHash, q, b)
        ensures a != b
      {
        IdsDistinct(lookups, columns, blockHash, p, q, a, b);
      }
    } else {
      var j, k :| 0 <= j < k < |lookups| && lookups[j].count > 0 && lookups[k].count > 0
        && lookups[j].appId == lookups[k].appId && lookups[j].nonce == lookups[k].nonce;
      var id := SampleKey(lookups[j].appId, lookups[j].nonce, Position(0, 0));
      IdsCollide(lookups, columns, blockHash, j, k, 0, id);
      var p, q := Position(0, Start(lookups, j)), Position(0, Start(lookups, k));
      assert InGrid(p, columns) && InGrid(q, columns) && p != q;
    }
  }

  /** `put_app_segments`: the keys under which an app's segments are published. */
  function AppKeys<F, P>(segments: seq<Segment<F, P>>, appId: nat, nonce: nat): (r: seq<Key>)
    ensures |r| == |segments|
  {
    seq(|segments|, i requires 0 <= i < |segments| => SampleKey(appId, nonce, segments[i].position))
  }

  /** `put_ext_segments`: the keys under which the parity segments of a block are published. */
  function ExtKeys<F, P>(segments: seq<Segment<F, P>>, blockHash: seq<Byte>): (r: seq<Key>)
    ensures |r| == |segments|
  {
    seq(|segments|, i requires 0 <= i < |segments| => SampleKeyFromBlock(blockHash, segments[i].position))
  }

  /**
   The id of a sample in the first half is the key under which a segment of an app is published
   exactly when it is the app of the sample's lookup, under the same nonce, and the segment is at the
   sample's column and relative row.
   */
  lemma SampledAppKey<F, P>(lookups: seq<AppLookup>, columns: nat, blockHash: seq<Byte>, pos: Position, id: Key,
      k: nat, relative: nat, segments: seq<Segment<F, P>>, i: nat, appId: nat, nonce: nat)
    requires BlockGrid(lookups, columns, blockHash) && InGrid(pos, columns)
    requires IsBlockSample(lookups, columns, blockHash, pos, id) && pos.y < columns / 2
    requires Covers(lookups, k, pos.y, relative)
    requires i < |segments| && IsPosition(segments[i].position) && IsU32(appId) && IsU32(nonce)
    ensures AppKeys(segments, appId, nonce)[i] == id
       <==> appId == lookups[k].appId && nonce == lookups[k].nonce && segments[i].position == Position(pos.x, relative)
  {
    var j: nat, r: nat :| Covers(lookups, j, pos.y, r) && id == SampleKey(lookups[j].appId, lookups[j].nonce, Position(pos.x, r));
    CoverUnique(lookups, j, k, pos.y, r, relative);
    CoverBound(lookups, k, pos.y, relative);
    SampleKeyInjective(appId, nonce, segments[i].position, lookups[k].appId, lookups[k].nonce, Position(pos.x, relative));
  }

  /** The id of a sample in the second half is the key of a parity segment exactly at its position, and never an app's. */
  lemma SampledExtKey<F, P>(lookups: seq<AppLookup>, columns: nat, blockHash: seq<Byte>, pos: Position, id: Key,
                            segments: seq<Segment<F, P>>, i: nat, appId: nat, nonce: nat)
    requires BlockGrid(lookups, columns, blockHash) && InGrid(pos, columns)
    requires IsBlockSample(lookups, columns, blockHash, pos, id) && pos.y >= columns / 2
    requires i < |segments| && IsPosition(segments[i].position)
    ensures ExtKeys(segments, blockHash)[i] == id <==> segments[i].position == pos
    ensures AppKeys(segments, appId, nonce)[i] != id
  {
    BlockKeyInjective(blockHash, segments[i].position, pos);
    assert |AppKeys(segments, appId, nonce)[i]| == 16 && |id| == 40;
  }

  // ----- scoring -----

  function Flags(samples: seq<Sample>): (r: seq<bool>)
    ensures |r| == |samples|
  {
    seq(|samples|, i requires 0 <= i < |samples| => samples[i].isAvailable)
  }

  /** The fold of `success_count`: the longest run so far and the run that ends here. */
  function RunFold(flags: seq<bool>): (nat, nat) {
    if |flags| == 0 then (0, 0) else
    var (best, current) := RunFold(flags[..|flags| - 1]);
    if flags[|flags| - 1] then (if best > current + 1 then best else current + 1, current + 1) else (best, 0)
  }

  function SuccessCount(samples: seq<Sample>): nat {
    RunFold(Flags(samples)).0
  }

  /** All flags from i up to j are set. */
  ghost predicate IsRunOf(flags: seq<bool>, i: nat, j: nat) {
    i <= j <= |flags| && forall l :: i <= l < j ==> flags[l]
  }

  ghost predicate HasRun(flags: seq<bool>, length: nat) {
    exists i: nat, j: nat :: IsRunOf(flags, i, j) && j - i == length
  }

  /** The run that ends the flags, and how long it is. */
  ghost predicate EndsIn(flags: seq<bool>, current: nat) {
    && current <= |flags| && IsRunOf(flags, |flags| - current, |flags|)
    && forall i: nat :: IsRunOf(flags, i, |flags|) ==> |flags| - i <= current
  }

  ghost predicate LongestRun(flags: seq<bool>, best: nat) {
    HasRun(flags, best) && forall i: nat, j: nat :: IsRunOf(flags, i, j) ==> j - i <= best
  }

  lemma EndsInStep(flags: seq<bool>, current: nat)
    requires |flags| > 0 && EndsIn(flags[..|flags| - 1], current)
    ensures EndsIn(flags, if flags[|flags| - 1] then current + 1 else 0)
  {
    var n := |flags| - 1;
    forall i: nat | IsRunOf(flags, i, |flags|) && i <= n ensures IsRunOf(flags[..n], i, n) && flags[n] {
    }
    if flags[n] {
      assert IsRunOf(flags, n - current, n + 1);
    }
  }

  lemma LongestRunStep(flags: seq<bool>, best: nat, current: nat)
    requires |flags| > 0 && LongestRun(flags[..|flags| - 1], best) && EndsIn(flags, current)
    ensures LongestRun(flags, if best > current then best else current)
  {
    var n := |flags| - 1;
    var i: nat, j: nat :| IsRunOf(flags[..n], i, j) && j - i == best;
    assert IsRunOf(flags, i, j);
    forall i: nat, j: nat | IsRunOf(flags, i, j) && j <= n ensures IsRunOf(flags[..n], i, j) {
    }
  }

  /** The fold returns the longest run and the longest run that ends at the end. */
  lemma {:induction false} RunFoldCorrect(flags: seq<bool>)
    ensures var (best, current) := RunFold(flags);
      current <= best && EndsIn(flags, current) && LongestRun(flags, best)
  {
    if |flags| == 0 {
      assert IsRunOf(flags, 0, 0);
    } else {
      RunFoldCorrect(flags[..|flags| - 1]);
      var (best, current) := RunFold(flags[..|flags| - 1]);
      var next := RunFold(flags).1;
      EndsInStep(flags, current);
      LongestRunStep(flags, best, next);
    }
  }

  /** `success_count` is the length of the longest run of available samples. */
  lemma SuccessCountIsLongestRun(samples: seq<Sample>)
    ensures HasRun(Flags(samples), SuccessCount(samples))
    ensures forall length: nat :: HasRun(Flags(samples), length) ==> length <= SuccessCount(samples)
  {
    RunFoldCorrect(Flags(samples));
  }

  /** The successes that `value` counts, consecutive or not. */
  function TotalSuccesses(flags: seq<bool>): nat {
    if |flags| == 0 then 0 else TotalSuccesses(flags[..|flags| - 1]) + if flags[|flags| - 1] then 1 else 0
  }

  lemma {:induction false} RunAtMostTotal(flags: seq<bool>)
    ensures RunFold(flags).1 <= RunFold(flags).0 <= TotalSuccesses(flags)
  {
    if |flags| > 0 {
      RunAtMostTotal(flags[..|flags| - 1]);
    }
  }

  /** `is_availability` */
  predicate IsAvailability(kind: ReliabilityType, samples: seq<Sample>) {
    match kind
    case App => SuccessCount(samples) > MulFloor(900_000, |samples|)
    case Block => SuccessCount(samples) >= BLOCK_AVAILABILITY_THRESHOLD
  }

  /** The samples from i on, as many as the length says, are all available. */
  ghost predicate AllAvailable(samples: seq<Sample>, i: nat, length: nat) {
    i + length <= |samples| && forall l :: i <= l < i + length ==> samples[l].isAvailable
  }

  ghost predicate SomeAvailable(samples: seq<Sample>, length: nat) {
    exists i: nat :: AllAvailable(samples, i, length)
  }

  lemma RunReaches(samples: seq<Sample>, length: nat)
    ensures length <= SuccessCount(samples) <==> SomeAvailable(samples, length)
  {
    SuccessCountIsLongestRun(samples);
    var flags := Flags(samples);
    if length <= SuccessCount(samples) {
      var i: nat, j: nat :| IsRunOf(flags, i, j) && j - i == SuccessCount(samples);
      forall l | i <= l < i + length ensures samples[l].isAvailable {
        assert flags[l];
      }
      assert AllAvailable(samples, i, length);
    }
    if i: nat :| AllAvailable(samples, i, length) {
      assert IsRunOf(flags, i, i + length);
      assert HasRun(flags, length);
    }
  }

  /**
   A block is taken for available exactly if five consecutive samples are available; an application's
   data exactly if more than nine tenths of the samples, rounded down, are so in one run.
   */
  lemma AvailabilityExactly(samples: seq<Sample>)
    ensures IsAvailability(Block, samples) <==> SomeAvailable(samples, 5)
    ensures IsAvailability(App, samples) <==> SomeAvailable(samples, 9 * |samples| / 10 + 1)
  {
    RunReaches(samples, 5);
    RunReaches(samples, 9 * |samples| / 10 + 1);
  }

  lemma {:induction false} MarkedFlags(samples: seq<Sample>, position: Position, l: nat)
    requires l < |samples|
    ensures Flags(samples)[l] ==> Flags(Marked(samples, position))[l]
  {
    if l > 0 && samples[0].position != position {
      MarkedFlags(samples[1..], position, l - 1);
      assert Flags(samples)[l] == Flags(samples[1..])[l - 1];
    }
  }

  /** Marking a sample successful never lowers the score and never turns available into unavailable. */
  lemma MarkingHelps(kind: ReliabilityType, samples: seq<Sample>, position: Position)
    ensures SuccessCount(samples) <= SuccessCount(Marked(samples, position))
    ensures IsAvailability(kind, samples) ==> IsAvailability(kind, Marked(samples, position))
  {
    var before, after := Flags(samples), Flags(Marked(samples, position));
    RunFoldCorrect(before);
    RunFoldCorrect(after);
    var i: nat, j: nat :| IsRunOf(before, i, j) && j - i == SuccessCount(samples);
    forall l | i <= l < j ensures after[l] {
      MarkedFlags(samples, position, l);
    }
    assert IsRunOf(after, i, j);
  }
}
