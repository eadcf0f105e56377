/**
 Writing a program image to its account over a chain that loses, reorders and repeats
 writes, and deploying it only once the account holds all of it.
 */
module ElfUpgrade {
  import opened Arithmetic
  import opened Bytes

  const MAX_WRITE_PASSES: nat := 4
  const WRITE_STALL_LIMIT: nat := 4

  // ---------------------------------------------------------------- chunks

  function ChunkCount(elf: seq<Byte>, size: nat): nat
    requires 0 < size
  {
    DivBounds(|elf| + size - 1, size);
    (|elf| + size - 1) / size
  }

  function ChunkEnd(elf: seq<Byte>, size: nat, i: nat): int
  {
    if (i + 1) * size <= |elf| then (i + 1) * size else |elf|
  }

  /** A chunk index is one whose first byte exists. */
  lemma ChunkExists(elf: seq<Byte>, size: nat, i: nat)
    requires 0 < size
    ensures i < ChunkCount(elf, size) <==> i * size < |elf|
    ensures i * size < |elf| ==> 0 <= i * size < ChunkEnd(elf, size, i) <= |elf|
  {
    var n := |elf| + size - 1;
    DivBounds(n, size);
    MulNonNeg(i, size);
    assert (i + 1) * size == i * size + size;
    if i < n / size {
      MulLe(i + 1, n / size, size);
    } else {
      MulLe(n / size, i, size);
    }
  }

  function Chunk(elf: seq<Byte>, size: nat, i: nat): seq<Byte>
    requires 0 < size && i < ChunkCount(elf, size)
  {
    ChunkExists(elf, size, i);
    elf[i * size..ChunkEnd(elf, size, i)]
  }

  /** Whether the bytes on chain at the chunk's place are the chunk; short data counts as absent. */
  predicate Present(onchain: seq<Byte>, elf: seq<Byte>, size: nat, i: nat)
    requires 0 < size && i < ChunkCount(elf, size)
  {
    ChunkExists(elf, size, i);
    var start := i * size;
    var want := Chunk(elf, size, i);
    start + |want| <= |onchain| && onchain[start..start + |want|] == want
  }

  /** The indices from `i` on whose chunk is not present. */
  function MissingFrom(onchain: seq<Byte>, elf: seq<Byte>, size: nat, i: nat): seq<nat>
    requires 0 < size
    decreases ChunkCount(elf, size) - i
  {
    if ChunkCount(elf, size) <= i then []
    else
      var rest := MissingFrom(onchain, elf, size, i + 1);
      if Present(onchain, elf, size, i) then rest else [i] + rest
  }

  /** The program bytes follow a loader header; an account shorter than the header has none. */
  function Payload(data: seq<Byte>, header: nat): seq<Byte> {
    if header <= |data| then data[header..] else []
  }

  function MissingChunks(data: seq<Byte>, header: nat, elf: seq<Byte>, size: nat): seq<nat>
    requires 0 < size
  {
    MissingFrom(Payload(data, header), elf, size, 0)
  }

  lemma {:induction false} MissingFromIs(onchain: seq<Byte>, elf: seq<Byte>, size: nat, i: nat)
    requires 0 < size
    ensures forall j: nat :: j in MissingFrom(onchain, elf, size, i) <==>
              i <= j < ChunkCount(elf, size) && !Present(onchain, elf, size, j)
    decreases ChunkCount(elf, size) - i
  {
    if i < ChunkCount(elf, size) {
      MissingFromIs(onchain, elf, size, i + 1);
      var rest := MissingFrom(onchain, elf, size, i + 1);
      forall j: nat
        ensures j in MissingFrom(onchain, elf, size, i) <==>
                  i <= j < ChunkCount(elf, size) && !Present(onchain, elf, size, j)
      {
        assert j in MissingFrom(onchain, elf, size, i) <==> (j == i && !Present(onchain, elf, size, i)) || j in rest;
      }
    }
  }

  ghost predicate Ordered(s: seq<nat>) {
    forall a, b :: 0 <= a < b < |s| ==> s[a] < s[b]
  }

  lemma PrependIsOrdered(i: nat, rest: seq<nat>)
    requires Ordered(rest) && forall a :: 0 <= a < |rest| ==> i < rest[a]
    ensures Ordered([i] + rest)
  {
  }

  lemma {:induction false} MissingFromIsOrdered(onchain: seq<Byte>, elf: seq<Byte>, size: nat, i: nat)
    requires 0 < size
    ensures Ordered(MissingFrom(onchain, elf, size, i))
    decreases ChunkCount(elf, size) - i
  {
    if i < ChunkCount(elf, size) {
      MissingFromIs(onchain, elf, size, i + 1);
      MissingFromIsOrdered(onchain, elf, size, i + 1);
      var rest := MissingFrom(onchain, elf, size, i + 1);
      forall a | 0 <= a < |rest| ensures i < rest[a] {
        assert rest[a] in rest;
      }
      PrependIsOrdered(i, rest);
    }
  }

  /** Byte by byte: a chunk is present when each of its bytes is there and right. */
  lemma PresentIs(onchain: seq<Byte>, elf: seq<Byte>, size: nat, i: nat)
    requires 0 < size && i < ChunkCount(elf, size)
    ensures Present(onchain, elf, size, i) <==>
              && ChunkEnd(elf, size, i) <= |onchain|
              && forall k :: i * size <= k < ChunkEnd(elf, size, i) ==> onchain[k] == elf[k]
  {
    ChunkExists(elf, size, i);
    var start, end := i * size, ChunkEnd(elf, size, i);
    if end <= |onchain| {
      var got, want := onchain[start..end], elf[start..end];
      if forall k :: start <= k < end ==> onchain[k] == elf[k] {
        assert got == want;
      }
      if got == want {
        forall k | start <= k < end ensures onchain[k] == elf[k] {
          assert got[k - start] == want[k - start];
        }
      }
    }
  }

  /**
   The diff is exact: it lists, in order and once each, the chunks that are not on chain,
   and it is empty exactly when the image is a prefix of the account's payload.
   */
  lemma MissingChunksIsExact(data: seq<Byte>, header: nat, elf: seq<Byte>, size: nat)
    requires 0 < size
    ensures var missing, onchain := MissingChunks(data, header, elf, size), Payload(data, header);
            && (forall j: nat :: j in missing <==> j < ChunkCount(elf, size) && !Present(onchain, elf, size, j))
            && Ordered(missing)
            && (missing == [] <==> elf <= onchain)
  {
    var onchain := Payload(data, header);
    var missing := MissingChunks(data, header, elf, size);
    MissingFromIs(onchain, elf, size, 0);
    MissingFromIsOrdered(onchain, elf, size, 0);
    if missing == [] {
      AllPresentIsPrefix(onchain, elf, size);
    } else if elf <= onchain {
      assert missing[0] in missing;
      PrefixHasEveryChunk(onchain, elf, size, missing[0]);
    }
  }

  lemma PrefixHasEveryChunk(onchain: seq<Byte>, elf: seq<Byte>, size: nat, j: nat)
    requires 0 < size && elf <= onchain && j < ChunkCount(elf, size)
    ensures Present(onchain, elf, size, j)
  {
    ChunkExists(elf, size, j);
    PresentIs(onchain, elf, size, j);
  }

  lemma ByteIsRight(onchain: seq<Byte>, elf: seq<Byte>, size: nat, k: nat)
    requires 0 < size && k < |elf|
    requires forall j: nat :: j < ChunkCount(elf, size) ==> Present(onchain, elf, size, j)
    ensures k < |onchain| && onchain[k] == elf[k]
  {
    var j := k / size;
    DivBounds(k, size);
    ChunkExists(elf, size, j);
    PresentIs(onchain, elf, size, j);
    assert (j + 1) * size == j * size + size;
  }

  lemma AllPresentIsPrefix(onchain: seq<Byte>, elf: seq<Byte>, size: nat)
    requires 0 < size
    requires forall j: nat :: j < ChunkCount(elf, size) ==> Present(onchain, elf, size, j)
    ensures elf <= onchain
  {
    if 0 < |elf| {
      ByteIsRight(onchain, elf, size, |elf| - 1);
      forall k | 0 <= k < |elf| ensures onchain[k] == elf[k] {
        ByteIsRight(onchain, elf, size, k);
      }
    }
  }

  // ---------------------------------------------------------------- writes landing

  /** One write reaches the account; the loader refuses one that does not fit. */
  function Land(onchain: seq<Byte>, elf: seq<Byte>, size: nat, i: nat): (after: seq<Byte>)
    requires 0 < size
    ensures |after| == |onchain|
  {
    if i < ChunkCount(elf, size) then
      ChunkExists(elf, size, i);
      if ChunkEnd(elf, size, i) <= |onchain| then
        onchain[..i * size] + Chunk(elf, size, i) + onchain[ChunkEnd(elf, size, i)..]
      else onchain
    else onchain
  }

  /** Every byte is either as it was or as it should be, and the written chunk is now right. */
  lemma LandIs(onchain: seq<Byte>, elf: seq<Byte>, size: nat, i: nat)
    requires 0 < size
    ensures var after := Land(onchain, elf, size, i);
            && (forall k :: 0 <= k < |onchain| ==> after[k] == onchain[k] || (k < |elf| && after[k] == elf[k]))
            && (i < ChunkCount(elf, size) && |elf| <= |onchain| ==> Present(after, elf, size, i))
  {
    var after := Land(onchain, elf, size, i);
    if i < ChunkCount(elf, size) {
      ChunkExists(elf, size, i);
      if ChunkEnd(elf, size, i) <= |onchain| {
        var start, end := i * size, ChunkEnd(elf, size, i);
        forall k | 0 <= k < |onchain|
          ensures after[k] == (if start <= k < end then elf[k] else onchain[k])
        {
          if start <= k < end {
            assert Chunk(elf, size, i)[k - start] == elf[k];
          }
        }
        PresentIs(after, elf, size, i);
      }
    }
  }

  /** Writes land in any order, any number of times; what was never sent cannot land. */
  function LandAll(onchain: seq<Byte>, elf: seq<Byte>, size: nat, sent: set<nat>, landing: seq<nat>): (after: seq<Byte>)
    requires 0 < size
    ensures |after| == |onchain|
  {
    if landing == [] then onchain
    else
      var rest := LandAll(onchain, elf, size, sent, landing[..|landing| - 1]);
      var i := landing[|landing| - 1];
      if i in sent then Land(rest, elf, size, i) else rest
  }

  lemma {:induction false} LandAllIs(onchain: seq<Byte>, elf: seq<Byte>, size: nat, sent: set<nat>, landing: seq<nat>)
    requires 0 < size
    ensures var after := LandAll(onchain, elf, size, sent, landing);
            && (forall k :: 0 <= k < |onchain| ==> after[k] == onchain[k] || (k < |elf| && after[k] == elf[k]))
            && (|elf| <= |onchain| ==>
                  forall i: nat :: i in landing && i in sent && i < ChunkCount(elf, size) ==> Present(after, elf, size, i))
    decreases |landing|
  {
    if landing != [] {
      var init, last := landing[..|landing| - 1], landing[|landing| - 1];
      var before := LandAll(onchain, elf, size, sent, init);
      var after := LandAll(onchain, elf, size, sent, landing);
      LandAllIs(onchain, elf, size, sent, init);
      LandIs(before, elf, size, last);
      if |elf| <= |onchain| {
        forall i: nat | i in landing && i in sent && i < ChunkCount(elf, size)
          ensures Present(after, elf, size, i)
        {
          if i in init {
            StaysPresent(before, after, elf, size, i);
          } else {
            assert i == last;
          }
        }
      }
    }
  }

  /** Correct bytes stay correct, so a present chunk stays present. */
  lemma StaysPresent(before: seq<Byte>, after: seq<Byte>, elf: seq<Byte>, size: nat, i: nat)
    requires 0 < size && i < ChunkCount(elf, size) && |after| == |before|
    requires forall k :: 0 <= k < |before| ==> after[k] == before[k] || (k < |elf| && after[k] == elf[k])
    requires Present(before, elf, size, i)
    ensures Present(after, elf, size, i)
  {
  }

  /** The diff only shrinks, whatever lands. */
  lemma {:induction false} MissingShrinks(before: seq<Byte>, after: seq<Byte>, elf: seq<Byte>, size: nat, i: nat)
    requires 0 < size && |after| == |before|
    requires forall k :: 0 <= k < |before| ==> after[k] == before[k] || (k < |elf| && after[k] == elf[k])
    ensures var old', new' := MissingFrom(before, elf, size, i), MissingFrom(after, elf, size, i);
            && |new'| <= |old'|
            && (forall j: nat :: j in new' ==> j in old')
    decreases ChunkCount(elf, size) - i
  {
    if i < ChunkCount(elf, size) {
      MissingShrinks(before, after, elf, size, i + 1);
      if Present(before, elf, size, i) {
        StaysPresent(before, after, elf, size, i);
      }
    }
  }

  // ---------------------------------------------------------------- the upgrade

  /** What the environment does before a readback: the read fails, or some writes land first. */
  datatype Poll = ReadFails | Lands(chunks: seq<nat>)

  datatype UpgradeResult = Deployed | RpcError | StillMissing(chunks: nat) | VerifyFailed

  /** How many chunks a pass set out to write, and how many readbacks it made. */
  datatype Pass = Pass(todo: nat, polls: nat)

  /** An environment that delivers every write at the first opportunity and never fails a read. */
  ghost predicate Lossless(env: nat -> Poll, elf: seq<Byte>, size: nat)
    requires 0 < size
  {
    forall t: nat :: env(t).Lands? && forall i: nat :: i < ChunkCount(elf, size) ==> i in env(t).chunks
  }

  /** The payload after the k readbacks that follow time t, with `sent` the writes in flight. */
  function After(env: nat -> Poll, elf: seq<Byte>, size: nat, sent: set<nat>, onchain: seq<Byte>, t: nat, k: nat): (after: seq<Byte>)
    requires 0 < size
    ensures |after| == |onchain|
    decreases k
  {
    if k == 0 then onchain
    else
      var before := After(env, elf, size, sent, onchain, t, k - 1);
      if env(t + k).ReadFails? then before else LandAll(before, elf, size, sent, env(t + k).chunks)
  }

  function CountMissing(onchain: seq<Byte>, elf: seq<Byte>, size: nat): nat
    requires 0 < size
  {
    |MissingFrom(onchain, elf, size, 0)|
  }

  /**
   An environment that never fails a read and, however slowly, lands at least one missing chunk
   within any `WRITE_STALL_LIMIT` readbacks in a row.
   */
  ghost predicate Steady(env: nat -> Poll, elf: seq<Byte>, size: nat, sent: set<nat>, onchain: seq<Byte>, t: nat)
    requires 0 < size
  {
    forall k: nat :: SteadyAt(env, elf, size, sent, onchain, t, k)
  }

  ghost predicate SteadyAt(env: nat -> Poll, elf: seq<Byte>, size: nat, sent: set<nat>, onchain: seq<Byte>, t: nat, k: nat)
    requires 0 < size
  {
    && env(t + k + 1).Lands?
    && var before := CountMissing(After(env, elf, size, sent, onchain, t, k), elf, size);
       before == 0 || CountMissing(After(env, elf, size, sent, onchain, t, k + WRITE_STALL_LIMIT), elf, size) < before
  }

  // ---------------------------------------------------------------- one pass of polling

  datatype PassEnd = PassEnd(failed: bool, t: nat, onchain: seq<Byte>)

  lemma CountShrinks(onchain: seq<Byte>, elf: seq<Byte>, size: nat, sent: set<nat>, landing: seq<nat>)
    requires 0 < size && |elf| == |onchain|
    ensures CountMissing(LandAll(onchain, elf, size, sent, landing), elf, size) <= CountMissing(onchain, elf, size)
  {
    Progress(onchain, onchain, LandAll(onchain, elf, size, sent, landing), elf, size, sent, landing);
  }

  /** Read back until nothing is missing, a read fails, or `WRITE_STALL_LIMIT` readbacks in a row brought nothing. */
  function PollLoop(env: nat -> Poll, elf: seq<Byte>, size: nat, sent: set<nat>, onchain: seq<Byte>, stalls: nat, t: nat): PassEnd
    requires 0 < size && |elf| == |onchain| && stalls <= WRITE_STALL_LIMIT
    decreases CountMissing(onchain, elf, size), WRITE_STALL_LIMIT - stalls
  {
    if stalls == WRITE_STALL_LIMIT then PassEnd(false, t, onchain)
    else if env(t + 1).ReadFails? then PassEnd(true, t + 1, onchain)
    else
      var after := LandAll(onchain, elf, size, sent, env(t + 1).chunks);
      CountShrinks(onchain, elf, size, sent, env(t + 1).chunks);
      var before, left := CountMissing(onchain, elf, size), CountMissing(after, elf, size);
      if left == 0 then PassEnd(false, t + 1, after)
      else PollLoop(env, elf, size, sent, after, if left < before then 0 else stalls + 1, t + 1)
  }

  /**
   Where a pass is at time t: it has read what the environment made of the start, the last
   `stalls` readbacks brought nothing, and the readbacks so far, with those that can still
   follow, are within `WRITE_STALL_LIMIT` for each chunk and for the end.
   */
  ghost predicate OnTrack(env: nat -> Poll, elf: seq<Byte>, size: nat, sent: set<nat>, start: seq<Byte>, now: nat,
                          t: nat, stalls: nat, onchain: seq<Byte>)
    requires 0 < size
  {
    && now + stalls <= t && stalls <= WRITE_STALL_LIMIT
    && onchain == After(env, elf, size, sent, start, now, t - now)
    && CountMissing(After(env, elf, size, sent, start, now, t - now - stalls), elf, size) == CountMissing(onchain, elf, size)
    && t - now + WRITE_STALL_LIMIT * CountMissing(onchain, elf, size) + (WRITE_STALL_LIMIT - stalls)
       <= WRITE_STALL_LIMIT * (CountMissing(start, elf, size) + 1)
  }

  lemma OneReadback(env: nat -> Poll, elf: seq<Byte>, size: nat, sent: set<nat>, start: seq<Byte>, now: nat,
                    t: nat, stalls: nat, onchain: seq<Byte>, after: seq<Byte>)
    requires 0 < size && |elf| == |start| && stalls < WRITE_STALL_LIMIT
    requires OnTrack(env, elf, size, sent, start, now, t, stalls, onchain)
    requires env(t + 1).Lands? && after == LandAll(onchain, elf, size, sent, env(t + 1).chunks)
    ensures var before, left := CountMissing(onchain, elf, size), CountMissing(after, elf, size);
            left <= before && OnTrack(env, elf, size, sent, start, now, t + 1, if left < before then 0 else stalls + 1, after)
  {
    CountShrinks(onchain, elf, size, sent, env(t + 1).chunks);
    NextReadback(env, elf, size, sent, start, now, t);
  }

  lemma NextReadback(env: nat -> Poll, elf: seq<Byte>, size: nat, sent: set<nat>, start: seq<Byte>, now: nat, t: nat)
    requires 0 < size && now <= t && env(t + 1).Lands?
    ensures After(env, elf, size, sent, start, now, t + 1 - now)
         == LandAll(After(env, elf, size, sent, start, now, t - now), elf, size, sent, env(t + 1).chunks)
  {
    assert now + (t + 1 - now) == t + 1;
  }

  /** However a pass ends: what it read, how often, and that giving up means the last readbacks brought nothing. */
  ghost predicate EndsWell(env: nat -> Poll, elf: seq<Byte>, size: nat, sent: set<nat>, start: seq<Byte>, now: nat, end: PassEnd)
    requires 0 < size
  {
    && now <= end.t && |end.onchain| == |start|
    && (end.failed ==> now < end.t && env(end.t).ReadFails? && end.onchain == After(env, elf, size, sent, start, now, end.t - 1 - now))
    && (!end.failed ==> end.onchain == After(env, elf, size, sent, start, now, end.t - now))
    && (!end.failed && CountMissing(end.onchain, elf, size) != 0 ==>
          OnTrack(env, elf, size, sent, start, now, end.t, WRITE_STALL_LIMIT, end.onchain))
    && end.t - now - (if end.failed then 1 else 0) <= WRITE_STALL_LIMIT * (CountMissing(start, elf, size) + 1)
  }

  lemma EndsHere(env: nat -> Poll, elf: seq<Byte>, size: nat, sent: set<nat>, start: seq<Byte>, now: nat,
                 t: nat, stalls: nat, onchain: seq<Byte>)
    requires 0 < size && OnTrack(env, elf, size, sent, start, now, t, stalls, onchain)
    ensures stalls == WRITE_STALL_LIMIT || CountMissing(onchain, elf, size) == 0 ==>
              EndsWell(env, elf, size, sent, start, now, PassEnd(false, t, onchain))
    ensures env(t + 1).ReadFails? ==> EndsWell(env, elf, size, sent, start, now, PassEnd(true, t + 1, onchain))
  {
  }

  lemma {:induction false} LoopEndsWell(env: nat -> Poll, elf: seq<Byte>, size: nat, sent: set<nat>, start: seq<Byte>, now: nat,
                                        t: nat, stalls: nat, onchain: seq<Byte>)
    requires 0 < size && |elf| == |start| && |elf| == |onchain|
    requires OnTrack(env, elf, size, sent, start, now, t, stalls, onchain)
    ensures EndsWell(env, elf, size, sent, start, now, PollLoop(env, elf, size, sent, onchain, stalls, t))
    decreases CountMissing(onchain, elf, size), WRITE_STALL_LIMIT - stalls
  {
    EndsHere(env, elf, size, sent, start, now, t, stalls, onchain);
    if stalls < WRITE_STALL_LIMIT && env(t + 1).Lands? {
      var after := LandAll(onchain, elf, size, sent, env(t + 1).chunks);
      OneReadback(env, elf, size, sent, start, now, t, stalls, onchain, after);
      var before, left := CountMissing(onchain, elf, size), CountMissing(after, elf, size);
      var stalled := if left < before then 0 else stalls + 1;
      if left == 0 {
        EndsHere(env, elf, size, sent, start, now, t + 1, stalled, after);
      } else {
        LoopEndsWell(env, elf, size, sent, start, now, t + 1, stalled, after);
      }
    }
  }

  /** In a steady environment no pass gives up and no read fails. */
  lemma SteadyCompletes(env: nat -> Poll, elf: seq<Byte>, size: nat, sent: set<nat>, start: seq<Byte>, now: nat, end: PassEnd)
    requires 0 < size && EndsWell(env, elf, size, sent, start, now, end)
    ensures end.failed || CountMissing(end.onchain, elf, size) != 0 ==> !Steady(env, elf, size, sent, start, now)
  {
    if end.failed {
      assert now + (end.t - 1 - now) + 1 == end.t;
      assert !SteadyAt(env, elf, size, sent, start, now, end.t - 1 - now);
    } else if CountMissing(end.onchain, elf, size) != 0 {
      var k := end.t - now - WRITE_STALL_LIMIT;
      assert k + WRITE_STALL_LIMIT == end.t - now;
      assert !SteadyAt(env, elf, size, sent, start, now, k);
    }
  }

  /** Any number of readbacks only improves the payload and never makes a chunk missing. */
  lemma {:induction false} AfterImproves(env: nat -> Poll, elf: seq<Byte>, size: nat, sent: set<nat>, start: seq<Byte>, now: nat, k: nat)
    requires 0 < size && |elf| == |start|
    ensures var after := After(env, elf, size, sent, start, now, k);
            && Improved(start, after, elf)
            && (forall j: nat :: j in MissingFrom(after, elf, size, 0) ==> j in MissingFrom(start, elf, size, 0))
    decreases k
  {
    if 0 < k {
      AfterImproves(env, elf, size, sent, start, now, k - 1);
      if env(now + k).Lands? {
        var before := After(env, elf, size, sent, start, now, k - 1);
        Progress(start, before, After(env, elf, size, sent, start, now, k), elf, size, sent, env(now + k).chunks);
      }
    }
  }

  /** An environment that loses nothing is steady once everything missing has been sent. */
  lemma LosslessIsSteady(env: nat -> Poll, elf: seq<Byte>, size: nat, sent: set<nat>, start: seq<Byte>, now: nat)
    requires 0 < size && |elf| == |start| && Lossless(env, elf, size)
    requires forall j: nat :: j in MissingFrom(start, elf, size, 0) ==> j in sent
    ensures Steady(env, elf, size, sent, start, now)
  {
    forall k: nat ensures SteadyAt(env, elf, size, sent, start, now, k) {
      DeliveredAfter(env, elf, size, sent, start, now, k + WRITE_STALL_LIMIT);
    }
  }

  lemma DeliveredAfter(env: nat -> Poll, elf: seq<Byte>, size: nat, sent: set<nat>, start: seq<Byte>, now: nat, k: nat)
    requires 0 < size && 0 < k && |elf| == |start| && Lossless(env, elf, size)
    requires forall j: nat :: j in MissingFrom(start, elf, size, 0) ==> j in sent
    ensures CountMissing(After(env, elf, size, sent, start, now, k), elf, size) == 0
  {
    AfterImproves(env, elf, size, sent, start, now, k - 1);
    AfterImproves(env, elf, size, sent, start, now, k);
    var before, after := After(env, elf, size, sent, start, now, k - 1), After(env, elf, size, sent, start, now, k);
    Progress(start, before, after, elf, size, sent, env(now + k).chunks);
    if MissingFrom(after, elf, size, 0) != [] {
      HasMember(MissingFrom(after, elf, size, 0));
    }
  }

  lemma HasMember(s: seq<nat>)
    requires s != []
    ensures exists j: nat :: j in s
  {
    assert s[0] in s;
  }

  lemma PassEnds(env: nat -> Poll, elf: seq<Byte>, size: nat, sent: set<nat>, start: seq<Byte>, now: nat, end: PassEnd)
    requires 0 < size && |elf| == |start| && EndsWell(env, elf, size, sent, start, now, end)
    requires forall j: nat :: j in MissingFrom(start, elf, size, 0) ==> j in sent
    ensures Improved(start, end.onchain, elf)
    ensures Steady(env, elf, size, sent, start, now) || Lossless(env, elf, size) ==> !end.failed && CountMissing(end.onchain, elf, size) == 0
  {
    AfterImproves(env, elf, size, sent, start, now, if end.failed then end.t - 1 - now else end.t - now);
    if Lossless(env, elf, size) {
      LosslessIsSteady(env, elf, size, sent, start, now);
    }
    SteadyCompletes(env, elf, size, sent, start, now, end);
  }

  class ProgramAccount {
    var data: seq<Byte>
    var executable: bool
    var sent: set<nat>

    constructor (data: seq<Byte>)
      ensures this.data == data && !executable && sent == {}
    {
      this.data, executable, sent := data, false, {};
    }

    /** The environment acts: writes already sent reach the account. */
    method Receive(header: nat, elf: seq<Byte>, size: nat, chunks: seq<nat>)
      requires 0 < size && |data| == header + |elf|
      modifies this`data
      ensures |data| == |old(data)| && data[..header] == old(data)[..header]
      ensures Payload(data, header) == LandAll(Payload(old(data), header), elf, size, sent, chunks)
    {
      var i := 0;
      while i < |chunks|
        invariant 0 <= i <= |chunks|
        invariant |data| == |old(data)| && data[..header] == old(data)[..header]
        invariant data[header..] == LandAll(old(data)[header..], elf, size, sent, chunks[..i])
      {
        assert chunks[..i + 1][..i] == chunks[..i];
        data := data[..header] + (if chunks[i] in sent then Land(data[header..], elf, size, chunks[i]) else data[header..]);
        i := i + 1;
      }
      assert chunks[..i] == chunks;
    }

    /** What every step of the upgrade keeps: the size, the header, and every byte that was right. */
    twostate predicate Kept(header: nat, elf: seq<Byte>)
      reads this
    {
      && |old(data)| == header + |elf|
      && |data| == header + |elf|
      && data[..header] == old(data)[..header]
      && Improved(old(data)[header..], data[header..], elf)
    }

    /**
     One pass: send the missing chunks, then read back until none is missing or progress
     has stalled for `WRITE_STALL_LIMIT` readbacks in a row.
     */
    method WritePass(header: nat, elf: seq<Byte>, size: nat, env: nat -> Poll, now: nat, missing: seq<nat>)
      returns (failed: bool, t: nat, todo: seq<nat>)
      requires 0 < size && |data| == header + |elf|
      requires missing == MissingChunks(data, header, elf, size)
      modifies this`data, this`sent
      ensures Kept(header, elf)
      ensures sent == old(sent) + (set i | i in missing)
      ensures todo == MissingChunks(data, header, elf, size)
      ensures EndsWell(env, elf, size, sent, Payload(old(data), header), now, PassEnd(failed, t, Payload(data, header)))
      ensures Steady(env, elf, size, sent, Payload(old(data), header), now) ==> !failed && todo == []
      ensures Lossless(env, elf, size) ==> !failed && todo == []
    {
      sent := sent + (set i | i in missing);
      ghost var start := data[header..];
      LoopEndsWell(env, elf, size, sent, start, now, now, 0, start);
      PassEnds(env, elf, size, sent, start, now, PollLoop(env, elf, size, sent, start, 0, now));
      failed, t, todo := PollUntilDone(header, elf, size, env, now, missing);
    }

    /** Wait for the writes of a pass to land. */
    method PollUntilDone(header: nat, elf: seq<Byte>, size: nat, env: nat -> Poll, now: nat, missing: seq<nat>)
      returns (failed: bool, t: nat, todo: seq<nat>)
      requires 0 < size && |data| == header + |elf|
      requires missing == MissingFrom(data[header..], elf, size, 0)
      modifies this`data
      ensures |data| == |old(data)| && data[..header] == old(data)[..header]
      ensures todo == MissingFrom(data[header..], elf, size, 0)
      ensures PassEnd(failed, t, data[header..]) == PollLoop(env, elf, size, sent, old(data)[header..], 0, now)
    {
      var onchain := data[header..];
      ghost var end := PollLoop(env, elf, size, sent, onchain, 0, now);
      var stalls := 0;
      failed, t, todo := false, now, missing;
      while stalls < WRITE_STALL_LIMIT
        invariant data == old(data)[..header] + onchain && |onchain| == |elf|
        invariant stalls <= WRITE_STALL_LIMIT && todo == MissingFrom(onchain, elf, size, 0)
        invariant PollLoop(env, elf, size, sent, onchain, stalls, t) == end
        decreases |todo|, WRITE_STALL_LIMIT - stalls
      {
        t := t + 1;
        if env(t).ReadFails? {
          failed := true;
          return;
        }
        var after := ReadBack(header, elf, size, onchain, env(t).chunks);
        CountShrinks(onchain, elf, size, sent, env(t).chunks);
        var remaining := MissingFrom(after, elf, size, 0);
        stalls := if |remaining| < |todo| then 0 else stalls + 1;
        todo, onchain := remaining, after;
        if todo == [] {
          return;
        }
      }
    }

    /** The environment acts, then the account is read. */
    method ReadBack(header: nat, elf: seq<Byte>, size: nat, onchain: seq<Byte>, chunks: seq<nat>) returns (after: seq<Byte>)
      requires 0 < size && |onchain| == |elf| && header <= |data| && data[header..] == onchain
      modifies this`data
      ensures after == LandAll(onchain, elf, size, sent, chunks) && |after| == |elf|
      ensures data == old(data)[..header] + after
    {
      Receive(header, elf, size, chunks);
      after := data[header..];
    }

    /**
     The write, reconcile and deploy phase on a sized, retracted account, against any
     environment. It becomes executable only with the whole image in place, whatever was
     lost, late or repeated, and the final verification cannot fail. What was right stays
     right, so a rerun resumes; and if nothing is lost, it succeeds.
     */
    method WriteAndDeploy(header: nat, elf: seq<Byte>, size: nat, env: nat -> Poll)
      returns (r: UpgradeResult, ghost passes: seq<Pass>)
      requires 0 < size && |data| == header + |elf| && !executable
      modifies this
      ensures Kept(header, elf)
      ensures r.Deployed? ==> executable
      ensures executable ==> data[header..] == elf
      ensures r != VerifyFailed
      ensures |passes| <= MAX_WRITE_PASSES
      ensures forall n :: 0 <= n < |passes| ==> passes[n].polls <= WRITE_STALL_LIMIT * (passes[n].todo + 1)
      ensures r.StillMissing? ==> |passes| == MAX_WRITE_PASSES && r.chunks == |MissingChunks(data, header, elf, size)| > 0
      ensures SteadyFrom(old(data), old(sent), header, elf, size, env) ==> r.Deployed?
      ensures Lossless(env, elf, size) ==> r.Deployed?
    {
      var failed, t, todo;
      failed, t, todo, passes := WriteAll(header, elf, size, env);
      if failed {
        return RpcError, passes;
      }
      if todo != [] {
        return StillMissing(|todo|), passes;
      }
      MissingChunksIsExact(data, header, elf, size);
      assert data[header..] == elf;
      if SteadyFrom(old(data), old(sent), header, elf, size, env) {
        SteadyReads(old(data), old(sent), header, elf, size, env, t + 1);
        SteadyReads(old(data), old(sent), header, elf, size, env, t + 2);
      }
      r := DeployAndVerify(header, elf, size, env, t);
    }

    /** The first readback and up to `MAX_WRITE_PASSES` passes. */
    method WriteAll(header: nat, elf: seq<Byte>, size: nat, env: nat -> Poll)
      returns (failed: bool, t: nat, todo: seq<nat>, ghost passes: seq<Pass>)
      requires 0 < size && |data| == header + |elf|
      modifies this`data, this`sent
      ensures Kept(header, elf)
      ensures !failed ==> todo == MissingChunks(data, header, elf, size)
      ensures |passes| <= MAX_WRITE_PASSES
      ensures forall n :: 0 <= n < |passes| ==> passes[n].polls <= WRITE_STALL_LIMIT * (passes[n].todo + 1)
      ensures !failed && todo != [] ==> |passes| == MAX_WRITE_PASSES
      ensures SteadyFrom(old(data), old(sent), header, elf, size, env) || Lossless(env, elf, size) ==> !failed && todo == []
    {
      passes, failed, t, todo := [], false, 0, [];
      if env(0).ReadFails? {
        failed := true;
        return;
      }
      ghost var start := data[header..];
      Receive(header, elf, size, env(0).chunks);
      Progress(start, start, data[header..], elf, size, sent, env(0).chunks);
      todo := MissingChunks(data, header, elf, size);
      ghost var good := SteadyFrom(old(data), old(sent), header, elf, size, env) || Lossless(env, elf, size);
      var pass := 0;
      while pass < MAX_WRITE_PASSES
        invariant 0 <= pass <= MAX_WRITE_PASSES && |passes| == pass
        invariant Kept(header, elf)
        invariant todo == MissingChunks(data, header, elf, size)
        invariant good ==> pass == 0
        invariant pass == 0 ==> t == 0 && sent == old(sent) && data[header..] == FirstRead(old(data), old(sent), header, elf, size, env(0))
        invariant forall n :: 0 <= n < |passes| ==> passes[n].polls <= WRITE_STALL_LIMIT * (passes[n].todo + 1)
      {
        ghost var before, planned, now := data[header..], |todo|, t;
        failed, t, todo := WritePass(header, elf, size, env, t, todo);
        ImprovedTwice(start, before, data[header..], elf);
        passes := passes + [Pass(planned, t - now - (if failed then 1 else 0))];
        if failed || todo == [] {
          return;
        }
        pass := pass + 1;
      }
    }

    /** The image is complete: make it executable, read it once more and compare. */
    method DeployAndVerify(header: nat, elf: seq<Byte>, size: nat, env: nat -> Poll, now: nat) returns (r: UpgradeResult)
      requires 0 < size && |data| == header + |elf| && data[header..] == elf
      modifies this`data, this`executable
      ensures data == old(data)
      ensures r.Deployed? || r.RpcError?
      ensures r.Deployed? ==> executable
      ensures env(now + 1).Lands? && env(now + 2).Lands? ==> r.Deployed?
    {
      if env(now + 1).ReadFails? {
        return RpcError;
      }
      LateWrites(header, elf, size, env(now + 1).chunks);
      executable := true;
      if env(now + 2).ReadFails? {
        return RpcError;
      }
      LateWrites(header, elf, size, env(now + 2).chunks);
      r := if data[header..] == elf then Deployed else VerifyFailed;
    }

    /** Writes that arrive after the image is complete change nothing. */
    method LateWrites(header: nat, elf: seq<Byte>, size: nat, chunks: seq<nat>)
      requires 0 < size && |data| == header + |elf| && data[header..] == elf
      modifies this`data
      ensures data == old(data)
    {
      LandAllIs(data[header..], elf, size, sent, chunks);
      Receive(header, elf, size, chunks);
      assert data[header..] == elf;
      assert data == data[..header] + data[header..];
      assert old(data) == old(data)[..header] + old(data)[header..];
    }
  }

  /** What the first readback sees, and what is in flight once the first pass has sent what it missed. */
  function FirstRead(data: seq<Byte>, sent: set<nat>, header: nat, elf: seq<Byte>, size: nat, poll: Poll): seq<Byte>
    requires 0 < size && poll.Lands?
  {
    LandAll(Payload(data, header), elf, size, sent, poll.chunks)
  }

  function FirstSent(data: seq<Byte>, sent: set<nat>, header: nat, elf: seq<Byte>, size: nat, poll: Poll): set<nat>
    requires 0 < size && poll.Lands?
  {
    sent + (set i | i in MissingFrom(FirstRead(data, sent, header, elf, size, poll), elf, size, 0))
  }

  /** Steady from the first readback on, through the deployment. */
  ghost predicate SteadyFrom(data: seq<Byte>, sent: set<nat>, header: nat, elf: seq<Byte>, size: nat, env: nat -> Poll)
    requires 0 < size
  {
    && env(0).Lands?
    && Steady(env, elf, size, FirstSent(data, sent, header, elf, size, env(0)), FirstRead(data, sent, header, elf, size, env(0)), 0)
  }

  lemma SteadyReads(data: seq<Byte>, sent: set<nat>, header: nat, elf: seq<Byte>, size: nat, env: nat -> Poll, t: nat)
    requires 0 < size && 0 < t && SteadyFrom(data, sent, header, elf, size, env)
    ensures env(t).Lands?
  {
    assert SteadyAt(env, elf, size, FirstSent(data, sent, header, elf, size, env(0)), FirstRead(data, sent, header, elf, size, env(0)), 0, t - 1);
  }

  /** What was right before, or became right since, stays right. */
  lemma ImprovedTwice(first: seq<Byte>, second: seq<Byte>, third: seq<Byte>, elf: seq<Byte>)
    requires Improved(first, second, elf) && Improved(second, third, elf)
    ensures Improved(first, third, elf)
  {
  }

  /** Nothing that was right has become wrong. */
  ghost predicate Improved(before: seq<Byte>, after: seq<Byte>, elf: seq<Byte>) {
    |after| == |before| && forall k :: 0 <= k < |before| ==> after[k] == before[k] || (k < |elf| && after[k] == elf[k])
  }

  /** One readback later: still improved, no chunk newly missing, and everything sent and delivered is present. */
  lemma Progress(start: seq<Byte>, before: seq<Byte>, after: seq<Byte>, elf: seq<Byte>, size: nat, sent: set<nat>, landing: seq<nat>)
    requires 0 < size && |elf| == |start| && Improved(start, before, elf)
    requires after == LandAll(before, elf, size, sent, landing)
    ensures Improved(start, after, elf)
    ensures |MissingFrom(after, elf, size, 0)| <= |MissingFrom(before, elf, size, 0)|
    ensures forall j: nat :: j in MissingFrom(after, elf, size, 0) ==> j in MissingFrom(before, elf, size, 0)
    ensures forall j: nat :: j in MissingFrom(after, elf, size, 0) ==>
              j < ChunkCount(elf, size) && (j !in sent || j !in landing)
  {
    LandAllIs(before, elf, size, sent, landing);
    MissingShrinks(before, after, elf, size, 0);
    MissingFromIs(after, elf, size, 0);
  }
}
