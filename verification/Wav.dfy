/** The mixing of a wave sound in libretro-common/audio/audio_mixer.c. */
module Wav {
  import Arith

  // -------------------------------------------------------------------------
  // Where a looping sound stands after `x` samples

  /** The position, at the end of the sound rather than at its start. */
  function Position(x: nat, n: nat): (p: nat)
    requires n > 0
    ensures p <= n
  {
    if x == 0 then 0 else (x - 1) % n + 1
  }

  /** How often it started over. */
  function Repeats(x: nat, n: nat): nat
    requires n > 0
  {
    if x == 0 then 0 else (x - 1) / n
  }

  lemma PositionIs(x: nat, n: nat, k: nat, p: nat)
    requires 0 < p <= n && x == k * n + p
    ensures Position(x, n) == p && Repeats(x, n) == k
  {
    Arith.DivisionIs(x - 1, n, k, p - 1);
  }

  lemma PositionSplit(x: nat, n: nat)
    requires n > 0
    ensures x == Repeats(x, n) * n + Position(x, n)
    ensures x > 0 ==> Position(x, n) > 0
  {
  }

  /** Going on from a position is going on from the count it stands for. */
  lemma GoOn(x: nat, m: nat, n: nat)
    requires n > 0
    ensures Position(Position(x, n) + m, n) == Position(x + m, n)
    ensures Repeats(x, n) + Repeats(Position(x, n) + m, n) == Repeats(x + m, n)
  {
    var p := Position(x, n);
    PositionSplit(x, n);
    if p + m > 0 {
      PositionSplit(p + m, n);
      var k, j := Repeats(x, n), Repeats(p + m, n);
      assert (k + j) * n == k * n + j * n;
      PositionIs(x + m, n, k + j, Position(p + m, n));
    }
  }

  // -------------------------------------------------------------------------
  // What is mixed in

  /** What mixing a sample in at some volume makes of the old output, rounding included. */
  datatype Volume<!F> = Volume(mix: (F, F) -> F)

  /** Sample `x` of a sound that loops. */
  function Sample<F>(pcm: seq<F>, x: nat): F
    requires |pcm| > 0
  {
    pcm[x % |pcm|]
  }

  /** `buffer` with `m` samples from `x` on mixed in. */
  function Mixed<F>(buffer: seq<F>, pcm: seq<F>, volume: Volume<F>, x: nat, m: nat): (r: seq<F>)
    requires |pcm| > 0 && m <= |buffer|
    ensures |r| == |buffer|
  {
    seq(|buffer|, (j: nat) requires j < |buffer| => if j < m then volume.mix(buffer[j], Sample(pcm, x + j))
      else buffer[j])
  }

  /** The total of call sizes. */
  function Total(sizes: seq<nat>): nat {
    if sizes == [] then 0 else sizes[0] + Total(sizes[1..])
  }

  /** A sound played in calls of the given sizes: what is heard, the position and the repeat callbacks. */
  datatype Played<F> = Played(samples: seq<F>, position: nat, repeats: nat)

  function Heard<F>(pcm: seq<F>, x: nat, m: nat): (s: seq<F>)
    requires |pcm| > 0
    ensures |s| == m
  {
    seq(m, (j: nat) => Sample(pcm, x + j))
  }

  function PlayCalls<F>(pcm: seq<F>, position: nat, sizes: seq<nat>): Played<F>
    requires |pcm| > 0
    decreases |sizes|
  {
    if sizes == [] then Played([], position, 0)
    else
      var m := sizes[0];
      var rest := PlayCalls(pcm, Position(position + m, |pcm|), sizes[1..]);
      Played(Heard(pcm, position, m) + rest.samples, rest.position, Repeats(position + m, |pcm|) + rest.repeats)
  }

  lemma SameSample<F>(pcm: seq<F>, x: nat, j: nat)
    requires |pcm| > 0
    ensures Sample(pcm, Position(x, |pcm|) + j) == Sample(pcm, x + j)
  {
    var n := |pcm|;
    var p := Position(x, n);
    PositionSplit(x, n);
    var k, q, r := Repeats(x, n), (p + j) / n, (p + j) % n;
    assert x + j == (k + q) * n + r by {
      assert (k + q) * n == k * n + q * n;
    }
    Arith.DivisionIs(x + j, n, k + q, r);
  }

  /** However the calls cut the sound up, it is heard as in one call, with the same position and callbacks. */
  lemma {:induction false} CallsDoNotMatter<F>(pcm: seq<F>, x: nat, sizes: seq<nat>)
    requires |pcm| > 0
    ensures var played := PlayCalls(pcm, Position(x, |pcm|), sizes);
            && played.samples == Heard(pcm, x, Total(sizes))
            && played.position == Position(x + Total(sizes), |pcm|)
            && Repeats(x, |pcm|) + played.repeats == Repeats(x + Total(sizes), |pcm|)
    decreases |sizes|
  {
    var n := |pcm|;
    if sizes != [] {
      var m := sizes[0];
      var p := Position(x, n);
      GoOn(x, m, n);
      CallsDoNotMatter(pcm, x + m, sizes[1..]);
      forall j: nat | j < m
        ensures Heard(pcm, p, m)[j] == Heard(pcm, x, m)[j]
      {
        SameSample(pcm, x, j);
      }
      assert Heard(pcm, p, m) == Heard(pcm, x, m);
      assert Heard(pcm, x, Total(sizes)) == Heard(pcm, x, m) + Heard(pcm, x + m, Total(sizes[1..]));
    }
  }

  // -------------------------------------------------------------------------
  // audio_mixer_mix_wav

  lemma NothingMixed<F>(buffer: seq<F>, pcm: seq<F>, volume: Volume<F>, x: nat)
    requires |pcm| > 0
    ensures Mixed(buffer, pcm, volume, x, 0) == buffer
  {
  }

  lemma MixOne<F>(buffer: seq<F>, pcm: seq<F>, volume: Volume<F>, x: nat, m: nat)
    requires |pcm| > 0 && m < |buffer|
    ensures Mixed(buffer, pcm, volume, x, m + 1)
         == Mixed(buffer, pcm, volume, x, m)[m := volume.mix(buffer[m], Sample(pcm, x + m))]
    ensures Mixed(buffer, pcm, volume, x, m)[m] == buffer[m]
  {
    var before, after := Mixed(buffer, pcm, volume, x, m), Mixed(buffer, pcm, volume, x, m + 1);
    forall j: nat | j < |buffer|
      ensures after[j] == before[m := volume.mix(buffer[m], Sample(pcm, x + m))][j]
    {
      if j == m {
        assert after[j] == volume.mix(buffer[j], Sample(pcm, x + j));
      } else {
        assert after[j] == before[j];
      }
    }
  }

  /** `x` samples from the start of a looping sound is sample `from` of it. */
  ghost predicate At(x: nat, n: nat, k: nat, from: nat) {
    x == k * n + from
  }

  lemma SampleAt<F>(pcm: seq<F>, x: nat, done: nat, k: nat, from: nat, out: nat)
    requires At(x + done, |pcm|, k, from) && done <= out && from + (out - done) < |pcm|
    ensures Sample(pcm, x + out) == pcm[from + (out - done)]
  {
    Arith.DivisionIs(x + out, |pcm|, k, from + (out - done));
  }

  lemma AtNext(x: nat, n: nat, k: nat, from: nat, next: nat)
    requires At(x, n, k, from) && from <= n && next == x + (n - from)
    ensures At(next, n, k + 1, 0)
  {
    assert (k + 1) * n == k * n + n;
  }

  /** The copying loop: `count` samples from `from` on, where `done` are mixed in already. */
  method MixChunk<F>(buffer: array<F>, done: nat, pcm: seq<F>, from: nat, count: nat, volume: Volume<F>,
                  ghost x: nat, ghost k: nat, ghost buffer0: seq<F>)
    requires |buffer0| == buffer.Length && done + count <= buffer.Length && from + count <= |pcm| && |pcm| > 0
    requires At(x + done, |pcm|, k, from)
    requires buffer[..] == Mixed(buffer0, pcm, volume, x, done)
    modifies buffer
    ensures buffer[..] == Mixed(buffer0, pcm, volume, x, done + count)
  {
    var out, end := done, done + count;
    while out < end
      invariant done <= out <= end
      invariant buffer[..] == Mixed(buffer0, pcm, volume, x, out)
    {
      MixOne(buffer0, pcm, volume, x, out);
      SampleAt(pcm, x, done, k, from, out);
      assert buffer[out] == buffer[..][out];
      buffer[out] := volume.mix(buffer[out], pcm[from + (out - done)]);
      out := out + 1;
    }
  }

  class Voice<F> {
    const pcm: seq<F>
    const repeat: bool
    var position: nat
    var active: bool

    ghost predicate Valid()
      reads this
    {
      |pcm| > 0 && position <= |pcm|
    }

    constructor (pcm: seq<F>, repeat: bool)
      requires |pcm| > 0
      ensures Valid() && active && position == 0 && this.pcm == pcm && this.repeat == repeat
    {
      this.pcm, this.repeat := pcm, repeat;
      position, active := 0, true;
    }

    /**
     * A repeated sound fills the buffer, one callback each time it starts over; one that is not repeated is
     * mixed in as far as it goes and ends only when more was asked for.
     */
    method Mix(buffer: array<F>, numFrames: nat, volume: Volume<F>) returns (repeats: nat, finished: bool)
      requires Valid() && 2 * numFrames <= buffer.Length && active
      modifies this, buffer
      ensures Valid() && active == !finished
      ensures repeat ==>
        && buffer[..] == Mixed(old(buffer[..]), pcm, volume, old(position), 2 * numFrames)
        && position == Position(old(position) + 2 * numFrames, |pcm|)
        && repeats == Repeats(old(position) + 2 * numFrames, |pcm|)
        && !finished
      ensures !repeat ==>
        && repeats == 0
        && finished == (2 * numFrames > |pcm| - old(position))
        && buffer[..] == Mixed(old(buffer[..]), pcm, volume, old(position),
                               if finished then |pcm| - old(position) else 2 * numFrames)
        && position == if finished then old(position) else old(position) + 2 * numFrames
    {
      hide Mixed, Sample, Position, Repeats;
      var bufFree, available := 2 * numFrames, |pcm| - position;
      ghost var x, buffer0 := position, buffer[..];
      var done := 0;
      repeats, finished := 0, false;
      NothingMixed(buffer0, pcm, volume, x);
      while available < bufFree
        invariant Valid() && active && !finished
        invariant available == |pcm| - position && done + bufFree == 2 * numFrames
        invariant At(x + done, |pcm|, repeats, position)
        invariant repeats > 0 ==> repeat && bufFree > 0
        invariant position == 0 || (position == x && repeats == 0)
        invariant repeats == 0 ==> position == x && done == 0
        invariant buffer[..] == Mixed(buffer0, pcm, volume, x, done)
        decreases bufFree, position
      {
        MixChunk(buffer, done, pcm, position, available, volume, x, repeats, buffer0);
        if !repeat {
          finished, active := true, false;
          return;
        }
        AtNext(x + done, |pcm|, repeats, position, x + done + available);
        done, repeats := done + available, repeats + 1;
        bufFree, available, position := bufFree - available, |pcm|, 0;
      }
      MixChunk(buffer, done, pcm, position, bufFree, volume, x, repeats, buffer0);
      position := position + bufFree;
      LandsAt(x + 2 * numFrames, |pcm|, repeats, position - bufFree, bufFree);
    }
  }

  lemma LandsAt(x: nat, n: nat, k: nat, from: nat, m: nat)
    requires x >= m && At(x - m, n, k, from) && 0 < n && from + m <= n && (k > 0 ==> from + m > 0)
    ensures Position(x, n) == from + m && Repeats(x, n) == k
  {
    if x > 0 && from + m > 0 {
      PositionIs(x, n, k, from + m);
    }
  }
}
