/** Reading CD sectors through the one-frame cache of libretro-common/cdrom/cdrom.c. */
module Cdrom {
  import opened Arith
  import opened Machine

  const SECTOR: nat := 2352
  /** 256 minutes. */
  const DISC_END: nat := 256 * 4500
  const MAX_RETRIES: nat := 10

  // -------------------------------------------------------------------------
  // Minute, second, frame

  /** An address as the command holds it, one byte each. */
  datatype Msf = Msf(min: nat, sec: nat, frame: nat)
  {
    predicate InBytes() {
      min < 256 && sec < 256 && frame < 256
    }

    /** cdrom_msf_to_lba */
    function Lba(): nat {
      (min * 60 + sec) * 75 + frame
    }

    /** increment_msf; the minute is an unsigned char. */
    function Next(): Msf {
      Msf(if frame == 74 then (if sec < 59 then min else if min == 255 then 0 else min + 1) else min,
          if frame == 74 then (if sec < 59 then sec + 1 else 0) else sec,
          if frame < 74 then frame + 1 else 0)
    }

    predicate Proper() {
      min < 256 && sec < 60 && frame < 75
    }
  }

  /** cdrom_lba_to_msf */
  function LbaToMsf(lba: nat): Msf {
    Msf(lba / 75 / 60 % 256, lba / 75 % 60, lba % 75)
  }

  /** Both conversions undo each other on proper addresses, that is below 256 minutes. */
  lemma MsfRoundTrip(lba: nat, msf: Msf)
    ensures LbaToMsf(lba).Proper() && (lba - LbaToMsf(lba).Lba()) % DISC_END == 0
    ensures lba < DISC_END ==> LbaToMsf(lba).Lba() == lba
    ensures msf.Proper() ==> LbaToMsf(msf.Lba()) == msf
  {
    if msf.Proper() {
      assert msf.Lba() / 75 == msf.min * 60 + msf.sec;
    }
  }

  /**
   * increment_msf steps to the next sector exactly if it does not start from an improper end of second or of the disc.
   */
  lemma NextIsSuccessor(msf: Msf)
    requires msf.InBytes()
    ensures msf.Next().Lba() == msf.Lba() + 1
       <==> msf.frame < 74 || (msf.frame == 74 && (msf.sec < 59 || (msf.sec == 59 && msf.min < 255)))
  {
  }

  /** Where it is not: a full minute starts the next one, the last one the first; an improper frame starts a second. */
  lemma NextElsewhere(msf: Msf)
    requires msf.InBytes() && msf.frame >= 74 && (msf.frame == 74 ==> msf.sec >= 59)
    ensures msf.Next() == if msf.frame == 74 then Msf((msf.min + 1) % 256, 0, 0) else Msf(msf.min, msf.sec, 0)
  {
  }

  /** The address of sector `lba`, counted up from 00:00:00. */
  ghost function MsfAt(lba: nat): Msf {
    if lba == 0 then Msf(0, 0, 0) else MsfAt(lba - 1).Next()
  }

  lemma {:induction false} MsfAtLba(lba: nat)
    requires lba < DISC_END
    ensures MsfAt(lba).Proper() && MsfAt(lba).Lba() == lba
  {
    if lba > 0 {
      MsfAtLba(lba - 1);
    }
  }

  lemma SameMsf(a: Msf, b: Msf)
    requires a.Proper() && b.Proper() && a.Lba() == b.Lba()
    ensures a == b
  {
    DivisionUnique(75, a.min * 60 + a.sec, a.frame, b.min * 60 + b.sec, b.frame);
    DivisionUnique(60, a.min, a.sec, b.min, b.sec);
  }

  lemma LbaMsfAt(msf: Msf)
    requires msf.Proper()
    ensures msf == MsfAt(msf.Lba())
  {
    MsfAtLba(msf.Lba());
    SameMsf(msf, MsfAt(msf.Lba()));
  }

  lemma Located(start: Msf, end: Msf, lba: nat)
    requires start == MsfAt(lba) && end == MsfAt(lba + 1) && lba + 1 < DISC_END
    ensures start.Lba() == lba && end.Lba() == lba + 1
  {
    MsfAtLba(lba);
    MsfAtLba(lba + 1);
  }

  /** increment_msf */
  method IncrementMsf(msf: Msf, ghost lba: nat) returns (next: Msf)
    requires msf == MsfAt(lba)
    ensures next == MsfAt(lba + 1)
  {
    next := msf.Next();
  }

  // -------------------------------------------------------------------------
  // The disc and the attempts to read it

  /** Byte `k` of sector `lba`. */
  datatype Disc = Disc(at: (nat, nat) -> u8)
  {
    function Sector(lba: nat): (s: seq<u8>)
      ensures |s| == 2352
      ensures forall k :: 0 <= k < 2352 ==> s[k] == at(lba, k)
    {
      seq(SECTOR, (k: nat) => at(lba, k))
    }
  }

  /** Byte `k` of the disc from sector `lba` on. */
  function ByteFrom(disc: Disc, lba: nat, k: nat): u8 {
    disc.at(lba + k / SECTOR, k % SECTOR)
  }

  /** The sectors at the offsets `got` from `lba`. */
  function Received(disc: Disc, lba: nat, got: seq<nat>): seq<u8> {
    if got == [] then [] else Received(disc, lba, got[..|got| - 1]) + disc.Sector(lba + got[|got| - 1])
  }

  lemma {:induction false} ReceivedLength(disc: Disc, lba: nat, got: seq<nat>)
    ensures |Received(disc, lba, got)| == SECTOR * |got|
  {
    if got != [] {
      ReceivedLength(disc, lba, got[..|got| - 1]);
    }
  }

  lemma ReceivedOneMore(disc: Disc, lba: nat, got: seq<nat>, i: nat)
    ensures Received(disc, lba, got + [i]) == Received(disc, lba, got) + disc.Sector(lba + i)
  {
    assert (got + [i])[..|got|] == got;
  }

  /** Frames received in order, out of the first `i`. */
  ghost predicate InOrder(got: seq<nat>, i: nat)
    ensures InOrder(got, i) ==> |got| <= i
    decreases |got|
  {
    got != [] ==> got[|got| - 1] < i && InOrder(got[..|got| - 1], got[|got| - 1])
  }

  /** A missing first frame leaves one frame fewer. */
  lemma {:induction false} FirstBound(got: seq<nat>, i: nat)
    requires InOrder(got, i) && got != []
    ensures got[0] + |got| <= i
    decreases |got|
  {
    if |got| > 1 {
      FirstBound(got[..|got| - 1], got[|got| - 1]);
    }
  }

  /** If all frames came, each is in its place. */
  lemma {:induction false} InPlace(got: seq<nat>, frames: nat, a: nat)
    requires InOrder(got, frames) && |got| == frames && a < frames
    ensures got[a] == a
    decreases frames
  {
    if a < frames - 1 {
      InPlace(got[..frames - 1], frames - 1, a);
    }
  }

  lemma OneMoreInOrder(got: seq<nat>, i: nat)
    requires InOrder(got, i)
    ensures InOrder(got, i + 1) && InOrder(got + [i], i + 1)
  {
    assert (got + [i])[..|got|] == got;
  }

  /** Each received byte is the one at its place in its sector. */
  lemma {:induction false} ReceivedAt(disc: Disc, lba: nat, got: seq<nat>, a: nat, k: nat)
    requires a < |got| && k < SECTOR
    ensures |Received(disc, lba, got)| == SECTOR * |got|
    ensures Received(disc, lba, got)[SECTOR * a + k] == disc.Sector(lba + got[a])[k]
  {
    ReceivedLength(disc, lba, got);
    ReceivedLength(disc, lba, got[..|got| - 1]);
    if a < |got| - 1 {
      ReceivedAt(disc, lba, got[..|got| - 1], a, k);
    }
  }

  /** What an attempt to transfer a frame ends with: success, or a sense key. */
  datatype Attempt = Success | Failure(key: nat)

  /** How the attempts of a command go, one after the other. */
  datatype Outcome = Outcome(of: nat -> Attempt)

  /** The sense keys after which a transfer is tried again. */
  predicate Retried(key: nat) {
    key == 0 || key == 2 || key == 3 || key == 4 || key == 6
  }

  /** Failures among the first `n` attempts. */
  function Failures(outcome: Outcome, n: nat): nat {
    if n == 0 then 0 else Failures(outcome, n - 1) + if outcome.of(n - 1) == Success then 0 else 1
  }

  datatype Tried = Tried(ok: bool, attempt: nat, retries: nat)

  /** What a transfer from attempt `attempt` on, with `retries` left, ends with. */
  function Try(outcome: Outcome, attempt: nat, retries: nat): Tried
    decreases retries
  {
    if outcome.of(attempt) == Success then Tried(true, attempt + 1, retries)
    else if !Retried(outcome.of(attempt).key) || retries == 0 then Tried(false, attempt + 1, retries)
    else Try(outcome, attempt + 1, retries - 1)
  }

  /** The frames received so far, the sector in the cache, if at least 0, and the attempts made and retries left. */
  datatype Tally = Tally(got: seq<nat>, cache: int, attempt: nat, retries: nat)

  /** Frame `i`, at sector `lba`, is served from the cache, which gives it up, or by the drive. */
  function Serve(outcome: Outcome, lba: nat, i: nat, t: Tally): Tally {
    if t.cache == lba then Tally(t.got + [i], -1, t.attempt, t.retries)
    else
      var tried := Try(outcome, t.attempt, t.retries);
      if tried.ok then Tally(t.got + [i], lba, tried.attempt, tried.retries)
      else Tally(t.got, t.cache, tried.attempt, tried.retries)
  }

  /** A command after `i` frames from sector `lba` on. */
  function After(outcome: Outcome, cache: int, lba: nat, i: nat): Tally {
    if i == 0 then Tally([], cache, 0, MAX_RETRIES)
    else Serve(outcome, lba + i - 1, i - 1, After(outcome, cache, lba, i - 1))
  }

  lemma AfterOneMore(outcome: Outcome, cache: int, lba: nat, i: nat, t: Tally, frame: nat)
    requires t == After(outcome, cache, lba, i) && frame == lba + i
    ensures After(outcome, cache, lba, i + 1) == Serve(outcome, frame, i, t)
  {
  }

  /** A first frame that fails for good, before a second one that arrives. */
  lemma SuccessWithoutFirstFrame(outcome: Outcome)
    requires outcome.of(0) == Failure(5) && outcome.of(1) == Success
    ensures After(outcome, -1, 0, 2).got == [1] && InOrder([1], 2) && LastReceived([1], 2)
  {
    assert Try(outcome, 0, MAX_RETRIES) == Tried(false, 1, MAX_RETRIES);
    assert Try(outcome, 1, MAX_RETRIES) == Tried(true, 2, MAX_RETRIES);
    assert After(outcome, -1, 0, 0) == Tally([], -1, 0, MAX_RETRIES);
    assert After(outcome, -1, 0, 1) == Tally([], -1, 1, MAX_RETRIES);
  }

  /** The retry loop: tries until a transfer succeeds, fails for good, or finds no retry left. */
  method Transfer(outcome: Outcome, attempt0: nat, retries0: nat) returns (ok: bool, attempt: nat, retries: nat)
    ensures Tried(ok, attempt, retries) == Try(outcome, attempt0, retries0)
  {
    attempt, retries := attempt0, retries0;
    while true
      invariant Try(outcome, attempt, retries) == Try(outcome, attempt0, retries0)
      decreases retries
    {
      var result := outcome.of(attempt);
      attempt := attempt + 1;
      if result == Success {
        return true, attempt, retries;
      }
      if !Retried(result.key) || retries == 0 {
        return false, attempt, retries;
      }
      retries := retries - 1;
    }
  }

  // -------------------------------------------------------------------------
  // Which attempts get every frame

  /**
   * The first `t` attempts stay within what a command retries: their failures are of a retried kind, and few enough.
   */
  ghost predicate Tolerable(outcome: Outcome, t: nat) {
    && Failures(outcome, t) <= 10
    && forall k :: 0 <= k < t && outcome.of(k) != Success ==> IsPassing(outcome.of(k).key)
  }

  /** The sense keys NO SENSE, NOT READY, MEDIUM ERROR, HARDWARE ERROR and UNIT ATTENTION of SCSI. */
  predicate IsPassing(key: nat) {
    key in {0x0, 0x2, 0x3, 0x4, 0x6}
  }

  /** The `n`-th success comes after tolerable attempts. */
  ghost predicate Arrives(outcome: Outcome, n: nat) {
    exists t: nat :: t - Failures(outcome, t) == n && Tolerable(outcome, t)
  }

  /** The transfers a command needs for `frames` frames: one less if the cache has the first one. */
  function Transfers(cache: int, lba: nat, frames: nat): nat {
    if frames > 0 && cache == lba then frames - 1 else frames
  }

  lemma {:induction false} FailuresGrow(outcome: Outcome, s: nat, t: nat)
    requires s <= t
    ensures Failures(outcome, s) <= Failures(outcome, t) <= Failures(outcome, s) + (t - s)
    decreases t
  {
    if s < t {
      FailuresGrow(outcome, s, t - 1);
    }
  }

  /** With a success still to come, a transfer finds it. */
  lemma {:induction false} TryFinds(outcome: Outcome, attempt: nat, retries: nat, t: nat)
    requires retries + Failures(outcome, attempt) == MAX_RETRIES && Tolerable(outcome, t)
    requires attempt < t && attempt - Failures(outcome, attempt) < t - Failures(outcome, t)
    ensures var tried := Try(outcome, attempt, retries);
      && tried.ok && attempt < tried.attempt <= t
      && tried.retries + Failures(outcome, tried.attempt) == MAX_RETRIES
      && tried.attempt - Failures(outcome, tried.attempt) == attempt - Failures(outcome, attempt) + 1
    decreases t - attempt
  {
    if outcome.of(attempt) != Success {
      FailuresGrow(outcome, attempt + 1, t);
      TryFinds(outcome, attempt + 1, retries - 1, t);
    }
  }

  /** A transfer that succeeds made tolerable attempts, and one success more. */
  lemma {:induction false} TryFound(outcome: Outcome, attempt: nat, retries: nat)
    requires retries + Failures(outcome, attempt) == MAX_RETRIES && Tolerable(outcome, attempt)
    ensures var tried := Try(outcome, attempt, retries);
      tried.ok ==>
        && tried.retries + Failures(outcome, tried.attempt) == MAX_RETRIES && Tolerable(outcome, tried.attempt)
        && tried.attempt - Failures(outcome, tried.attempt) == attempt - Failures(outcome, attempt) + 1
    decreases retries
  {
    if outcome.of(attempt) != Success && Retried(outcome.of(attempt).key) && retries > 0 {
      TryFound(outcome, attempt + 1, retries - 1);
    }
  }

  /** The cache after `i` frames that were all received. */
  function CacheThen(cache: int, lba: nat, i: nat): int {
    if i == 0 then cache else if i == 1 && cache == lba then -1 else lba + i - 1
  }

  /** A tally with nothing missing. */
  ghost predicate Complete(outcome: Outcome, cache: int, lba: nat, i: nat, t: Tally) {
    && |t.got| == i && t.cache == CacheThen(cache, lba, i)
    && t.retries + Failures(outcome, t.attempt) == MAX_RETRIES && Tolerable(outcome, t.attempt)
    && t.attempt - Failures(outcome, t.attempt) == Transfers(cache, lba, i)
  }

  lemma {:induction false} AfterLength(outcome: Outcome, cache: int, lba: nat, i: nat)
    ensures |After(outcome, cache, lba, i).got| <= i
  {
    if i > 0 {
      AfterLength(outcome, cache, lba, i - 1);
    }
  }

  /** All frames received: then every attempt was tolerable. */
  lemma {:induction false} AllReceived(outcome: Outcome, cache: int, lba: nat, i: nat)
    requires |After(outcome, cache, lba, i).got| == i
    ensures Complete(outcome, cache, lba, i, After(outcome, cache, lba, i))
  {
    if i > 0 {
      var t := After(outcome, cache, lba, i - 1);
      AfterLength(outcome, cache, lba, i - 1);
      AllReceived(outcome, cache, lba, i - 1);
      TryFound(outcome, t.attempt, t.retries);
    }
  }

  /** Tolerable attempts up to the last success needed: then all frames are received. */
  lemma {:induction false} AllArrive(outcome: Outcome, cache: int, lba: nat, i: nat, t: nat)
    requires t - Failures(outcome, t) >= Transfers(cache, lba, i) && Tolerable(outcome, t)
    ensures Complete(outcome, cache, lba, i, After(outcome, cache, lba, i))
    decreases i
  {
    if i > 0 {
      AllArrive(outcome, cache, lba, i - 1, t);
      var before := After(outcome, cache, lba, i - 1);
      if before.cache != lba + i - 1 {
        StillToCome(outcome, before.attempt, t);
        TryFinds(outcome, before.attempt, before.retries, t);
        TryFound(outcome, before.attempt, before.retries);
      }
    }
  }

  lemma StillToCome(outcome: Outcome, attempt: nat, t: nat)
    requires attempt - Failures(outcome, attempt) < t - Failures(outcome, t)
    ensures attempt < t
  {
    if t <= attempt {
      FailuresGrow(outcome, t, attempt);
    }
  }

  /**
   * A command receives all its frames exactly if, up to the last success it needs, every failure is of a retried kind
   * and there are at most as many as it may retry.
   */
  lemma ReceivesAllExactly(outcome: Outcome, cache: int, lba: nat, frames: nat)
    ensures |After(outcome, cache, lba, frames).got| == frames <==> Arrives(outcome, Transfers(cache, lba, frames))
  {
    if |After(outcome, cache, lba, frames).got| == frames {
      AllReceived(outcome, cache, lba, frames);
    }
    if t: nat :| t - Failures(outcome, t) == Transfers(cache, lba, frames) && Tolerable(outcome, t) {
      AllArrive(outcome, cache, lba, frames, t);
    }
  }

  // -------------------------------------------------------------------------
  // Assembling a read

  method Memcpy(dst: array<u8>, d: nat, src: array<u8>, s: nat, n: nat)
    requires dst != src && d + n <= dst.Length && s + n <= src.Length
    modifies dst
    ensures dst[..] == old(dst[..])[..d] + src[..][s..s + n] + old(dst[..])[d + n..]
  {
    forall k | 0 <= k < n {
      dst[d + k] := src[s + k];
    }
  }

  /** `after` is `before` with `data` stored at `pos`. */
  ghost predicate Stored(before: seq<u8>, after: seq<u8>, pos: nat, data: seq<u8>) {
    && pos + |data| <= |before| == |after|
    && after[..pos] == before[..pos] && after[pos + |data|..] == before[pos + |data|..]
    && after[pos..pos + |data|] == data
  }

  function Zeros(n: nat): (z: seq<u8>)
    ensures |z| == n
    ensures forall k :: 0 <= k < n ==> z[k] == 0
  {
    if n == 0 then [] else Zeros(n - 1) + [0]
  }

  /** The transfer buffer: the received frames, then zeros. */
  function Padded(disc: Disc, lba: nat, got: seq<nat>, frames: nat): seq<u8>
    requires |got| <= frames
  {
    Received(disc, lba, got) + Zeros(SECTOR * (frames - |got|))
  }

  /** The bytes skipped at the front: none are if the first frame is missing. */
  function Lead(got: seq<nat>, skip: nat): nat {
    if got != [] && got[0] == 0 then skip else 0
  }

  /** Frames of a request. */
  function Frames(len: nat, skip: nat): nat {
    (len + skip + SECTOR - 1) / SECTOR
  }

  lemma FramesFit(len: nat, skip: nat)
    ensures len + skip <= SECTOR * Frames(len, skip)
    ensures Frames(len, skip) > 0 ==> SECTOR * (Frames(len, skip) - 1) < len + skip
  {
  }

  /** The last frame of a request was received. */
  predicate LastReceived(got: seq<nat>, frames: nat) {
    got != [] && got[|got| - 1] + 1 == frames
  }

  /** Bytes delivered once the frames `got` were received. */
  function Copied(got: seq<nat>, frames: nat, len: nat, skip: nat): int {
    if LastReceived(got, frames) then len else SECTOR * |got| - Lead(got, skip)
  }

  /** The first `copied` bytes of the caller's buffer come from the transfer buffer, the others are its own. */
  ghost predicate CopiedFrom(xfer: seq<u8>, lead: nat, copied: nat, buf: seq<u8>, buf0: seq<u8>) {
    && copied <= |buf0| && lead + copied <= |xfer|
    && buf == xfer[lead..lead + copied] + buf0[copied..]
  }

  /**
   * What a request leaves in the caller's buffer: the received sectors, closed up and without the bytes to skip.
   * Zeros make up for frames missing before a last frame that arrived; without it the rest is left alone.
   */
  ghost predicate Delivered(disc: Disc, lba: nat, got: seq<nat>, frames: nat, skip: nat, buf: seq<u8>, buf0: seq<u8>) {
    && InOrder(got, frames)
    && Copied(got, frames, |buf0|, skip) >= 0
    && CopiedFrom(Padded(disc, lba, got, frames), Lead(got, skip), Copied(got, frames, |buf0|, skip), buf, buf0)
  }

  /** The bytes to copy from frame `i`. */
  function CopyLen(i: nat, frames: nat, len: nat, skip: nat, copied: int): int {
    if i + 1 == frames then len - copied else if i == 0 then SECTOR - skip else SECTOR
  }

  lemma PaddedOneMore(disc: Disc, lba: nat, got: seq<nat>, i: nat, frames: nat, xfer: seq<u8>, xfer': seq<u8>, pos: nat)
    requires |got| < frames && xfer == Padded(disc, lba, got, frames)
    requires pos == SECTOR * |got| && Stored(xfer, xfer', pos, disc.Sector(lba + i))
    ensures xfer' == Padded(disc, lba, got + [i], frames)
  {
    ReceivedLength(disc, lba, got);
    ReceivedOneMore(disc, lba, got, i);
    assert xfer' == xfer'[..pos] + xfer'[pos..pos + SECTOR] + xfer'[pos + SECTOR..];
    assert xfer[..pos] == Received(disc, lba, got);
    assert xfer[pos + SECTOR..] == Zeros(SECTOR * (frames - |got| - 1));
  }

  lemma LeadBound(got: seq<nat>, i: nat, skip: nat)
    requires InOrder(got, i) && skip < SECTOR
    ensures 0 <= SECTOR * |got| - Lead(got, skip)
    ensures SECTOR * |got| - Lead(got, skip) <= SECTOR * i - if i == 0 then 0 else skip
    ensures |got| > 0 ==> got[|got| - 1] < i
  {
    if got != [] {
      FirstBound(got, i);
    }
  }

  lemma LeadOneMore(got: seq<nat>, i: nat, skip: nat)
    requires InOrder(got, i)
    ensures InOrder(got, i + 1) && InOrder(got + [i], i + 1)
    ensures got == [] ==> Lead(got + [i], skip) == if i == 0 then skip else 0
    ensures got != [] ==> i > 0 && Lead(got + [i], skip) == Lead(got, skip)
    ensures (got + [i])[|got|] == i
  {
    OneMoreInOrder(got, i);
    if got != [] {
      assert (got + [i])[0] == got[0];
      FirstBound(got, i);
    }
  }

  /** Where frame `i` is copied to and from stays inside both buffers. */
  lemma CopyFits(got: seq<nat>, i: nat, frames: nat, len: nat, skip: nat)
    requires InOrder(got, i) && i < frames && skip < SECTOR
    requires SECTOR * (frames - 1) < len + skip <= SECTOR * frames
    ensures var copied := Copied(got, frames, len, skip);
            var copyLen := CopyLen(i, frames, len, skip, copied);
            && copied == SECTOR * |got| - Lead(got, skip)
            && 0 <= copied && 0 <= copyLen && copied + copyLen <= len
            && copied + copyLen == Copied(got + [i], frames, len, skip)
            && Lead(got + [i], skip) + copied == SECTOR * |got| + (if i == 0 then skip else 0)
            && Lead(got + [i], skip) + copied + copyLen <= SECTOR * frames
  {
    LeadBound(got, i, skip);
    LeadOneMore(got, i, skip);
  }

  lemma SamePart(a: seq<u8>, b: seq<u8>, pos: nat, lo: nat, hi: nat)
    requires pos <= |a| && pos <= |b| && a[..pos] == b[..pos] && lo <= hi <= pos
    ensures a[lo..hi] == b[lo..hi]
  {
    assert a[lo..hi] == a[..pos][lo..hi];
    assert b[lo..hi] == b[..pos][lo..hi];
  }

  lemma Joined(a: seq<u8>, lo: nat, mid: nat, hi: nat)
    requires lo <= mid <= hi <= |a|
    ensures a[lo..mid] + a[mid..hi] == a[lo..hi]
  {
  }

  lemma Parts(a: seq<u8>, b: seq<u8>, buf: seq<u8>, n: nat)
    requires |a| <= n <= |b| && buf == a + b[|a|..]
    ensures |buf| == |b| && buf[..|a|] == a && buf[n..] == b[n..]
  {
  }

  /** Copying the bytes behind those copied before. */
  lemma Spliced(xfer: seq<u8>, xfer': seq<u8>, buf: seq<u8>, buf': seq<u8>, buf0: seq<u8>,
                lead: nat, lead': nat, pos: nat, copied: nat, s: nat, copyLen: nat)
    requires CopiedFrom(xfer, lead, copied, buf, buf0)
    requires copied + copyLen <= |buf0| && s + copyLen <= |xfer'| && s == lead' + copied
    requires copied > 0 ==> lead' == lead && lead + copied <= pos
    requires pos <= |xfer| && pos <= |xfer'| && xfer'[..pos] == xfer[..pos]
    requires buf' == buf[..copied] + xfer'[s..s + copyLen] + buf[copied + copyLen..]
    ensures CopiedFrom(xfer', lead', copied + copyLen, buf', buf0)
  {
    Parts(xfer[lead..lead + copied], buf0, buf, copied + copyLen);
    if copied > 0 {
      SamePart(xfer, xfer', pos, lead, lead + copied);
    }
    assert buf[..copied] == xfer'[lead'..lead' + copied];
    Joined(xfer', lead', s, s + copyLen);
  }

  /**
   * A READ CD MSF of `frames` frames from sector `lba` on, without the first `skip` bytes, on a drive as `outcome`
   * tells.
   */
  datatype Request = Request(disc: Disc, outcome: Outcome, lba: nat, frames: nat, skip: nat)

  /** Where the frame loop stands. */
  datatype Cursor = Cursor(start: Msf, end: Msf, skip: nat, pos: nat, copied: nat, attempt: nat, retries: nat)

  /** What both buffers hold after `i` of the frames were asked for. */
  ghost predicate Assembled(req: Request, got: seq<nat>, i: nat, xfer: seq<u8>, buf: seq<u8>, buf0: seq<u8>, pos: nat,
                            copied: nat) {
    && InOrder(got, i) && i <= req.frames
    && |xfer| == SECTOR * req.frames && xfer == Padded(req.disc, req.lba, got, req.frames)
    && CopiedFrom(xfer, Lead(got, req.skip), copied, buf, buf0)
    && pos == SECTOR * |got| && copied == Copied(got, req.frames, |buf0|, req.skip)
  }

  /** With no frame missing the request delivers the bytes of the disc. */
  lemma NoneMissing(disc: Disc, lba: nat, got: seq<nat>, frames: nat, skip: nat, buf: seq<u8>, buf0: seq<u8>, k: nat)
    requires Delivered(disc, lba, got, frames, skip, buf, buf0) && |got| == frames && k < |buf|
    requires SECTOR * (frames - 1) < |buf0| + skip <= SECTOR * frames
    ensures buf[k] == ByteFrom(disc, lba, skip + k)
  {
    var a := (skip + k) / SECTOR;
    InPlace(got, frames, a);
    InPlace(got, frames, 0);
    InPlace(got, frames, frames - 1);
    ReceivedAt(disc, lba, got, a, (skip + k) % SECTOR);
  }

  lemma AllRight(disc: Disc, lba: nat, got: seq<nat>, skip: nat, buf: seq<u8>, buf0: seq<u8>)
    requires Delivered(disc, lba, got, Frames(|buf0|, skip), skip, buf, buf0) && |got| == Frames(|buf0|, skip)
             && skip < SECTOR
    ensures got == [] || LastReceived(got, |got|)
    ensures forall k: nat :: k < |buf| ==> buf[k] == ByteFrom(disc, lba, skip + k)
  {
    var frames := |got|;
    FramesFit(|buf0|, skip);
    if frames > 0 {
      InPlace(got, frames, frames - 1);
    }
    forall k: nat | k < |buf|
      ensures buf[k] == ByteFrom(disc, lba, skip + k)
    {
      LeadBound(got, frames, skip);
      NoneMissing(disc, lba, got, frames, skip, buf, buf0, k);
    }
  }

  /** A disc with all ones in sector `lba` and all twos elsewhere. */
  function Marked(lba: nat): Disc {
    Disc((l, _) => if l == lba then 1 else 2)
  }

  /** A missing frame shows on some disc even if the last frame arrived and the command reports success. */
  lemma MissingShows(lba: nat, got: seq<nat>, frames: nat, len: nat, skip: nat)
    returns (buf: seq<u8>, buf0: seq<u8>, k: nat)
    requires InOrder(got, frames) && LastReceived(got, frames) && |got| < frames && skip < SECTOR
    requires SECTOR * (frames - 1) < len + skip <= SECTOR * frames
    ensures |buf0| == len && k < |buf|
    ensures Delivered(Marked(lba), lba, got, frames, skip, buf, buf0) && buf[k] != ByteFrom(Marked(lba), lba, skip + k)
  {
    var disc := Marked(lba);
    buf0 := Zeros(len);
    ReceivedLength(disc, lba, got);
    LeadBound(got, frames, skip);
    var xfer, lead := Padded(disc, lba, got, frames), Lead(got, skip);
    buf := xfer[lead..lead + len] + buf0[len..];
    if got[0] == 0 {
      k := len - 1;
      assert xfer[skip + k] == Zeros(SECTOR * (frames - |got|))[skip + k - SECTOR * |got|];
    } else {
      k := 0;
      ReceivedAt(disc, lba, got, 0, 0);
    }
  }

  /** The delivered bytes are those of the disc, whatever the disc holds. */
  ghost predicate AlwaysRight(lba: nat, got: seq<nat>, frames: nat, len: nat, skip: nat) {
    forall disc, buf0, buf, k: nat |
      |buf0| == len && Delivered(disc, lba, got, frames, skip, buf, buf0) && k < |buf| ::
      buf[k] == ByteFrom(disc, lba, skip + k)
  }

  lemma RightOfFrames(lba: nat, got: seq<nat>, len: nat, skip: nat)
    requires skip < SECTOR && Frames(len, skip) > 0
    requires InOrder(got, Frames(len, skip)) && LastReceived(got, Frames(len, skip))
    ensures AlwaysRight(lba, got, Frames(len, skip), len, skip) <==> |got| == Frames(len, skip)
  {
    var frames := Frames(len, skip);
    FramesFit(len, skip);
    if |got| < frames {
      var buf, buf0, k := MissingShows(lba, got, frames, len, skip);
    } else {
      forall disc, buf0, buf, k: nat |
        |buf0| == len && Delivered(disc, lba, got, frames, skip, buf, buf0) && k < |buf|
        ensures buf[k] == ByteFrom(disc, lba, skip + k)
      {
        NoneMissing(disc, lba, got, frames, skip, buf, buf0, k);
      }
    }
  }

  lemma ServeInOrder(outcome: Outcome, lba: nat, i: nat, t: Tally)
    requires InOrder(t.got, i)
    ensures InOrder(Serve(outcome, lba, i, t).got, i + 1)
  {
    OneMoreInOrder(t.got, i);
  }

  lemma {:induction false} AfterInOrder(outcome: Outcome, cache: int, lba: nat, i: nat)
    ensures InOrder(After(outcome, cache, lba, i).got, i)
  {
    if i > 0 {
      AfterInOrder(outcome, cache, lba, i - 1);
      ServeInOrder(outcome, lba + i - 1, i - 1, After(outcome, cache, lba, i - 1));
    }
  }

  /**
   * A request reports success and delivers the bytes of the disc, whatever the disc holds, exactly if every failure up
   * to the last success it needs is of a retried kind and there are at most ten of them.
   */
  lemma RightExactly(outcome: Outcome, cache: int, lba: nat, len: nat, skip: nat)
    requires skip < SECTOR && Frames(len, skip) > 0
    ensures var frames := Frames(len, skip);
      var got := After(outcome, cache, lba, frames).got;
      LastReceived(got, frames) && AlwaysRight(lba, got, frames, len, skip)
      <==> Arrives(outcome, Transfers(cache, lba, frames))
  {
    var frames := Frames(len, skip);
    var got := After(outcome, cache, lba, frames).got;
    AfterInOrder(outcome, cache, lba, frames);
    ReceivesAllExactly(outcome, cache, lba, frames);
    if |got| == frames {
      InPlace(got, frames, frames - 1);
    }
    if LastReceived(got, frames) {
      RightOfFrames(lba, got, len, skip);
    }
  }

  /** The addresses before frame `i`. */
  ghost predicate Placed(req: Request, i: nat, start: Msf, end: Msf, skip: nat) {
    && end == MsfAt(req.lba + i)
    && start == MsfAt(if i == 0 then req.lba else req.lba + (i - 1))
    && (i == 0 ==> skip == req.skip)
  }

  /** The whole state before frame `i`, with sector `cache` cached now and `cache0` at the start. */
  ghost predicate InProgress(req: Request, got: seq<nat>, i: nat, xfer: seq<u8>, buf: seq<u8>, buf0: seq<u8>, c: Cursor,
                             cache0: int, cache: int) {
    && Assembled(req, got, i, xfer, buf, buf0, c.pos, c.copied)
    && Placed(req, i, c.start, c.end, c.skip)
    && Tally(got, cache, c.attempt, c.retries) == After(req.outcome, cache0, req.lba, i)
  }

  lemma Begin(req: Request, xfer: seq<u8>, buf: seq<u8>, c: Cursor, cache0: int)
    requires xfer == Zeros(SECTOR * req.frames) && c.start == c.end == MsfAt(req.lba) && c.skip == req.skip
    requires c.pos == c.copied == c.attempt == 0 && c.retries == MAX_RETRIES
    ensures InProgress(req, [], 0, xfer, buf, buf, c, cache0, cache0)
  {
  }

  lemma Done(req: Request, got: seq<nat>, xfer: seq<u8>, buf: seq<u8>, buf0: seq<u8>, c: Cursor, cache0: int,
             cache: int)
    requires InProgress(req, got, req.frames, xfer, buf, buf0, c, cache0, cache)
    ensures Delivered(req.disc, req.lba, got, req.frames, req.skip, buf, buf0)
    ensures got == After(req.outcome, cache0, req.lba, req.frames).got
  {
  }

  lemma AssembledOneMore(req: Request, got: seq<nat>, i: nat, xfer: seq<u8>, xfer': seq<u8>, buf: seq<u8>,
                         buf0: seq<u8>,
                         pos: nat, copied: nat)
    requires InOrder(got, i) && i < req.frames
    requires pos == SECTOR * |got| && |xfer| == SECTOR * req.frames
    requires xfer == Padded(req.disc, req.lba, got, req.frames)
    requires Stored(xfer, xfer', pos, req.disc.Sector(req.lba + i))
    requires CopiedFrom(xfer', Lead(got + [i], req.skip), copied, buf, buf0)
    requires copied == Copied(got + [i], req.frames, |buf0|, req.skip)
    ensures Assembled(req, got + [i], i + 1, xfer', buf, buf0, pos + SECTOR, copied)
    ensures LastReceived(got + [i], i + 1)
  {
    PaddedOneMore(req.disc, req.lba, got, i, req.frames, xfer, xfer', pos);
    LeadOneMore(got, i, req.skip);
  }

  lemma AssembledNoMore(req: Request, got: seq<nat>, i: nat, xfer: seq<u8>, buf: seq<u8>, buf0: seq<u8>,
                        pos: nat, copied: nat)
    requires Assembled(req, got, i, xfer, buf, buf0, pos, copied) && i < req.frames
    ensures Assembled(req, got, i + 1, xfer, buf, buf0, pos, copied) && !LastReceived(got, i + 1)
  {
    LeadOneMore(got, i, req.skip);
    LeadBound(got, i, 0);
  }

  /** The cursor behind a frame that was asked for. */
  function Advanced(c: Cursor, tried: Tried, copyLen: nat): Cursor {
    if tried.ok
    then c.(attempt := tried.attempt, retries := tried.retries, copied := c.copied + copyLen, pos := c.pos + SECTOR)
    else c.(attempt := tried.attempt, retries := tried.retries)
  }

  lemma FrameAssembled(req: Request, got: seq<nat>, i: nat, xfer: seq<u8>, xfer': seq<u8>, buf: seq<u8>, buf': seq<u8>,
                       buf0: seq<u8>, c: Cursor, copyLen: nat, tried: Tried)
    requires Assembled(req, got, i, xfer, buf, buf0, c.pos, c.copied) && i < req.frames
    requires if tried.ok then Stored(xfer, xfer', c.pos, req.disc.Sector(req.lba + i)) else xfer' == xfer && buf' == buf
    requires tried.ok ==> CopiedFrom(xfer', Lead(got + [i], req.skip), c.copied + copyLen, buf', buf0)
    requires c.copied + copyLen == Copied(got + [i], req.frames, |buf0|, req.skip)
    ensures var got', c' := if tried.ok then got + [i] else got, Advanced(c, tried, copyLen);
      Assembled(req, got', i + 1, xfer', buf', buf0, c'.pos, c'.copied) && (tried.ok <==> LastReceived(got', i + 1))
  {
    if tried.ok {
      AssembledOneMore(req, got, i, xfer, xfer', buf', buf0, c.pos, c.copied + copyLen);
    } else {
      AssembledNoMore(req, got, i, xfer, buf, buf0, c.pos, c.copied);
    }
  }

  /** Where frame `i` is copied to and from lies inside both buffers, behind what was copied before. */
  ghost predicate Fits(req: Request, got: seq<nat>, i: nat, len: nat, pos: nat, copied: nat, skip: nat,
                       copyLen: int) {
    && 0 <= copyLen && copied + copyLen <= len && copied + copyLen == Copied(got + [i], req.frames, len, req.skip)
    && pos + SECTOR <= SECTOR * req.frames && pos + skip + copyLen <= SECTOR * req.frames
    && Lead(got + [i], req.skip) + copied == pos + skip
    && (copied > 0 ==> Lead(got + [i], req.skip) == Lead(got, req.skip) && Lead(got, req.skip) + copied <= pos)
  }

  lemma RoundFits(req: Request, got: seq<nat>, i: nat, xfer: seq<u8>, buf: seq<u8>, buf0: seq<u8>, c: Cursor)
    requires Assembled(req, got, i, xfer, buf, buf0, c.pos, c.copied) && i < req.frames && req.skip < SECTOR
    requires SECTOR * (req.frames - 1) < |buf0| + req.skip <= SECTOR * req.frames
    ensures c.copied <= |buf0|
    ensures Fits(req, got, i, |buf0|, c.pos, c.copied, if i == 0 then req.skip else 0,
                 CopyLen(i, req.frames, |buf0|, req.skip, c.copied))
  {
    CopyFits(got, i, req.frames, |buf0|, req.skip);
    LeadOneMore(got, i, req.skip);
  }

  /** The counts after a frame that was found in the cache, or asked for. */
  lemma Served(outcome: Outcome, lba: nat, i: nat, before: Tally, tried: Tried, cached: bool, cache: int)
    requires cached <==> before.cache == lba
    requires tried == if cached then Tried(true, before.attempt, before.retries)
                      else Try(outcome, before.attempt, before.retries)
    requires cache == if !tried.ok then before.cache else if cached then -1 else lba
    ensures Tally(if tried.ok then before.got + [i] else before.got, cache, tried.attempt, tried.retries)
         == Serve(outcome, lba, i, before)
  {
  }

  /** The head of the frame loop: where frame `i` lies and how much of it to copy to a buffer of `len` bytes. */
  method PlanFrame(req: Request, i: nat, len: nat, c: Cursor) returns (c': Cursor, copyLen: nat)
    requires Placed(req, i, c.start, c.end, c.skip) && i < req.frames && req.skip < SECTOR && c.copied <= len
    ensures Placed(req, i + 1, c'.start, c'.end, c'.skip)
    ensures c'.start == MsfAt(req.lba + i) && c'.end == MsfAt(req.lba + i + 1)
    ensures c' == c.(start := c'.start, end := c'.end, skip := if i == 0 then req.skip else 0)
    ensures copyLen == CopyLen(i, req.frames, len, req.skip, c.copied)
  {
    copyLen := SECTOR;
    var end := IncrementMsf(c.end, req.lba + i);
    if i > 0 {
      var start := IncrementMsf(c.start, req.lba + (i - 1));
      c' := c.(start := start, end := end, skip := 0);
    } else {
      c' := c.(end := end);
      copyLen := copyLen - c.skip;
    }
    if i == req.frames - 1 {
      copyLen := len - c.copied;
    }
  }

  /** Copies what was just received to the caller. */
  method CopyOut(buf: array<u8>, xfer: array<u8>, c: Cursor, copyLen: nat,
                 ghost xferBefore: seq<u8>, ghost lead: nat, ghost lead': nat, ghost buf0: seq<u8>)
    requires buf != xfer && c.pos + c.skip + copyLen <= xfer.Length && c.copied + copyLen <= buf.Length == |buf0|
    requires c.pos <= xfer.Length == |xferBefore| && xfer[..][..c.pos] == xferBefore[..c.pos]
    requires CopiedFrom(xferBefore, lead, c.copied, buf[..], buf0)
    requires lead' + c.copied == c.pos + c.skip && (c.copied > 0 ==> lead' == lead && lead + c.copied <= c.pos)
    modifies buf
    ensures CopiedFrom(xfer[..], lead', c.copied + copyLen, buf[..], buf0)
  {
    hide CopiedFrom;
    ghost var bufBefore := buf[..];
    Memcpy(buf, c.copied, xfer, c.pos + c.skip, copyLen);
    Spliced(xferBefore, xfer[..], bufBefore, buf[..], buf0, lead, lead', c.pos, c.copied, c.pos + c.skip, copyLen);
  }

  /** Stores `data` at `pos`. */
  method Store(xfer: array<u8>, pos: nat, data: seq<u8>)
    requires pos + |data| <= xfer.Length
    modifies xfer
    ensures Stored(old(xfer[..]), xfer[..], pos, data)
  {
    forall k | 0 <= k < |data| {
      xfer[pos + k] := data[k];
    }
  }

  class Drive {
    var lastFrame: seq<u8>
    var lastFrameLba: int
    var lastFrameValid: bool

    /** A valid cached frame is the sector it is kept for. */
    ghost predicate Coherent(disc: Disc)
      reads this
    {
      lastFrameValid ==> lastFrameLba >= 0 && lastFrame == disc.Sector(lastFrameLba)
    }

    /** The cached sector, or -1. */
    function CacheLba(): int
      reads this
    {
      if lastFrameValid then lastFrameLba else -1
    }

    constructor ()
      ensures !lastFrameValid
    {
      lastFrame, lastFrameLba, lastFrameValid := [], 0, false;
    }

    /** Gets one frame into the transfer buffer, from the cache or from the disc. */
    method FetchFrame(req: Request, c: Cursor, xfer: array<u8>) returns (tried: Tried, cached: bool)
      requires Coherent(req.disc) && c.pos + SECTOR <= xfer.Length
      modifies xfer
      ensures if tried.ok then Stored(old(xfer[..]), xfer[..], c.pos, req.disc.Sector(c.start.Lba()))
              else xfer[..] == old(xfer[..])
      ensures cached <==> CacheLba() == c.start.Lba()
      ensures tried == if cached then Tried(true, c.attempt, c.retries) else Try(req.outcome, c.attempt, c.retries)
    {
      cached := lastFrameValid && c.start.Lba() == lastFrameLba;
      tried := Tried(true, c.attempt, c.retries);
      if !cached {
        var ok, attempt, retries := Transfer(req.outcome, c.attempt, c.retries);
        tried := Tried(ok, attempt, retries);
      }
      if tried.ok {
        Store(xfer, c.pos, if cached then lastFrame else req.disc.Sector(c.start.Lba()));
      }
    }

    /** Remembers the frame before `end` unless it came from the cache, which is then given up. */
    method KeepFrame(disc: Disc, end: Msf, xfer: array<u8>, pos: nat, cached: bool)
      requires pos + SECTOR <= xfer.Length && end.Lba() > 0
      requires xfer[..][pos..pos + SECTOR] == disc.Sector(end.Lba() - 1)
      modifies this
      ensures Coherent(disc)
      ensures CacheLba() == if cached then -1 else end.Lba() - 1
    {
      if !cached {
        lastFrame, lastFrameValid, lastFrameLba := xfer[..][pos..pos + SECTOR], true, end.Lba() - 1;
      } else {
        lastFrameValid := false;
      }
    }

    /** The transfer of frame `i` and the copy of `copyLen` bytes to the caller. */
    method ReadFrame(req: Request, buf: array<u8>, xfer: array<u8>, c: Cursor, copyLen: nat,
                     ghost buf0: seq<u8>, ghost lead: nat, ghost lead': nat) returns (tried: Tried, ghost cached: bool)
      requires Coherent(req.disc) && buf != xfer && |buf0| == buf.Length
      requires c.pos + SECTOR <= xfer.Length && c.pos + c.skip + copyLen <= xfer.Length
               && c.copied + copyLen <= buf.Length
      requires CopiedFrom(xfer[..], lead, c.copied, buf[..], buf0)
      requires lead' + c.copied == c.pos + c.skip && (c.copied > 0 ==> lead' == lead && lead + c.copied <= c.pos)
      requires c.end.Lba() == c.start.Lba() + 1
      modifies this, buf, xfer
      ensures Coherent(req.disc)
      ensures if tried.ok then Stored(old(xfer[..]), xfer[..], c.pos, req.disc.Sector(c.start.Lba()))
              else xfer[..] == old(xfer[..]) && buf[..] == old(buf[..])
      ensures tried.ok ==> CopiedFrom(xfer[..], lead', c.copied + copyLen, buf[..], buf0)
      ensures cached <==> old(CacheLba()) == c.start.Lba()
      ensures tried == if cached then Tried(true, c.attempt, c.retries) else Try(req.outcome, c.attempt, c.retries)
      ensures CacheLba() == if !tried.ok then old(CacheLba()) else if cached then -1 else c.start.Lba()
    {
      ghost var xferBefore := xfer[..];
      var found;
      tried, found := FetchFrame(req, c, xfer);
      cached := found;
      if tried.ok {
        CopyOut(buf, xfer, c, copyLen, xferBefore, lead, lead', buf0);
        KeepFrame(req.disc, c.end, xfer, c.pos, found);
      }
    }

    /** Frame `i` is asked for and what comes of it assembled. */
    method ReceiveFrame(req: Request, buf: array<u8>, xfer: array<u8>, c: Cursor, copyLen: nat,
                        ghost i: nat, ghost got: seq<nat>, ghost buf0: seq<u8>)
      returns (ok: bool, c': Cursor, ghost got': seq<nat>)
      requires Coherent(req.disc) && buf != xfer && |buf0| == buf.Length && i < req.frames
      requires Assembled(req, got, i, xfer[..], buf[..], buf0, c.pos, c.copied)
      requires c.start.Lba() == req.lba + i && c.end.Lba() == req.lba + i + 1
      requires Fits(req, got, i, |buf0|, c.pos, c.copied, c.skip, copyLen)
      modifies this, buf, xfer
      ensures Coherent(req.disc)
      ensures Assembled(req, got', i + 1, xfer[..], buf[..], buf0, c'.pos, c'.copied)
      ensures c'.start == c.start && c'.end == c.end && c'.skip == c.skip
      ensures ok <==> LastReceived(got', i + 1)
      ensures Tally(got', CacheLba(), c'.attempt, c'.retries)
           == Serve(req.outcome, req.lba + i, i, Tally(got, old(CacheLba()), c.attempt, c.retries))
    {
      hide Stored, CopiedFrom, Padded, InOrder, Serve, Try, LastReceived;
      ghost var xferBefore, bufBefore := xfer[..], buf[..];
      ghost var before := Tally(got, CacheLba(), c.attempt, c.retries);
      var tried;
      ghost var cached;
      tried, cached := ReadFrame(req, buf, xfer, c, copyLen, buf0, Lead(got, req.skip), Lead(got + [i], req.skip));
      Served(req.outcome, req.lba + i, i, before, tried, cached, CacheLba());
      FrameAssembled(req, got, i, xferBefore, xfer[..], bufBefore, buf[..], buf0, c, copyLen, tried);
      ok, c', got' := tried.ok, Advanced(c, tried, copyLen), if tried.ok then got + [i] else got;
    }

    /** One round of the frame loop. */
    method Round(req: Request, buf: array<u8>, xfer: array<u8>, c: Cursor, i: nat,
                 ghost got: seq<nat>, ghost buf0: seq<u8>, ghost cache0: int)
      returns (ok: bool, c': Cursor, ghost got': seq<nat>)
      requires Coherent(req.disc) && buf != xfer && |buf0| == buf.Length && i < req.frames && req.skip < SECTOR
      requires SECTOR * (req.frames - 1) < buf.Length + req.skip <= SECTOR * req.frames
               && req.lba + req.frames < DISC_END
      requires InProgress(req, got, i, xfer[..], buf[..], buf0, c, cache0, CacheLba())
      modifies this, buf, xfer
      ensures Coherent(req.disc)
      ensures InProgress(req, got', i + 1, xfer[..], buf[..], buf0, c', cache0, CacheLba())
      ensures ok <==> LastReceived(got', i + 1)
    {
      hide Assembled, Placed, Fits, CopyLen, LastReceived, After, Serve, MsfAt;
      AfterOneMore(req.outcome, cache0, req.lba, i, Tally(got, CacheLba(), c.attempt, c.retries), req.lba + i);
      RoundFits(req, got, i, xfer[..], buf[..], buf0, c);
      var planned, copyLen := PlanFrame(req, i, buf.Length, c);
      Located(planned.start, planned.end, req.lba + i);
      ok, c', got' := ReceiveFrame(req, buf, xfer, planned, copyLen, i, got, buf0);
    }

    /** The frame loop. */
    method FrameLoop(req: Request, buf: array<u8>, xfer: array<u8>, start: Cursor, ghost buf0: seq<u8>,
                     ghost cache0: int)
      returns (rv: nat, c: Cursor, ghost got: seq<nat>)
      requires Coherent(req.disc) && buf != xfer && |buf0| == buf.Length && req.skip < SECTOR
      requires req.frames > 0 ==> SECTOR * (req.frames - 1) < buf.Length + req.skip
      requires buf.Length + req.skip <= SECTOR * req.frames && req.lba + req.frames < DISC_END
      requires InProgress(req, [], 0, xfer[..], buf[..], buf0, start, cache0, CacheLba())
      modifies this, buf, xfer
      ensures Coherent(req.disc)
      ensures InProgress(req, got, req.frames, xfer[..], buf[..], buf0, c, cache0, CacheLba())
      ensures rv == 0 <==> req.frames == 0 || LastReceived(got, req.frames)
    {
      hide InProgress, LastReceived;
      rv, c, got := 0, start, [];
      for i := 0 to req.frames
        invariant Coherent(req.disc) && InProgress(req, got, i, xfer[..], buf[..], buf0, c, cache0, CacheLba())
        invariant rv == 0 <==> i == 0 || LastReceived(got, i)
      {
        var ok;
        ok, c, got := Round(req, buf, xfer, c, i, got, buf0, cache0);
        rv := if ok then 0 else 1;
      }
    }

    /** All frames of a request, into the transfer buffer and on to the caller. */
    method ReadFrames(req: Request, buf: array<u8>, xfer: array<u8>, start: Msf) returns (rv: nat, ghost got: seq<nat>)
      requires Coherent(req.disc) && req.skip < SECTOR && buf != xfer
      requires req.frames > 0 ==> SECTOR * (req.frames - 1) < buf.Length + req.skip
      requires buf.Length + req.skip <= SECTOR * req.frames
      requires start == MsfAt(req.lba) && req.lba + req.frames < DISC_END
      requires xfer[..] == Zeros(SECTOR * req.frames)
      modifies this, buf, xfer
      ensures Coherent(req.disc)
      ensures Delivered(req.disc, req.lba, got, req.frames, req.skip, buf[..], old(buf[..]))
      ensures rv == 0 <==> req.frames == 0 || LastReceived(got, req.frames)
      ensures got == After(req.outcome, old(CacheLba()), req.lba, req.frames).got
    {
      var c := Cursor(start, start, req.skip, 0, 0, 0, MAX_RETRIES);
      ghost var buf0, cache0 := buf[..], CacheLba();
      Begin(req, xfer[..], buf0, c, cache0);
      rv, c, got := FrameLoop(req, buf, xfer, c, buf0, cache0);
      Done(req, got, xfer[..], buf[..], buf0, c, cache0, CacheLba());
    }

    /** cdrom_send_command for READ CD MSF. */
    method SendReadCd(disc: Disc, outcome: Outcome, buf: array<u8>, start: Msf, skip: nat)
      returns (rv: nat, ghost got: seq<nat>)
      requires Coherent(disc) && skip < SECTOR
      requires start.Proper() && start.Lba() + Frames(buf.Length, skip) < DISC_END
      modifies this, buf
      ensures Coherent(disc)
      ensures Delivered(disc, start.Lba(), got, Frames(buf.Length, skip), skip, buf[..], old(buf[..]))
      ensures rv == 0 <==> Frames(buf.Length, skip) == 0 || LastReceived(got, Frames(buf.Length, skip))
      ensures got == After(outcome, old(CacheLba()), start.Lba(), Frames(buf.Length, skip)).got
    {
      FramesFit(buf.Length, skip);
      var req := Request(disc, outcome, start.Lba(), Frames(buf.Length, skip), skip);
      var xfer := new u8[SECTOR * req.frames](_ => 0);
      assert xfer[..] == Zeros(xfer.Length);
      LbaMsfAt(start);
      rv, got := ReadFrames(req, buf, xfer, start);
    }

    /** cdrom_read: whatever the cache holds, if every frame arrives it delivers the bytes of the disc. */
    method Read(disc: Disc, outcome: Outcome, buf: array<u8>, start: Msf, skip: nat)
      returns (rv: nat, ghost got: seq<nat>)
      requires Coherent(disc) && skip < SECTOR
      requires start.Proper() && start.Lba() + Frames(buf.Length, skip) < DISC_END
      modifies this, buf
      ensures Coherent(disc) && (rv != 0 ==> !lastFrameValid)
      ensures Delivered(disc, start.Lba(), got, Frames(buf.Length, skip), skip, buf[..], old(buf[..]))
      ensures rv == 0 <==> Frames(buf.Length, skip) == 0 || LastReceived(got, Frames(buf.Length, skip))
      ensures got == After(outcome, old(CacheLba()), start.Lba(), Frames(buf.Length, skip)).got
      ensures Arrives(outcome, Transfers(old(CacheLba()), start.Lba(), Frames(buf.Length, skip)))
              ==> rv == 0 && forall k :: 0 <= k < buf.Length ==> buf[k] == ByteFrom(disc, start.Lba(), skip + k)
    {
      ReceivesAllExactly(outcome, CacheLba(), start.Lba(), Frames(buf.Length, skip));
      rv, got := SendReadCd(disc, outcome, buf, start, skip);
      if |got| == Frames(buf.Length, skip) {
        AllRight(disc, start.Lba(), got, skip, buf[..], old(buf[..]));
      }
      if rv != 0 {
        lastFrameValid, rv := false, 1;
      }
    }
  }
}
