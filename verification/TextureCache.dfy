/**
 * The texture cache of GLideN64/src/Textures.cpp: a list kept in order of recency and an index that finds its nodes.
 */
module TextureCaches {
  // -------------------------------------------------------------------------
  // Recency

  /** `l` without the first `k`. */
  function Without(l: seq<nat>, k: nat): seq<nat> {
    if l == [] then [] else if l[0] == k then l[1..] else [l[0]] + Without(l[1..], k)
  }

  function MovedToFront(l: seq<nat>, k: nat): seq<nat> {
    [k] + Without(l, k)
  }

  /** Every key of a history of accesses once, the most recent first. */
  function Recency(history: seq<nat>): seq<nat> {
    if history == [] then []
    else MovedToFront(Recency(history[..|history| - 1]), history[|history| - 1])
  }

  function Prefix(l: seq<nat>, n: nat): seq<nat> {
    if |l| <= n then l else l[..n]
  }

  ghost predicate Distinct(l: seq<nat>) {
    forall i, j :: 0 <= i < j < |l| ==> l[i] != l[j]
  }

  /**
   * One access to a cache of at most `max` keys: a hit moves to the front, a miss drops the last key of a full cache.
   */
  function Accessed(keys: seq<nat>, max: nat, k: nat): seq<nat>
    requires max >= 1
  {
    if k in keys then MovedToFront(keys, k)
    else [k] + if |keys| >= max then keys[..|keys| - 1] else keys
  }

  lemma {:induction false} WithoutKeeps(l: seq<nat>, k: nat)
    requires Distinct(l)
    ensures forall x :: x in Without(l, k) <==> x in l && x != k
    ensures Distinct(Without(l, k))
    ensures |Without(l, k)| == if k in l then |l| - 1 else |l|
    ensures k !in l ==> Without(l, k) == l
  {
    if l != [] {
      assert l == [l[0]] + l[1..];
      if l[0] != k {
        WithoutKeeps(l[1..], k);
        assert l[0] !in l[1..];
      } else {
        assert k !in l[1..];
      }
    }
  }

  lemma {:induction false} RecencyDistinct(history: seq<nat>)
    ensures Distinct(Recency(history))
    ensures forall k :: k in Recency(history) <==> k in history
  {
    if history != [] {
      var earlier, k := history[..|history| - 1], history[|history| - 1];
      assert history == earlier + [k];
      RecencyDistinct(earlier);
      WithoutKeeps(Recency(earlier), k);
    }
  }

  lemma RecencyOneMore(history: seq<nat>, k: nat)
    ensures Recency(history + [k]) == MovedToFront(Recency(history), k)
  {
    assert (history + [k])[..|history|] == history;
  }

  lemma PrefixCons(x: nat, r: seq<nat>, n: nat)
    requires n > 0
    ensures Prefix([x] + r, n) == [x] + Prefix(r, n - 1)
  {
  }

  lemma WithoutCons(x: nat, r: seq<nat>, k: nat)
    ensures Without([x] + r, k) == if x == k then r else [x] + Without(r, k)
  {
    assert ([x] + r)[1..] == r;
  }

  /** Removing a key from a prefix, or from the whole and then cutting: the same, if the prefix had it. */
  lemma {:induction false} PrefixWithout(l: seq<nat>, n: nat, k: nat)
    requires 0 < n
    ensures k in Prefix(l, n) ==> Without(Prefix(l, n), k) == Prefix(Without(l, k), n - 1)
    ensures k !in Prefix(l, n) ==> Prefix(l, n - 1) == Prefix(Without(l, k), n - 1)
  {
    if l != [] {
      var x, r := l[0], l[1..];
      assert l == [x] + r;
      PrefixCons(x, r, n);
      WithoutCons(x, r, k);
      WithoutCons(x, Prefix(r, n - 1), k);
      if x != k && n > 1 {
        PrefixWithout(r, n - 1, k);
        PrefixCons(x, r, n - 1);
        PrefixCons(x, Without(r, k), n - 1);
      }
    }
  }

  /** A cache that holds the most recent keys of a history holds those of the longer history after an access. */
  lemma AccessKeepsRecent(history: seq<nat>, max: nat, k: nat)
    requires max >= 1
    ensures Accessed(Prefix(Recency(history), max), max, k) == Prefix(Recency(history + [k]), max)
  {
    hide Recency, Without;
    var l := Recency(history);
    RecencyDistinct(history);
    RecencyOneMore(history, k);
    PrefixWithout(l, max, k);
    WithoutKeeps(l, k);
    assert Prefix([k] + Without(l, k), max) == [k] + Prefix(Without(l, k), max - 1);
  }

  lemma AccessedHit(keys: seq<nat>, max: nat, k: nat)
    requires max >= 1 && k in keys
    ensures Accessed(keys, max, k) == MovedToFront(keys, k)
  {
  }

  /** Taking a key out first makes no difference to its access. */
  lemma AccessedAfterRemoval(keys: seq<nat>, max: nat, k: nat)
    requires max >= 1 && Distinct(keys) && |keys| <= max && k in keys
    ensures Accessed(Without(keys, k), max, k) == Accessed(keys, max, k)
  {
    WithoutKeeps(keys, k);
  }

  lemma Regrouped(x: nat, b: seq<nat>, c: seq<nat>)
    ensures [x] + (b + c) == [x] + b + c
    ensures forall k :: k in [x] + b <==> x == k || k in b
  {
  }

  lemma {:induction false} WithoutAppend(a: seq<nat>, b: seq<nat>, k: nat)
    ensures Without(a + b, k) == if k in a then Without(a, k) + b else a + Without(b, k)
  {
    hide Without;
    if a == [] {
      assert a + b == b && a + Without(b, k) == Without(b, k);
    } else {
      var x, r := a[0], a[1..];
      assert a == [x] + r;
      Regrouped(x, r, b);
      WithoutCons(x, r + b, k);
      WithoutCons(x, r, k);
      if x != k {
        WithoutAppend(r, b, k);
        Regrouped(x, Without(r, k), b);
        Regrouped(x, r, Without(b, k));
      }
    }
  }

  lemma MovedPast(front: seq<nat>, k: nat, rest: seq<nat>, x: nat)
    requires Distinct(front) && x != k
    ensures MovedToFront(front + ([k] + rest), x)
         == MovedToFront(front, x) + ([k] + if x in front then rest else Without(rest, x))
  {
    hide Without;
    var rest' := if x in front then rest else Without(rest, x);
    WithoutKeeps(front, x);
    WithoutAppend(front, [k] + rest, x);
    WithoutCons(k, rest, x);
    assert [x] + (Without(front, x) + ([k] + rest')) == [x] + Without(front, x) + ([k] + rest');
  }

  /** In front of a key that is not accessed again are the keys accessed after it. */
  lemma {:induction false} LaterInFront(history: seq<nat>, k: nat, later: seq<nat>) returns (rest: seq<nat>)
    requires k !in later
    ensures Recency(history + [k] + later) == Recency(later) + ([k] + rest)
    decreases |later|
  {
    hide Recency, MovedToFront, Without;
    if later == [] {
      assert history + [k] + later == history + [k];
      RecencyOneMore(history, k);
      rest := NothingInFront(Recency(history), k, later);
    } else {
      var n := |later| - 1;
      var earlier, x := later[..n], later[n];
      var rest' := LaterInFront(history, k, earlier);
      assert history + [k] + later == history + [k] + earlier + [x] && later == earlier + [x];
      RecencyOneMore(history + [k] + earlier, x);
      RecencyOneMore(earlier, x);
      RecencyDistinct(earlier);
      MovedPast(Recency(earlier), k, rest', x);
      rest := if x in Recency(earlier) then rest' else Without(rest', x);
    }
  }

  lemma NothingInFront(l: seq<nat>, k: nat, none: seq<nat>) returns (rest: seq<nat>)
    requires none == []
    ensures MovedToFront(l, k) == Recency(none) + ([k] + rest)
  {
    rest := Without(l, k);
  }

  function KeySet(keys: seq<nat>): set<nat> {
    set k | k in keys
  }

  /** How many different keys there are. */
  function Different(keys: seq<nat>): nat {
    |KeySet(keys)|
  }

  lemma {:induction false} DistinctCount(l: seq<nat>)
    requires Distinct(l)
    ensures Different(l) == |l|
  {
    if l != [] {
      var n := |l| - 1;
      DistinctCount(l[..n]);
      assert l == l[..n] + [l[n]];
      assert KeySet(l) == KeySet(l[..n]) + {l[n]};
    }
  }

  lemma SameCount(a: seq<nat>, b: seq<nat>)
    requires forall k :: k in a <==> k in b
    ensures Different(a) == Different(b)
  {
    assert KeySet(a) == KeySet(b);
  }

  lemma RecencyCount(keys: seq<nat>)
    ensures |Recency(keys)| == Different(keys)
  {
    RecencyDistinct(keys);
    DistinctCount(Recency(keys));
    SameCount(Recency(keys), keys);
  }

  /** A key stays in a cache of at most `max` exactly while fewer than `max` different keys were accessed after it. */
  lemma StaysListed(history: seq<nat>, k: nat, later: seq<nat>, max: nat)
    requires k !in later
    ensures k in Prefix(Recency(history + [k] + later), max) <==> Different(later) < max
  {
    hide Recency;
    var rest := LaterInFront(history, k, later);
    var l, n := Recency(history + [k] + later), |Recency(later)|;
    RecencyDistinct(history + [k] + later);
    RecencyCount(later);
    assert l[n] == k;
    if n < max {
      assert Prefix(l, max)[n] == k;
    }
  }

  // -------------------------------------------------------------------------
  // How long a node stays

  /** A look into the cache: the key and size of a tile, or of the background image, whose size is not compared. */
  datatype Access = Access(key: nat, width: nat, height: nat, background: bool)
  {
    /** A listed texture of that key and of size `w` by `h` is taken rather than replaced. */
    predicate Takes(w: nat, h: nat) {
      background || (width == w && height == h)
    }
  }

  function Keys(log: seq<Access>): (keys: seq<nat>)
    ensures |keys| == |log|
    ensures forall i :: 0 <= i < |log| ==> keys[i] == log[i].key
  {
    seq(|log|, (i: nat) requires i < |log| => log[i].key)
  }

  lemma KeysOneMore(log: seq<Access>, a: Access)
    ensures Keys(log + [a]) == Keys(log) + [a.key]
  {
  }

  /** The keys after the last `k`. */
  function Since(keys: seq<nat>, k: nat): seq<nat> {
    if keys == [] || keys[|keys| - 1] == k then []
    else Since(keys[..|keys| - 1], k) + [keys[|keys| - 1]]
  }

  /**
   * A texture of key `k` and size `w` by `h` survives the accesses `later` in a cache of at most `max`: no access of
   * its key is of another size, and at no time `max` different keys were accessed after the latest access of its own.
   */
  ghost predicate Stays(k: nat, w: nat, h: nat, later: seq<Access>, max: nat) {
    && (forall a :: a in later && a.key == k && !a.background ==> a.width == w && a.height == h)
    && (forall n :: 0 <= n <= |later| ==> Different(Since(Keys(later[..n]), k)) < max)
  }

  lemma StaysFirst(k: nat, w: nat, h: nat, later: seq<Access>, max: nat)
    requires later == [] && max >= 1
    ensures Stays(k, w, h, later, max)
  {
  }

  lemma StaysOneMore(k: nat, w: nat, h: nat, later: seq<Access>, a: Access, max: nat)
    ensures Stays(k, w, h, later + [a], max)
       <==> && Stays(k, w, h, later, max) && (a.key == k ==> a.Takes(w, h))
            && Different(Since(Keys(later + [a]), k)) < max
  {
    hide Since, Different, Keys;
    var more := later + [a];
    assert more[|later|] == a && more[..|more|] == more;
    forall n | 0 <= n <= |later|
      ensures more[..n] == later[..n]
    {
    }
  }

  lemma {:induction false} SinceSplit(keys: seq<nat>, k: nat) returns (front: seq<nat>)
    ensures k !in Since(keys, k) && [k] + keys == front + [k] + Since(keys, k)
    decreases |keys|
  {
    var n := |keys| - 1;
    if keys == [] {
      front := [];
    } else if keys[n] == k {
      front := [k] + keys[..n];
    } else {
      front := SinceSplit(keys[..n], k);
      assert [k] + keys == [k] + keys[..n] + [keys[n]];
    }
  }

  lemma {:induction false} SinceAll(keys: seq<nat>, k: nat)
    requires k !in keys
    ensures Since(keys, k) == keys
    decreases |keys|
  {
    if keys != [] {
      SinceAll(keys[..|keys| - 1], k);
    }
  }

  /** The most recent keys after an access of `k` and the accesses `later` tell whether `k` is still among them. */
  lemma RecentExactly(before: seq<Access>, first: Access, later: seq<Access>, max: nat)
    ensures first.key in Prefix(Recency(Keys(before + [first] + later)), max)
       <==> Different(Since(Keys(later), first.key)) < max
  {
    hide Recency, Prefix, Since, Different;
    var k, keys := first.key, Keys(later);
    var front := SinceSplit(keys, k);
    assert Keys(before + [first] + later) == Keys(before) + ([k] + keys);
    assert Keys(before) + (front + [k] + Since(keys, k)) == Keys(before) + front + [k] + Since(keys, k);
    StaysListed(Keys(before) + front, k, Since(keys, k), max);
  }

  lemma FewerInFront(a: seq<nat>, n: nat)
    requires n <= |a|
    ensures Different(a[..n]) <= Different(a)
  {
    FewerElements(KeySet(a[..n]), KeySet(a));
  }

  lemma FewerElements(a: set<nat>, b: set<nat>)
    requires a <= b
    ensures |a| <= |b|
  {
    assert b == a + (b - a);
  }

  /** Where the key is not accessed again, only the number of other keys counts. */
  lemma StaysUntouched(k: nat, w: nat, h: nat, later: seq<Access>, max: nat)
    requires k !in Keys(later)
    ensures Stays(k, w, h, later, max) <==> Different(Keys(later)) < max
  {
    hide Since, Different;
    forall n | 0 <= n <= |later|
      ensures Since(Keys(later[..n]), k) == Keys(later)[..n] && Different(Keys(later)[..n]) <= Different(Keys(later))
    {
      assert Keys(later[..n]) == Keys(later)[..n];
      SinceAll(Keys(later)[..n], k);
      FewerInFront(Keys(later), n);
    }
    assert later[..|later|] == later && Keys(later)[..|later|] == Keys(later);
    forall a | a in later
      ensures a.key != k
    {
      var i :| 0 <= i < |later| && later[i] == a;
      assert Keys(later)[i] == a.key;
    }
  }

  // -------------------------------------------------------------------------
  // The cache

  class CachedTexture {
    const crc: nat
    const width: nat
    const height: nat

    constructor (crc: nat, width: nat, height: nat)
      ensures this.crc == crc && this.width == width && this.height == height
    {
      this.crc, this.width, this.height := crc, width, height;
    }
  }

  ghost function Crcs(textures: seq<CachedTexture>): (r: seq<nat>)
    ensures |r| == |textures|
    ensures forall i :: 0 <= i < |r| ==> r[i] == textures[i].crc
  {
    if textures == [] then [] else [textures[0].crc] + Crcs(textures[1..])
  }

  /** Cutting the node with the key out of the list takes the key out of the keys. */
  lemma {:induction false} CrcsWithout(textures: seq<CachedTexture>, i: nat)
    requires i < |textures| && Distinct(Crcs(textures))
    ensures Crcs(textures[..i] + textures[i + 1..]) == Without(Crcs(textures), textures[i].crc)
  {
    if i > 0 {
      var tail := textures[1..];
      assert Distinct(Crcs(tail)) by {
        assert forall j :: 0 <= j < |tail| ==> Crcs(tail)[j] == Crcs(textures)[j + 1];
      }
      CrcsWithout(tail, i - 1);
      var cut := textures[..i] + textures[i + 1..];
      assert cut[1..] == tail[..i - 1] + tail[i..];
      assert Crcs(textures)[0] != Crcs(textures)[i];
    } else {
      assert textures[..0] + textures[1..] == textures[1..];
    }
  }

  lemma FrontCrcs(node: CachedTexture, rest: seq<CachedTexture>)
    ensures Crcs([node] + rest) == [node.crc] + Crcs(rest)
  {
    assert ([node] + rest)[1..] == rest;
  }

  /** The index maps exactly the keys in the list, each to its own node. */
  ghost predicate Indexed(textures: seq<CachedTexture>, locations: map<nat, CachedTexture>) {
    && (forall i :: 0 <= i < |textures| ==> textures[i].crc in locations && locations[textures[i].crc] == textures[i])
    && (forall k :: k in locations ==> locations[k] in textures && locations[k].crc == k)
  }

  lemma FrontIndexed(textures: seq<CachedTexture>, locations: map<nat, CachedTexture>, i: nat)
    requires Indexed(textures, locations) && i < |textures|
    ensures Indexed([textures[i]] + (textures[..i] + textures[i + 1..]), locations)
  {
    var moved := [textures[i]] + (textures[..i] + textures[i + 1..]);
    forall t | t in textures
      ensures t in moved
    {
      var j :| 0 <= j < |textures| && textures[j] == t;
      if j < i {
        assert moved[j + 1] == t;
      } else if j == i {
        assert moved[0] == t;
      } else {
        assert moved[j] == t;
      }
    }
    forall j | 0 <= j < |moved|
      ensures moved[j] in textures
    {
    }
  }

  lemma FrontAdded(texture: CachedTexture, textures: seq<CachedTexture>, locations: map<nat, CachedTexture>)
    requires Indexed(textures, locations) && texture.crc !in locations
    ensures Indexed([texture] + textures, locations[texture.crc := texture])
  {
    forall t | t in textures
      ensures t in [texture] + textures
    {
    }
  }

  /** One access turns the list `before` into `after`, with the texture it found or made in front. */
  ghost predicate Turned(before: seq<CachedTexture>, after: seq<CachedTexture>, a: Access) {
    && after != [] && after[0].crc == a.key
    && (forall n :: n in after ==> n == after[0] || n in before)
    && forall n :: n in before ==>
         (n in after <==> if n.crc == a.key then a.Takes(n.width, n.height) else n.crc in Crcs(after))
  }

  /** Whether a listed texture of the key was taken decides about all others of the list. */
  lemma TurnedIf(before: seq<CachedTexture>, after: seq<CachedTexture>, locations: map<nat, CachedTexture>,
                 locations': map<nat, CachedTexture>, a: Access)
    requires Indexed(before, locations) && Indexed(after, locations') && after != [] && after[0].crc == a.key
    requires forall n :: n in after ==> n == after[0] || n in before
    requires a.key in locations ==>
      (after[0] == locations[a.key] <==> a.Takes(locations[a.key].width, locations[a.key].height))
    ensures Turned(before, after, a)
  {
    forall n | n in before
      ensures n in after <==> if n.crc == a.key then a.Takes(n.width, n.height) else n.crc in Crcs(after)
    {
      SameNode(before, locations, n);
      if n in after {
        SameNode(after, locations', n);
      } else if n.crc in Crcs(after) {
        var i :| 0 <= i < |after| && Crcs(after)[i] == n.crc;
        SameNode(after, locations', after[i]);
        if after[i] in before {
          SameNode(before, locations, after[i]);
        }
      }
      SameNode(after, locations', after[0]);
    }
  }

  lemma SameNode(textures: seq<CachedTexture>, locations: map<nat, CachedTexture>, n: CachedTexture)
    requires Indexed(textures, locations) && n in textures
    ensures n.crc in Crcs(textures) && n.crc in locations && locations[n.crc] == n
  {
    var i :| 0 <= i < |textures| && textures[i] == n;
    assert Crcs(textures)[i] == n.crc;
  }

  /** Each access's texture is in the list exactly if it survived the accesses after it. */
  ghost predicate Tracked(textures: seq<CachedTexture>, log: seq<Access>, given: seq<CachedTexture>, max: nat) {
    |given| == |log| && forall i :: 0 <= i < |log| ==> TrackedAt(textures, log, given[i], i, max)
  }

  ghost predicate TrackedAt(textures: seq<CachedTexture>, log: seq<Access>, n: CachedTexture, i: nat, max: nat)
    requires i < |log|
  {
    n.crc == log[i].key && (n in textures <==> Stays(n.crc, n.width, n.height, log[i + 1..], max))
  }

  lemma TrackedOneMore(before: seq<CachedTexture>, after: seq<CachedTexture>, log: seq<Access>, a: Access,
                       given: seq<CachedTexture>, max: nat)
    requires max >= 1 && Tracked(before, log, given, max) && Turned(before, after, a) && after != []
    requires after[0] in before || after[0] !in given
    requires Crcs(after) == Prefix(Recency(Keys(log + [a])), max)
    ensures Tracked(after, log + [a], given + [after[0]], max)
  {
    hide Turned, Stays, Recency, Prefix, Crcs, Keys;
    forall i | 0 <= i < |log| + 1
      ensures TrackedAt(after, log + [a], (given + [after[0]])[i], i, max)
    {
      if i < |log| {
        assert TrackedAt(before, log, given[i], i, max);
        TrackedStep(before, after, log, a, given[i], i, max);
      } else {
        TrackedFront(after, log, a, before, max);
      }
    }
  }

  lemma TrackedFront(after: seq<CachedTexture>, log: seq<Access>, a: Access, before: seq<CachedTexture>, max: nat)
    requires max >= 1 && Turned(before, after, a)
    ensures TrackedAt(after, log + [a], after[0], |log|, max)
  {
    hide Stays;
    assert (log + [a])[|log| + 1..] == [];
    StaysFirst(after[0].crc, after[0].width, after[0].height, (log + [a])[|log| + 1..], max);
  }

  lemma TrackedStep(before: seq<CachedTexture>, after: seq<CachedTexture>, log: seq<Access>, a: Access,
                    n: CachedTexture,
                    i: nat, max: nat)
    requires max >= 1 && i < |log| && TrackedAt(before, log, n, i, max) && Turned(before, after, a)
    requires after[0] in before || after[0] != n
    requires Crcs(after) == Prefix(Recency(Keys(log + [a])), max)
    ensures TrackedAt(after, log + [a], n, i, max)
  {
    hide Stays, Recency, Prefix, Crcs, Keys, Since, Different;
    var later := log[i + 1..];
    assert (log + [a])[i + 1..] == later + [a];
    assert log + [a] == log[..i] + [log[i]] + (later + [a]);
    StaysOneMore(n.crc, n.width, n.height, later, a, max);
    RecentExactly(log[..i], log[i], later + [a], max);
    if a.key == n.crc {
      LastSince(later, a);
    }
  }

  lemma LastSince(later: seq<Access>, a: Access)
    ensures Different(Since(Keys(later + [a]), a.key)) == 0
  {
    KeysOneMore(later, a);
  }

  class TextureCache {
    var textures: seq<CachedTexture>
    var locations: map<nat, CachedTexture>
    var current: seq<CachedTexture?>
    var hits: nat
    var misses: nat
    const maxCacheSize: nat
    /** The accesses since the cache was empty, and the texture each of them found or made. */
    ghost var log: seq<Access>
    ghost var given: seq<CachedTexture>
    /** For each unit the access that gave it its texture, or -1 if none did. */
    ghost var source: seq<int>

    /**
     * List and index agree, and the list is the `maxCacheSize` most recently accessed keys, the most recent first: so
     * keys are distinct, the size stays within its limit, and what is dropped is the least recent. Every texture that
     * an access gave is in the list exactly if it survived the accesses after it.
     */
    ghost predicate Valid()
      reads this
    {
      && maxCacheSize >= 1
      && Indexed(textures, locations)
      && Crcs(textures) == Prefix(Recency(Keys(log)), maxCacheSize)
      && Tracked(textures, log, given, maxCacheSize)
      && Sourced(current, source, given)
    }

    constructor (maxCacheSize: nat)
      requires maxCacheSize >= 1
      ensures Valid() && this.maxCacheSize == maxCacheSize
      ensures textures == [] && log == [] && current == [null, null] && source == [-1, -1]
    {
      this.maxCacheSize := maxCacheSize;
      textures, locations, current, hits, misses, log, given, source := [], map[], [null, null], 0, 0, [], [], [-1, -1];
    }

    /** _clear */
    method Clear()
      requires Valid()
      modifies this
      ensures Valid() && textures == [] && locations == map[] && log == []
      ensures current == [null, null] && source == [-1, -1]
    {
      textures, locations, current := [], map[], [null, null];
      log, given, source := [], [], [-1, -1];
    }

    /**
     * The texture a unit got from the cache is still in the list exactly if it survived the accesses after the one that
     * gave it.
     */
    lemma UnitListedExactly(t: nat)
      requires Valid() && t < 2 && source[t] >= 0
      ensures source[t] < |log|
      ensures var n, a := current[t], log[source[t]];
        && n != null && n.crc == a.key
        && (n in textures <==> Stays(n.crc, n.width, n.height, log[source[t] + 1..], maxCacheSize))
    {
      hide Stays;
      assert TrackedAt(textures, log, given[source[t]], source[t], maxCacheSize);
    }

    /** `m_lruTextureLocations.erase(...)` and removal of node `i` from the list. */
    method RemoveAt(i: nat)
      requires Indexed(textures, locations) && Distinct(Crcs(textures)) && i < |textures|
      modifies this`textures, this`locations
      ensures Indexed(textures, locations)
      ensures textures == old(textures)[..i] + old(textures)[i + 1..]
      ensures forall n :: n in textures ==> n in old(textures)
      ensures Crcs(textures) == Without(old(Crcs(textures)), old(textures)[i].crc)
    {
      hide Crcs, Without;
      CrcsWithout(textures, i);
      locations := locations - {textures[i].crc};
      assert forall j :: 0 <= j < |textures| && j != i ==> Crcs(textures)[j] != Crcs(textures)[i];
      textures := textures[..i] + textures[i + 1..];
    }

    /** _checkCacheSize: a full cache drops its last texture. */
    method CheckCacheSize()
      requires maxCacheSize >= 1 && Indexed(textures, locations) && Distinct(Crcs(textures))
               && |textures| <= maxCacheSize
      modifies this`textures, this`locations
      ensures Indexed(textures, locations)
      ensures Crcs(textures) == if |old(textures)| >= maxCacheSize then old(Crcs(textures))[..|old(textures)| - 1]
              else old(Crcs(textures))
      ensures forall t :: t in textures ==> t in old(textures)
    {
      if |textures| >= maxCacheSize {
        RemoveAt(|textures| - 1);
      }
    }

    /** _addTexture, for a key that is not in the cache; the caller's key is recorded as accessed. */
    method AddTexture(crc: nat, width: nat, height: nat) returns (texture: CachedTexture)
      requires maxCacheSize >= 1 && Indexed(textures, locations) && Distinct(Crcs(textures))
               && |textures| <= maxCacheSize
      requires crc !in locations
      modifies this`textures, this`locations
      ensures Indexed(textures, locations) && textures != [] && textures[0] == texture
      ensures texture.crc == crc && texture.width == width && texture.height == height && fresh(texture)
      ensures crc !in old(Crcs(textures))
      ensures forall n :: n in textures ==> n == texture || n in old(textures)
      ensures Crcs(textures) == Accessed(old(Crcs(textures)), maxCacheSize, crc)
    {
      NotListed(textures, locations, crc);
      CheckCacheSize();
      ListedIfIndexed(textures, locations, crc);
      texture := new CachedTexture(crc, width, height);
      FrontAdded(texture, textures, locations);
      FrontCrcs(texture, textures);
      textures, locations := [texture] + textures, locations[crc := texture];
    }

    /** `m_textures.splice(m_textures.begin(), m_textures, iter)` */
    method Splice(node: CachedTexture)
      requires Indexed(textures, locations) && Distinct(Crcs(textures)) && node in textures
      modifies this`textures
      ensures Indexed(textures, locations) && textures != [] && textures[0] == node && |textures| == |old(textures)|
      ensures node.crc in old(Crcs(textures)) && Crcs(textures) == MovedToFront(old(Crcs(textures)), node.crc)
      ensures forall n :: n in textures ==> n in old(textures)
    {
      var i :| 0 <= i < |textures| && textures[i] == node;
      CrcsWithout(textures, i);
      assert Crcs(textures)[i] == node.crc;
      FrontIndexed(textures, locations, i);
      FrontCrcs(node, textures[..i] + textures[i + 1..]);
      textures := [node] + (textures[..i] + textures[i + 1..]);
    }

    /** What Valid says about the keys. */
    lemma KeysSound()
      requires Valid()
      ensures Distinct(Crcs(textures)) && |textures| <= maxCacheSize
    {
      RecencyDistinct(Keys(log));
    }

    /** A listed texture is taken for unit `t`. */
    method Take(t: nat, node: CachedTexture, ghost a: Access)
      requires Valid() && t < 2 && node in textures && node.crc == a.key && a.Takes(node.width, node.height)
      modifies this`textures, this`current, this`log, this`given, this`source
      ensures Valid() && Logged(old(log), old(given), old(current), old(source), t, a) && textures[0] == node
    {
      hide Tracked, Turned, Recency, Prefix, Accessed, MovedToFront, Crcs, Keys;
      KeysSound();
      ghost var before := textures;
      SameNode(textures, locations, node);
      AccessKeepsRecent(Keys(log), maxCacheSize, a.key);
      KeysOneMore(log, a);
      Splice(node);
      AccessedHit(Crcs(before), maxCacheSize, a.key);
      current := current[t := node];
      TurnedIf(before, textures, locations, locations, a);
      Record(before, t, a);
    }

    /**
     * A texture is made for unit `t`, `before` and `locations0` being list and index before one of the key was
     * discarded.
     */
    method Make(t: nat, crc: nat, width: nat, height: nat, ghost a: Access, ghost before: seq<CachedTexture>,
                ghost locations0: map<nat, CachedTexture>)
      requires maxCacheSize >= 1 && Indexed(textures, locations) && Distinct(Crcs(textures))
      requires |textures| <= maxCacheSize && t < 2 && a.key == crc && crc !in locations
      requires Accessed(Crcs(textures), maxCacheSize, crc) == Prefix(Recency(Keys(log + [a])), maxCacheSize)
      requires Indexed(before, locations0) && forall n :: n in textures ==> n in before
      requires crc in locations0 ==> !a.Takes(locations0[crc].width, locations0[crc].height)
      requires Tracked(before, log, given, maxCacheSize) && Sourced(current, source, given)
      modifies this`textures, this`locations, this`current, this`log, this`given, this`source
      ensures Valid() && Logged(old(log), old(given), old(current), old(source), t, a)
      ensures fresh(textures[0]) && textures[0].width == width && textures[0].height == height
    {
      hide Tracked, Turned, Recency, Prefix, Accessed, Crcs, Keys;
      var texture := AddTexture(crc, width, height);
      current := current[t := texture];
      TurnedIf(before, textures, locations0, locations, a);
      Record(before, t, a);
    }

    /** _updateBackground, for the key of the background image. */
    method UpdateBackground(crc: nat, width: nat, height: nat)
      requires Valid()
      modifies this
      ensures Valid() && Logged(old(log), old(given), old(current), old(source), 0, Access(crc, width, height, true))
      ensures if crc in old(locations)
              then textures[0] == old(locations)[crc] && hits == old(hits) + 1 && misses == old(misses)
              else && fresh(textures[0]) && textures[0].width == width && textures[0].height == height
                   && misses == old(misses) + 1 && hits == old(hits)
    {
      hide Tracked, Recency, Prefix, Accessed, Crcs, Keys, Sourced;
      ghost var a := Access(crc, width, height, true);
      if crc in locations {
        Take(0, locations[crc], a);
        hits := hits + 1;
        return;
      }
      misses := misses + 1;
      AccessIsRecent(a);
      Make(0, crc, width, height, a, textures, locations);
    }

    /** The end of update, once the tile's key is known not to be that of the current texture. */
    method Select(t: nat, crc: nat, width: nat, height: nat)
      requires Valid() && t < 2
      modifies this
      ensures Valid() && Logged(old(log), old(given), old(current), old(source), t, Access(crc, width, height, false))
      ensures textures[0].width == width && textures[0].height == height
      ensures if crc in old(locations) && old(locations)[crc].width == width && old(locations)[crc].height == height
              then textures[0] == old(locations)[crc] && hits == old(hits) + 1 && misses == old(misses)
              else fresh(textures[0]) && misses == old(misses) + 1 && hits == old(hits)
    {
      hide Tracked, Recency, Prefix, Accessed, Crcs, Keys, Sourced;
      ghost var a, before, locations0 := Access(crc, width, height, false), textures, locations;
      AccessIsRecent(a);
      if crc in locations {
        var currentTex := locations[crc];
        if currentTex.width == width && currentTex.height == height {
          Take(t, currentTex, a);
          hits := hits + 1;
          return;
        }
        Discard(currentTex);
      }
      misses := misses + 1;
      Make(t, crc, width, height, a, before, locations0);
    }

    lemma AccessIsRecent(a: Access)
      requires Valid()
      ensures Distinct(Crcs(textures)) && |textures| <= maxCacheSize
      ensures Accessed(Crcs(textures), maxCacheSize, a.key) == Prefix(Recency(Keys(log + [a])), maxCacheSize)
    {
      hide Recency, Accessed, Prefix, Keys;
      KeysSound();
      AccessKeepsRecent(Keys(log), maxCacheSize, a.key);
      KeysOneMore(log, a);
    }

    /** What an access for unit `t` leaves besides the list. */
    ghost predicate Logged(log0: seq<Access>, given0: seq<CachedTexture>, current0: seq<CachedTexture?>,
                           source0: seq<int>, t: nat, a: Access)
      requires |current0| == |source0| == 2 && t < 2
      reads this
    {
      && log == log0 + [a] && textures != [] && textures[0].crc == a.key && given == given0 + [textures[0]]
      && current == current0[t := textures[0]] && source == source0[t := |log0|]
    }

    /** Notes an access for unit `t`, whose texture has come to the front of the list. */
    ghost method Record(before: seq<CachedTexture>, t: nat, a: Access)
      requires maxCacheSize >= 1 && t < 2 && Indexed(textures, locations)
      requires textures != [] && Turned(before, textures, a)
      requires Tracked(before, log, given, maxCacheSize)
      requires Crcs(textures) == Prefix(Recency(Keys(log + [a])), maxCacheSize)
      requires textures[0] in before || textures[0] !in given
      requires |current| == |source| == 2 && current[t] == textures[0] && SourcedAt(current, source, given, 1 - t)
      modifies this`log, this`given, this`source
      ensures Valid() && log == old(log) + [a] && given == old(given) + [textures[0]]
      ensures source == old(source)[t := |old(log)|]
    {
      hide Turned, Recency, Prefix;
      TrackedOneMore(before, textures, log, a, given, maxCacheSize);
      source := source[t := |log|];
      log, given := log + [a], given + [textures[0]];
    }

    /** A texture of the right key but the wrong size leaves the index and the list. */
    method Discard(node: CachedTexture)
      requires maxCacheSize >= 1 && Indexed(textures, locations) && Distinct(Crcs(textures))
               && |textures| <= maxCacheSize
      requires node in textures
      modifies this`textures, this`locations
      ensures Indexed(textures, locations) && Distinct(Crcs(textures)) && |textures| <= maxCacheSize
      ensures node.crc !in locations && forall n :: n in textures ==> n in old(textures)
      ensures Accessed(Crcs(textures), maxCacheSize, node.crc) == Accessed(old(Crcs(textures)), maxCacheSize, node.crc)
    {
      hide Crcs, Without, Accessed;
      var i :| 0 <= i < |textures| && textures[i] == node;
      assert Crcs(textures)[i] == node.crc;
      WithoutKeeps(Crcs(textures), node.crc);
      AccessedAfterRemoval(Crcs(textures), maxCacheSize, node.crc);
      RemoveAt(i);
      ListedIfIndexed(textures, locations, node.crc);
    }

    /** activateTexture for a texture that is not the cache's own, as those of frame buffers. */
    method ActivateTexture(t: nat, texture: CachedTexture)
      requires Valid() && t < 2
      modifies this`current, this`source
      ensures Valid() && current == old(current)[t := texture] && source == old(source)[t := -1]
    {
      current, source := current[t := texture], source[t := -1];
    }

    /**
     * update for texture unit `t` and the key and size of its tile; `replaceTex1` is needReplaceTex1ByTex0. The texture
     * a unit points to is taken to stay readable after it has left the list.
     */
    method Update(t: nat, mode: TextureMode, replaceTex1: bool, crc: nat, width: nat, height: nat)
      requires Valid() && t < 2
      modifies this
      ensures Valid()
      ensures var follow := mode == Normal && t == 1 && replaceTex1;
        var current0 := if follow then old(current)[1 := old(current)[0]] else old(current);
        var source0 := if follow then old(source)[1 := old(source)[0]] else old(source);
        if Served(mode, t, replaceTex1, old(current), crc) then
          && log == old(log) && given == old(given) && textures == old(textures) && locations == old(locations)
          && (if mode.FrameBuffer? && mode.texture != null
              then current == current0[t := mode.texture] && source == source0[t := -1]
              else current == current0 && source == source0)
        else
          && Logged(old(log), old(given), current0, source0, if mode == Background then 0 else t,
                    Access(crc, width, height, mode == Background))
          && (mode == Normal ==> textures[0].width == width && textures[0].height == height)
    {
      match mode {
        case Background =>
          UpdateBackground(crc, width, height);
          return;
        case FrameBuffer(texture) =>
          if texture != null {
            ActivateTexture(t, texture);
          }
          return;
        case Normal =>
      }
      if t == 1 && replaceTex1 {
        current, source := current[1 := current[0]], source[1 := source[0]];
        if current[1] != null {
          return;
        }
      }
      if current[t] != null && current[t].crc == crc {
        return;
      }
      Select(t, crc, width, height);
    }
  }

  /** Each unit's texture is the one its source gave. */
  ghost predicate Sourced(current: seq<CachedTexture?>, source: seq<int>, given: seq<CachedTexture>) {
    && |current| == |source| == 2
    && SourcedAt(current, source, given, 0) && SourcedAt(current, source, given, 1)
  }

  ghost predicate SourcedAt(current: seq<CachedTexture?>, source: seq<int>, given: seq<CachedTexture>, t: nat)
    requires |current| == |source| == 2 && t < 2
  {
    -1 <= source[t] < |given| && (source[t] >= 0 ==> current[t] == given[source[t]])
  }

  /** What the log holds besides `log0` are accesses of the keys in `keys`, and unit 1 is as it was. */
  ghost predicate Played(cache: TextureCache, log0: seq<Access>, keys: seq<nat>, current: CachedTexture?, source: int)
    reads cache
  {
    && cache.Valid() && |cache.log| >= |log0| && cache.log[..|log0|] == log0
    && cache.current[1] == current && cache.source[1] == source
    && forall x :: x in Keys(cache.log[|log0|..]) <==> x in keys
  }

  /** Unit 0 asks for a tile of key `key`, after those of `keys`. */
  method PlayNext(cache: TextureCache, keys: seq<nat>, key: nat, width: nat, height: nat, ghost log0: seq<Access>,
                  ghost current: CachedTexture?, ghost source: int)
    requires Played(cache, log0, keys, current, source)
    requires cache.current[0] != null ==> cache.current[0].crc in keys
    modifies cache
    ensures Played(cache, log0, keys + [key], current, source)
    ensures cache.current[0] != null && cache.current[0].crc == key
  {
    hide Tracked, Recency, Prefix, Crcs, Keys, Indexed;
    ghost var log1, a := cache.log, Access(key, width, height, false);
    cache.Update(0, Normal, false, key, width, height);
    if cache.log != log1 {
      PlayedOneMore(log0, log1, a, keys);
    }
  }

  lemma PlayedOneMore(log0: seq<Access>, log1: seq<Access>, a: Access, keys: seq<nat>)
    requires |log1| >= |log0| && log1[..|log0|] == log0 && forall x :: x in Keys(log1[|log0|..]) <==> x in keys
    ensures (log1 + [a])[..|log0|] == log0
    ensures forall x :: x in Keys((log1 + [a])[|log0|..]) <==> x in keys + [a.key]
  {
    hide Keys;
    assert (log1 + [a])[|log0|..] == log1[|log0|..] + [a];
    KeysOneMore(log1[|log0|..], a);
  }

  /** Unit 0 asks for tiles of the keys `keys`, one after the other. */
  method PlayUnit0(cache: TextureCache, keys: seq<nat>, width: nat, height: nat)
    requires cache.Valid() && cache.current[0] == null
    modifies cache
    ensures Played(cache, old(cache.log), keys, old(cache.current[1]), old(cache.source[1]))
  {
    hide Keys;
    ghost var log0 := cache.log;
    NoKeys(log0);
    for i := 0 to |keys|
      invariant Played(cache, log0, keys[..i], old(cache.current[1]), old(cache.source[1]))
      invariant cache.current[0] != null ==> cache.current[0].crc in keys[..i]
    {
      assert keys[..i + 1] == keys[..i] + [keys[i]];
      PlayNext(cache, keys[..i], keys[i], width, height, log0, old(cache.current[1]), old(cache.source[1]));
    }
    assert keys[..|keys|] == keys;
  }

  lemma NoKeys(log: seq<Access>)
    ensures log[..|log|] == log && Keys(log[|log|..]) == []
  {
  }

  /**
   * Keys of unit 0 leave unit 1's texture in the list exactly while fewer of them differ than the cache has room for.
   */
  method PlayForeignKeys(max: nat, k: nat, keys: seq<nat>, width: nat, height: nat) returns (cache: TextureCache)
    requires max >= 1 && k !in keys
    ensures cache.Valid() && cache.maxCacheSize == max
    ensures var n := cache.current[1];
      n != null && n.crc == k && (n in cache.textures <==> Different(keys) < max)
  {
    cache := new TextureCache(max);
    cache.Update(1, Normal, false, k, width, height);
    PlayUnit0(cache, keys, width, height);
    cache.UnitListedExactly(1);
    StaysUntouched(k, width, height, cache.log[1..], max);
    SameCount(Keys(cache.log[1..]), keys);
  }

  /** For every limit, as many misses of unit 0 drop the texture that unit 1 still points to. */
  method DropForeignTexture(max: nat, width: nat, height: nat) returns (cache: TextureCache)
    requires max >= 1
    ensures cache.Valid() && cache.maxCacheSize == max
    ensures cache.current[1] != null && cache.current[1] !in cache.textures
  {
    var keys := seq(max, (i: nat) => i + 1);
    DistinctCount(keys);
    cache := PlayForeignKeys(max, 0, keys, width, height);
  }

  /**
   * For every limit, unit 0's access of unit 1's key with another size destroys the texture unit 1 still points to,
   * though no other key was accessed and the key is listed. (The code's keys are checksums that take in the size, so
   * this needs two tiles with the same one.)
   */
  method ReplaceForeignTexture(max: nat, k: nat, width: nat, width': nat, height: nat) returns (cache: TextureCache)
    requires max >= 1 && width != width'
    ensures cache.Valid() && cache.maxCacheSize == max && Keys(cache.log) == [k, k] && k in cache.locations
    ensures cache.current[1] != null && cache.current[1].crc == k && cache.current[1] !in cache.textures
  {
    cache := new TextureCache(max);
    cache.Update(1, Normal, false, k, width, height);
    cache.Update(0, Normal, false, k, width', height);
    cache.UnitListedExactly(1);
    assert cache.log[1..] == [Access(k, width', height, false)];
  }

  /** update is done without going to the list: frame buffer modes, unit 1 following unit 0, or an unchanged key. */
  predicate Served(mode: TextureMode, t: nat, replaceTex1: bool, current: seq<CachedTexture?>, crc: nat)
    requires |current| == 2 && t < 2
  {
    match mode
    case FrameBuffer(_) => true
    case Background => false
    case Normal =>
      if t == 1 && replaceTex1 then current[0] != null
      else current[t] != null && current[t].crc == crc
  }

  /** In frame buffer mode the texture of the buffer, if there is one. */
  datatype TextureMode = Normal | Background | FrameBuffer(texture: CachedTexture?)

  lemma ListedIfIndexed(textures: seq<CachedTexture>, locations: map<nat, CachedTexture>, crc: nat)
    requires Indexed(textures, locations) && crc !in Crcs(textures)
    ensures crc !in locations
  {
  }

  lemma NotListed(textures: seq<CachedTexture>, locations: map<nat, CachedTexture>, crc: nat)
    requires Indexed(textures, locations) && crc !in locations
    ensures crc !in Crcs(textures)
  {
  }
}
