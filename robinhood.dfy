/**
 * The fixed-capacity Robin Hood hash table of hash-table/ps-robinhood.h
 * and hash-table/cs-robinhood.h.  The two headers are the same code over
 * two key types (a packed string compared word by word, a C string
 * compared with strcmp); both are this one class over a key type K with
 * the key hash as a parameter.
 *
 * A slot is empty when its fingerprint is 0.  Keys are placed by linear
 * probing from their ideal slot (hash & mask); a key being inserted takes
 * the slot of a resident that is nearer its own ideal slot and carries that
 * resident on (the swap), and deletion shifts the following residents
 * back by one.  The model keeps the abstract map (`contents`) and where
 * each key sits (`pos`) as ghost state beside the slot array.
 *
 * Index arithmetic: `x & mask` with mask = capacity - 1 and a power-of-two
 * capacity is the remainder of x by the capacity, and is written so.
 */
module RobinHood {

  /** psrh_slot / csrh_slot: a fingerprint (0 = empty), a key and a value. */
  datatype Slot<K> = Slot(fp: bv16, key: K, value: bv64)

  predicate Full<K>(x: Slot<K>) {
    x.fp != 0
  }

  // ---------------------------------------------------------------------
  // Fingerprints, ideal slots, probe distances

  /** psrh_fp / csrh_fp: the low 16 bits of the hash, with 0 replaced by 1. */
  function Fingerprint(h: bv64): (f: bv16)
    ensures f != 0
    ensures (h & 0xFFFF) != 0 ==> f as bv64 == h & 0xFFFF
  {
    var f := (h & 0xFFFF) as bv16;
    if f != 0 then f else 1
  }

  /** The ideal slot of a key: hash & mask, that is hash mod capacity. */
  function Home<K>(hash: K -> bv64, k: K, n: nat): (i: nat)
    requires n > 0
    ensures i < n
  {
    (hash(k) as int) % n
  }

  /** (idx + 1) & mask: the next slot, wrapping at the end. */
  function Next(i: nat, n: nat): (j: nat)
    requires i < n
    ensures j < n
  {
    if i + 1 < n then i + 1 else 0
  }

  /** The slot before i, wrapping at the start. */
  function Prev(i: nat, n: nat): (j: nat)
    requires i < n
    ensures j < n
  {
    if i == 0 then n - 1 else i - 1
  }

  /** The slot t steps after home, wrapping once. */
  function At(home: nat, t: nat, n: nat): (i: nat)
    requires home < n && t <= n
    ensures i < n
  {
    if home + t < n then home + t else home + t - n
  }

  /**
   * psrh_probe_distance / csrh_probe_distance:
   * (slot + capacity - ideal) & mask, the number of steps from the ideal
   * slot forward to slot.
   */
  function ProbeDistance(slot: nat, ideal: nat, n: nat): (d: nat)
    requires slot < n && ideal < n
    ensures d < n
    ensures At(ideal, d, n) == slot
  {
    if slot >= ideal then slot - ideal else slot + n - ideal
  }

  /** Stepping t slots from home and measuring back gives t. */
  lemma DistanceOfAt(home: nat, t: nat, n: nat)
    requires home < n && t < n
    ensures ProbeDistance(At(home, t, n), home, n) == t
  {}

  /** One more step from At(home, t) is At(home, t + 1). */
  lemma NextOfAt(home: nat, t: nat, n: nat)
    requires home < n && t < n
    ensures Next(At(home, t, n), n) == At(home, t + 1, n) || (t + 1 == n && Next(At(home, t, n), n) == home)
  {}

  /** The slot before At(home, t + 1) is At(home, t). */
  lemma PrevOfAt(home: nat, t: nat, n: nat)
    requires home < n && t + 1 < n
    ensures Prev(At(home, t + 1, n), n) == At(home, t, n)
  {}

  lemma PrevOfNext(i: nat, n: nat)
    requires i < n
    ensures Prev(Next(i, n), n) == i
  {}

  /** The probe distance of the key in slot i from its ideal slot. */
  function Dist<K>(s: seq<Slot<K>>, hash: K -> bv64, i: nat): (d: nat)
    requires i < |s|
    ensures d < |s|
  {
    ProbeDistance(i, Home(hash, s[i].key, |s|), |s|)
  }

  // ---------------------------------------------------------------------
  // The table invariant on the slot sequence

  /** Every full slot holds the fingerprint of its key's hash. */
  ghost predicate Fingerprinted<K>(s: seq<Slot<K>>, hash: K -> bv64) {
    forall i | 0 <= i < |s| && Full(s[i]) :: s[i].fp == Fingerprint(hash(s[i].key))
  }

  /**
   * The slots and the abstract map agree: every full slot's key is mapped
   * to that slot's value and recorded at that slot, and every key of the
   * map sits, full, at its recorded slot.  Keys are therefore distinct.
   */
  ghost predicate Stores<K>(s: seq<Slot<K>>, m: map<K, bv64>, pos: map<K, nat>) {
    && m.Keys == pos.Keys
    && (forall i | 0 <= i < |s| && Full(s[i]) ::
          s[i].key in m && m[s[i].key] == s[i].value && pos[s[i].key] == i)
    && (forall k | k in pos :: pos[k] < |s| && Full(s[pos[k]]) && s[pos[k]].key == k)
  }

  /**
   * The Robin Hood invariant, slot by slot: a full slot whose key is not in
   * its ideal slot follows a full slot whose key is at most one step
   * nearer its own ideal slot.
   */
  ghost predicate RobinHoodOrder<K>(s: seq<Slot<K>>, hash: K -> bv64) {
    forall j | 0 <= j < |s| :: OrderedAt(s, hash, j)
  }

  /** The Robin Hood invariant at slot j. */
  ghost predicate OrderedAt<K>(s: seq<Slot<K>>, hash: K -> bv64, j: nat)
    requires j < |s|
  {
    Full(s[j]) && Dist(s, hash, j) > 0 ==>
      Full(s[Prev(j, |s|)]) && Dist(s, hash, Prev(j, |s|)) + 1 >= Dist(s, hash, j)
  }

  /**
   * The probe path of a key with ideal slot home, up to distance d: each
   * of the first d slots is full and holds a key at least as far from its
   * own ideal slot as that slot is from home.
   */
  ghost predicate PathFull<K>(s: seq<Slot<K>>, hash: K -> bv64, home: nat, d: nat)
    requires home < |s| && d <= |s|
  {
    forall t | 0 <= t < d :: Full(s[At(home, t, |s|)]) && Dist(s, hash, At(home, t, |s|)) >= t
  }

  /** The whole invariant of the slots. */
  ghost predicate Good<K>(s: seq<Slot<K>>, hash: K -> bv64, m: map<K, bv64>, pos: map<K, nat>) {
    |s| > 0 && Fingerprinted(s, hash) && Stores(s, m, pos) && RobinHoodOrder(s, hash)
  }

  /**
   * The Robin Hood order gives every key a full probe path: the slots from
   * its ideal slot up to it are full and none of their keys is nearer its
   * ideal slot than the probe is.
   */
  lemma {:induction false} PathBack<K>(s: seq<Slot<K>>, hash: K -> bv64, home: nat, t: nat)
    requires home < |s| && t < |s| && RobinHoodOrder(s, hash)
    requires Full(s[At(home, t, |s|)]) && Dist(s, hash, At(home, t, |s|)) >= t
    ensures PathFull(s, hash, home, t)
  {
    if t > 0 {
      PrevOnPath(s, hash, home, t);
      PathBack(s, hash, home, t - 1);
      PathExtend(s, hash, home, t - 1);
    }
  }

  /** The slot before a probe-path slot at step t > 0 is on the path at step t - 1. */
  lemma PrevOnPath<K>(s: seq<Slot<K>>, hash: K -> bv64, home: nat, t: nat)
    requires home < |s| && 0 < t < |s| && RobinHoodOrder(s, hash)
    requires Full(s[At(home, t, |s|)]) && Dist(s, hash, At(home, t, |s|)) >= t
    ensures Full(s[At(home, t - 1, |s|)]) && Dist(s, hash, At(home, t - 1, |s|)) >= t - 1
  {
    PrevOfAt(home, t - 1, |s|);
    assert OrderedAt(s, hash, At(home, t, |s|));
  }

  /** A path of length t followed by a good slot at step t is a path of length t + 1. */
  lemma PathExtend<K>(s: seq<Slot<K>>, hash: K -> bv64, home: nat, t: nat)
    requires home < |s| && t < |s| && PathFull(s, hash, home, t)
    requires Full(s[At(home, t, |s|)]) && Dist(s, hash, At(home, t, |s|)) >= t
    ensures PathFull(s, hash, home, t + 1)
  {}

  /** The probe path of the key in a full slot p. */
  lemma PathOf<K>(s: seq<Slot<K>>, hash: K -> bv64, p: nat)
    requires p < |s| && RobinHoodOrder(s, hash) && Full(s[p])
    ensures PathFull(s, hash, Home(hash, s[p].key, |s|), Dist(s, hash, p))
  {
    PathBack(s, hash, Home(hash, s[p].key, |s|), Dist(s, hash, p));
  }

  // ---------------------------------------------------------------------
  // Lookup facts

  /**
   * A probe for key that has gone dist steps without meeting it, and then
   * meets an empty slot or a key nearer its ideal slot than dist, has
   * proved the key absent: the early exit of the lookup loops.
   */
  lemma ProbeStops<K>(s: seq<Slot<K>>, hash: K -> bv64, m: map<K, bv64>, pos: map<K, nat>, key: K, dist: nat)
    requires Good(s, hash, m, pos) && dist <= |s|
    requires key in m ==> dist <= Dist(s, hash, pos[key])
    requires dist < |s| ==>
      var q := At(Home(hash, key, |s|), dist, |s|);
      !Full(s[q]) || (s[q].key != key && Dist(s, hash, q) < dist)
    ensures key !in m
  {
    if key in m {
      KeyOnPath(s, hash, m, pos, key);
    }
  }

  /** A stored key sits Dist steps from its ideal slot, every slot before it on the path full. */
  lemma KeyOnPath<K>(s: seq<Slot<K>>, hash: K -> bv64, m: map<K, bv64>, pos: map<K, nat>, key: K)
    requires Good(s, hash, m, pos) && key in m
    ensures At(Home(hash, key, |s|), Dist(s, hash, pos[key]), |s|) == pos[key]
    ensures PathFull(s, hash, Home(hash, key, |s|), Dist(s, hash, pos[key]))
  {
    PathOf(s, hash, pos[key]);
  }

  /** A probe that meets a full slot with another key goes on without passing the key. */
  lemma ProbeGoesOn<K>(s: seq<Slot<K>>, hash: K -> bv64, m: map<K, bv64>, pos: map<K, nat>, key: K, dist: nat)
    requires Good(s, hash, m, pos) && dist < |s|
    requires key in m ==> dist <= Dist(s, hash, pos[key])
    requires s[At(Home(hash, key, |s|), dist, |s|)].key != key
    ensures key in m ==> dist + 1 <= Dist(s, hash, pos[key])
  {
    if key in m {
      var p := pos[key];
      assert At(Home(hash, key, |s|), Dist(s, hash, p), |s|) == p;
    }
  }

  /**
   * The state of a lookup probe: step dist of key's probe path, and no
   * step before it held the key.
   */
  ghost predicate Probing<K>(s: seq<Slot<K>>, hash: K -> bv64, m: map<K, bv64>, pos: map<K, nat>, key: K, idx: nat, dist: nat)
  {
    && Good(s, hash, m, pos) && dist <= |s|
    && idx == At(Home(hash, key, |s|), dist, |s|)
    && (key in m ==> dist <= Dist(s, hash, pos[key]))
  }

  /** A probe that passes a full slot with another key, not nearer its ideal slot, goes on. */
  lemma ProbeStep<K>(s: seq<Slot<K>>, hash: K -> bv64, m: map<K, bv64>, pos: map<K, nat>, key: K,
                     idx: nat, dist: nat, idx': nat, dist': nat)
    requires Probing(s, hash, m, pos, key, idx, dist)
    requires idx < |s| && Full(s[idx]) && s[idx].key != key && dist <= Dist(s, hash, idx)
    requires idx' == Next(idx, |s|) && dist' == dist + 1
    ensures Probing(s, hash, m, pos, key, idx', dist')
  {
    assert dist < |s|;
    ProbeGoesOn(s, hash, m, pos, key, dist);
    NextOfAt(Home(hash, key, |s|), dist, |s|);
  }

  /** A probe that meets an empty slot, or a key nearer its ideal slot, ends with the key absent. */
  lemma ProbeEnd<K>(s: seq<Slot<K>>, hash: K -> bv64, m: map<K, bv64>, pos: map<K, nat>, key: K, idx: nat, dist: nat)
    requires Probing(s, hash, m, pos, key, idx, dist) && idx < |s|
    requires !Full(s[idx]) || (s[idx].key != key && Dist(s, hash, idx) < dist)
    ensures key !in m
  {
    ProbeStops(s, hash, m, pos, key, dist);
  }

  /** A full slot holding key is where the map records it. */
  lemma ProbeFinds<K>(s: seq<Slot<K>>, hash: K -> bv64, m: map<K, bv64>, pos: map<K, nat>, key: K, q: nat)
    requires Good(s, hash, m, pos) && q < |s| && Full(s[q]) && s[q].key == key
    ensures key in m && pos[key] == q && m[key] == s[q].value
  {}

  /** The fingerprint test never rejects the slot holding the key. */
  lemma FingerprintOfKey<K>(s: seq<Slot<K>>, hash: K -> bv64, m: map<K, bv64>, pos: map<K, nat>, key: K, q: nat)
    requires Good(s, hash, m, pos) && q < |s| && Full(s[q]) && s[q].key == key
    ensures s[q].fp == Fingerprint(hash(key))
  {}

  // ---------------------------------------------------------------------
  // Slot-level facts

  /** Writing slot idx leaves the order at j alone when neither j nor the slot before it is idx. */
  lemma OrderedAtUnchanged<K>(s: seq<Slot<K>>, hash: K -> bv64, idx: nat, x: Slot<K>, j: nat)
    requires idx < |s| && j < |s| && j != idx && Prev(j, |s|) != idx
    ensures OrderedAt(s[idx := x], hash, j) == OrderedAt(s, hash, j)
  {
    assert s[idx := x][j] == s[j];
    assert s[idx := x][Prev(j, |s|)] == s[Prev(j, |s|)];
  }

  /** Only the slot after i has i as its predecessor. */
  lemma PrevIs(i: nat, j: nat, n: nat)
    requires i < n && j < n && Prev(j, n) == i
    ensures j == Next(i, n)
  {}

  /** Stepping back from a slot that is not the key's ideal slot brings it one step nearer. */
  lemma PrevDistance(slot: nat, home: nat, n: nat)
    requires slot < n && home < n && ProbeDistance(slot, home, n) > 0
    ensures ProbeDistance(Prev(slot, n), home, n) + 1 == ProbeDistance(slot, home, n)
  {}

  /** Stepping forward from any slot but e brings the probe one step nearer e. */
  lemma CloserTo(e: nat, i: nat, n: nat)
    requires e < n && i < n && i != e
    ensures ProbeDistance(e, Next(i, n), n) + 1 == ProbeDistance(e, i, n)
  {}

  /** A full probe path stops short of an empty slot. */
  lemma PathBeforeEmpty<K>(s: seq<Slot<K>>, hash: K -> bv64, home: nat, d: nat, e: nat)
    requires home < |s| && d <= |s| && PathFull(s, hash, home, d)
    requires e < |s| && !Full(s[e])
    ensures d <= ProbeDistance(e, home, |s|)
  {
    var t := ProbeDistance(e, home, |s|);
    assert At(home, t, |s|) == e;
  }

  // ---------------------------------------------------------------------
  // An empty slot exists below full load

  lemma SubsetSize<T>(a: set<T>, b: set<T>)
    requires a <= b
    ensures |a| <= |b|
  {
    assert b == a + (b - a);
  }

  /** The keys of the first n slots. */
  ghost function KeysUpTo<K>(s: seq<Slot<K>>, n: nat): set<K>
    requires n <= |s|
  {
    set i | 0 <= i < n :: s[i].key
  }

  /** Full slots hold distinct keys, so n full slots hold n keys. */
  lemma {:induction false} KeysUpToSize<K>(s: seq<Slot<K>>, m: map<K, bv64>, pos: map<K, nat>, n: nat)
    requires Stores(s, m, pos) && n <= |s|
    requires forall i | 0 <= i < n :: Full(s[i])
    ensures |KeysUpTo(s, n)| == n && KeysUpTo(s, n) <= m.Keys
  {
    if n > 0 {
      KeysUpToSize(s, m, pos, n - 1);
      forall i | 0 <= i < n - 1
        ensures s[i].key != s[n - 1].key
      {
        assert pos[s[i].key] == i && pos[s[n - 1].key] == n - 1;
      }
      assert s[n - 1].key !in KeysUpTo(s, n - 1);
      assert KeysUpTo(s, n) == KeysUpTo(s, n - 1) + {s[n - 1].key};
    }
  }

  /** Fewer keys than slots leaves a slot empty. */
  lemma EmptySlot<K>(s: seq<Slot<K>>, hash: K -> bv64, m: map<K, bv64>, pos: map<K, nat>) returns (e: nat)
    requires Good(s, hash, m, pos) && |m| < |s|
    ensures e < |s| && !Full(s[e])
  {
    if forall i | 0 <= i < |s| :: Full(s[i]) {
      KeysUpToSize(s, m, pos, |s|);
      SubsetSize(KeysUpTo(s, |s|), m.Keys);
      assert false;
    }
    e :| 0 <= e < |s| && !Full(s[e]);
  }

  // ---------------------------------------------------------------------
  // Insertion facts

  /**
   * Writing a key into the slot at step dist of its probe path keeps the
   * order when the slot was empty or held a key nearer its ideal slot.
   */
  lemma PlaceOrder<K>(s: seq<Slot<K>>, hash: K -> bv64, x: Slot<K>, idx: nat, dist: nat)
    requires RobinHoodOrder(s, hash) && Full(x)
    requires dist < |s| && idx == At(Home(hash, x.key, |s|), dist, |s|)
    requires PathFull(s, hash, Home(hash, x.key, |s|), dist)
    requires !Full(s[idx]) || Dist(s, hash, idx) < dist
    ensures RobinHoodOrder(s[idx := x], hash)
  {
    var s' := s[idx := x];
    var home := Home(hash, x.key, |s|);
    DistanceOfAt(home, dist, |s|);
    forall j | 0 <= j < |s|
      ensures OrderedAt(s', hash, j)
    {
      if j == idx {
        if dist > 0 {
          PrevOfAt(home, dist - 1, |s|);
        }
      } else if Prev(j, |s|) == idx {
        assert OrderedAt(s, hash, j);
      } else {
        assert OrderedAt(s, hash, j);
        OrderedAtUnchanged(s, hash, idx, x, j);
      }
    }
  }

  /** Writing an absent key into the empty slot that ends its probe path keeps the invariant. */
  lemma PlaceEmpty<K>(s: seq<Slot<K>>, hash: K -> bv64, m: map<K, bv64>, pos: map<K, nat>,
                      key: K, fp: bv16, value: bv64, idx: nat, dist: nat)
    requires Good(s, hash, m, pos) && key !in m
    requires dist < |s| && idx == At(Home(hash, key, |s|), dist, |s|) && !Full(s[idx])
    requires PathFull(s, hash, Home(hash, key, |s|), dist)
    requires fp == Fingerprint(hash(key))
    ensures Good(s[idx := Slot(fp, key, value)], hash, m[key := value], pos[key := idx])
  {
    PlaceOrder(s, hash, Slot(fp, key, value), idx, dist);
  }

  /** Replacing the value of a stored key keeps the invariant. */
  lemma PlaceMatch<K>(s: seq<Slot<K>>, hash: K -> bv64, m: map<K, bv64>, pos: map<K, nat>,
                      key: K, value: bv64, idx: nat)
    requires Good(s, hash, m, pos) && idx < |s| && Full(s[idx]) && s[idx].key == key
    ensures Good(s[idx := s[idx].(value := value)], hash, m[key := value], pos)
  {
    var s' := s[idx := s[idx].(value := value)];
    forall j | 0 <= j < |s|
      ensures OrderedAt(s', hash, j)
    {
      assert OrderedAt(s, hash, j);
      assert s'[j].key == s[j].key && Full(s'[j]) == Full(s[j]);
      assert s'[Prev(j, |s|)].key == s[Prev(j, |s|)].key && Full(s'[Prev(j, |s|)]) == Full(s[Prev(j, |s|)]);
    }
  }

  /**
   * The swap: a key that has come further than the resident of slot idx
   * takes the slot, and the table without the resident keeps the invariant.
   */
  lemma SwapGood<K>(s: seq<Slot<K>>, hash: K -> bv64, m: map<K, bv64>, pos: map<K, nat>,
                    key: K, fp: bv16, value: bv64, idx: nat, dist: nat)
    requires Good(s, hash, m, pos) && key !in m
    requires dist < |s| && idx == At(Home(hash, key, |s|), dist, |s|) && Full(s[idx])
    requires PathFull(s, hash, Home(hash, key, |s|), dist)
    requires fp == Fingerprint(hash(key)) && Dist(s, hash, idx) < dist
    ensures Good(s[idx := Slot(fp, key, value)], hash,
                 (m - {s[idx].key})[key := value], (pos - {s[idx].key})[key := idx])
  {
    PlaceOrder(s, hash, Slot(fp, key, value), idx, dist);
    SwapStores(s, hash, m, pos, key, fp, value, idx);
  }

  /** The slots after the swap store the map without the resident, with the new key. */
  lemma SwapStores<K>(s: seq<Slot<K>>, hash: K -> bv64, m: map<K, bv64>, pos: map<K, nat>,
                      key: K, fp: bv16, value: bv64, idx: nat)
    requires Fingerprinted(s, hash) && Stores(s, m, pos) && key !in m
    requires idx < |s| && Full(s[idx]) && fp == Fingerprint(hash(key))
    ensures Fingerprinted(s[idx := Slot(fp, key, value)], hash)
    ensures Stores(s[idx := Slot(fp, key, value)], (m - {s[idx].key})[key := value], (pos - {s[idx].key})[key := idx])
  {
    var y := s[idx].key;
    var s' := s[idx := Slot(fp, key, value)];
    var m' := (m - {y})[key := value];
    var pos' := (pos - {y})[key := idx];
    forall i | 0 <= i < |s| && Full(s'[i])
      ensures s'[i].key in m' && m'[s'[i].key] == s'[i].value && pos'[s'[i].key] == i
    {
      if i != idx {
        assert s'[i] == s[i] && pos[s[i].key] == i;
      }
    }
  }

  /** After the swap the displaced resident's probe path runs one step past its old slot. */
  lemma SwapPath<K>(s: seq<Slot<K>>, hash: K -> bv64, x: Slot<K>, idx: nat, dist: nat)
    requires RobinHoodOrder(s, hash) && idx < |s| && Full(s[idx]) && Full(x)
    requires dist < |s| && idx == At(Home(hash, x.key, |s|), dist, |s|) && Dist(s, hash, idx) < dist
    ensures PathFull(s[idx := x], hash, Home(hash, s[idx].key, |s|), Dist(s, hash, idx) + 1)
  {
    var s' := s[idx := x];
    var hy := Home(hash, s[idx].key, |s|);
    var d := Dist(s, hash, idx);
    PathOf(s, hash, idx);
    DistanceOfAt(Home(hash, x.key, |s|), dist, |s|);
    assert Dist(s', hash, idx) == dist;
    forall t | 0 <= t < d + 1
      ensures Full(s'[At(hy, t, |s|)]) && Dist(s', hash, At(hy, t, |s|)) >= t
    {
      DistanceOfAt(hy, t, |s|);
      if t < d {
        assert s'[At(hy, t, |s|)] == s[At(hy, t, |s|)];
      }
    }
  }

  /** The abstract map after the swap, with the resident added back, is the map being built. */
  lemma SwapMaps<K>(m: map<K, bv64>, key: K, value: bv64, y: K, yv: bv64)
    requires y in m && m[y] == yv && key != y
    ensures y !in (m - {y})[key := value]
    ensures ((m - {y})[key := value])[y := yv] == m[key := value]
  {}

  /** The key positions after the swap: the resident y leaves, k arrives at i. */
  function Relocated<K>(pos: map<K, nat>, y: K, k: K, i: nat): map<K, nat> {
    (pos - {y})[k := i]
  }

  /**
   * The state of the insertion loop: the slots keep the invariant for the
   * map built so far, e is empty, and the carried key has come dist steps
   * from its ideal slot to idx over a full probe path.
   */
  ghost predicate Carrying<K>(s: seq<Slot<K>>, hash: K -> bv64, m: map<K, bv64>, pos: map<K, nat>,
                              k: K, fp: bv16, idx: nat, dist: nat, e: nat) {
    && Good(s, hash, m, pos) && e < |s| && !Full(s[e])
    && dist < |s| && idx == At(Home(hash, k, |s|), dist, |s|)
    && PathFull(s, hash, Home(hash, k, |s|), dist)
    && fp == Fingerprint(hash(k))
  }

  /** The carried key passes a resident at least as far from its ideal slot. */
  lemma Advance<K>(s: seq<Slot<K>>, hash: K -> bv64, m: map<K, bv64>, pos: map<K, nat>,
                   k: K, fp: bv16, idx: nat, dist: nat, e: nat)
    requires Carrying(s, hash, m, pos, k, fp, idx, dist, e)
    requires Full(s[idx]) && Dist(s, hash, idx) >= dist
    ensures Carrying(s, hash, m, pos, k, fp, Next(idx, |s|), dist + 1, e)
    ensures ProbeDistance(e, Next(idx, |s|), |s|) < ProbeDistance(e, idx, |s|)
  {
    var home := Home(hash, k, |s|);
    PathExtend(s, hash, home, dist);
    PathBeforeEmpty(s, hash, home, dist + 1, e);
    NextOfAt(home, dist, |s|);
    CloserTo(e, idx, |s|);
  }

  /**
   * The carried key takes the slot of a resident nearer its ideal slot;
   * the resident is carried on from the next slot.
   */
  lemma SwapStep<K>(s: seq<Slot<K>>, hash: K -> bv64, m: map<K, bv64>, pos: map<K, nat>,
                    k: K, fp: bv16, v: bv64, idx: nat, dist: nat, e: nat)
    requires Carrying(s, hash, m, pos, k, fp, idx, dist, e) && k !in m
    requires Full(s[idx]) && Dist(s, hash, idx) < dist
    ensures Carrying(s[idx := Slot(fp, k, v)], hash, (m - {s[idx].key})[k := v], Relocated(pos, s[idx].key, k, idx),
                     s[idx].key, s[idx].fp, Next(idx, |s|), Dist(s, hash, idx) + 1, e)
    ensures s[idx].key !in (m - {s[idx].key})[k := v]
    ensures ((m - {s[idx].key})[k := v])[s[idx].key := s[idx].value] == m[k := v]
    ensures ProbeDistance(e, Next(idx, |s|), |s|) < ProbeDistance(e, idx, |s|)
  {
    var y := s[idx];
    var s' := s[idx := Slot(fp, k, v)];
    var hy := Home(hash, y.key, |s|);
    var d := Dist(s, hash, idx);
    SwapGood(s, hash, m, pos, k, fp, v, idx, dist);
    SwapPath(s, hash, Slot(fp, k, v), idx, dist);
    SwapMaps(m, k, v, y.key, y.value);
    assert s'[e] == s[e];
    PathBeforeEmpty(s', hash, hy, d + 1, e);
    assert At(hy, d, |s|) == idx;
    NextOfAt(hy, d, |s|);
    CloserTo(e, idx, |s|);
  }

  /**
   * The whole state of the insertion of key -> value into the map m0: the
   * carried entry k -> v completes the map built so far to m0[key := value];
   * while key itself is carried it has not been passed, and once another
   * key is carried, key was absent from m0.
   */
  ghost predicate Inserting<K>(s: seq<Slot<K>>, hash: K -> bv64, m0: map<K, bv64>, key: K, value: bv64,
                               m: map<K, bv64>, pos: map<K, nat>, k: K, v: bv64, fp: bv16,
                               idx: nat, dist: nat, e: nat) {
    && Carrying(s, hash, m, pos, k, fp, idx, dist, e)
    && m[k := v] == m0[key := value]
    && (k in m ==> m == m0 && k == key && dist <= Dist(s, hash, pos[k]))
    && (k !in m ==> key !in m0)
  }

  /** The probe passes a resident with another key that is at least as far from its ideal slot. */
  lemma InsertAdvance<K>(s: seq<Slot<K>>, hash: K -> bv64, m0: map<K, bv64>, key: K, value: bv64,
                         m: map<K, bv64>, pos: map<K, nat>, k: K, v: bv64, fp: bv16,
                         idx: nat, dist: nat, e: nat, idx': nat, dist': nat)
    requires Inserting(s, hash, m0, key, value, m, pos, k, v, fp, idx, dist, e)
    requires Full(s[idx]) && (s[idx].fp != fp || s[idx].key != k) && Dist(s, hash, idx) >= dist
    requires idx' == Next(idx, |s|) && dist' == dist + 1
    ensures Inserting(s, hash, m0, key, value, m, pos, k, v, fp, idx', dist', e)
    ensures ProbeDistance(e, idx', |s|) < ProbeDistance(e, idx, |s|)
  {
    FingerprintOfSlot(s, hash, m, pos, k, idx);
    ProbeGoesOn(s, hash, m, pos, k, dist);
    Advance(s, hash, m, pos, k, fp, idx, dist, e);
  }

  /** The probe swaps the carried entry with a resident nearer its ideal slot. */
  lemma InsertSwap<K>(s: seq<Slot<K>>, hash: K -> bv64, m0: map<K, bv64>, key: K, value: bv64,
                      m: map<K, bv64>, pos: map<K, nat>, k: K, v: bv64, fp: bv16,
                      idx: nat, dist: nat, e: nat,
                      s': seq<Slot<K>>, m': map<K, bv64>, pos': map<K, nat>, k': K, v': bv64, fp': bv16,
                      idx': nat, dist': nat)
    requires Inserting(s, hash, m0, key, value, m, pos, k, v, fp, idx, dist, e)
    requires Full(s[idx]) && (s[idx].fp != fp || s[idx].key != k) && Dist(s, hash, idx) < dist
    requires s' == s[idx := Slot(fp, k, v)]
    requires m' == (m - {s[idx].key})[k := v] && pos' == Relocated(pos, s[idx].key, k, idx)
    requires k' == s[idx].key && v' == s[idx].value && fp' == s[idx].fp
    requires idx' == Next(idx, |s|) && dist' == Dist(s, hash, idx) + 1
    ensures Inserting(s', hash, m0, key, value, m', pos', k', v', fp', idx', dist', e)
    ensures ProbeDistance(e, idx', |s|) < ProbeDistance(e, idx, |s|)
  {
    FingerprintOfSlot(s, hash, m, pos, k, idx);
    ProbeStops(s, hash, m, pos, k, dist);
    SwapStep(s, hash, m, pos, k, fp, v, idx, dist, e);
  }

  /** The probe ends at an empty slot: the carried entry goes there, and key was absent. */
  lemma InsertEmpty<K>(s: seq<Slot<K>>, hash: K -> bv64, m0: map<K, bv64>, key: K, value: bv64,
                       m: map<K, bv64>, pos: map<K, nat>, k: K, v: bv64, fp: bv16,
                       idx: nat, dist: nat, e: nat)
    requires Inserting(s, hash, m0, key, value, m, pos, k, v, fp, idx, dist, e)
    requires !Full(s[idx])
    ensures Good(s[idx := Slot(fp, k, v)], hash, m0[key := value], pos[k := idx]) && key !in m0
  {
    ProbeStops(s, hash, m, pos, k, dist);
    PlaceEmpty(s, hash, m, pos, k, fp, v, idx, dist);
  }

  /** The probe ends at key itself: its value is replaced, and key was present. */
  lemma InsertMatch<K>(s: seq<Slot<K>>, hash: K -> bv64, m0: map<K, bv64>, key: K, value: bv64,
                       m: map<K, bv64>, pos: map<K, nat>, k: K, v: bv64, fp: bv16,
                       idx: nat, dist: nat, e: nat)
    requires Inserting(s, hash, m0, key, value, m, pos, k, v, fp, idx, dist, e)
    requires Full(s[idx]) && s[idx].key == k
    ensures Good(s[idx := s[idx].(value := v)], hash, m0[key := value], pos) && key in m0
  {
    ProbeFinds(s, hash, m, pos, k, idx);
    PlaceMatch(s, hash, m, pos, k, v, idx);
  }

  /** Half load with a power-of-two capacity leaves room for one more key. */
  lemma RoomForOne(size: nat, capacity: nat)
    requires IsPowerOfTwo(capacity) && size * 2 < capacity
    ensures HalfLoad(size + 1, capacity) && size < capacity
  {}

  // ---------------------------------------------------------------------
  // Deletion facts

  /** The slots as the backward shift sees them: slot hole emptied (its key and value are left). */
  function Holed<K>(s: seq<Slot<K>>, hole: nat): (t: seq<Slot<K>>)
    requires hole < |s|
    ensures |t| == |s| && !Full(t[hole])
  {
    s[hole := s[hole].(fp := 0)]
  }

  /**
   * Across the hole: when the slot after the hole holds a key two or more
   * steps from its ideal slot, the slot before the hole is full and at
   * most two steps nearer.
   */
  ghost predicate Bridge<K>(t: seq<Slot<K>>, hash: K -> bv64, hole: nat)
    requires hole < |t|
  {
    Full(t[Next(hole, |t|)]) && Dist(t, hash, Next(hole, |t|)) >= 2 ==>
      Full(t[Prev(hole, |t|)]) && Dist(t, hash, Prev(hole, |t|)) + 2 >= Dist(t, hash, Next(hole, |t|))
  }

  /** The Robin Hood order at every slot but x. */
  ghost predicate OrderedExcept<K>(t: seq<Slot<K>>, hash: K -> bv64, x: nat) {
    forall j | 0 <= j < |t| && j != x :: OrderedAt(t, hash, j)
  }

  /**
   * The state of the backward shift: the slots with the hole emptied store
   * the map and keep the order everywhere except just after the hole,
   * which the bridge covers.
   */
  ghost predicate Shifting<K>(s: seq<Slot<K>>, hash: K -> bv64, m: map<K, bv64>, pos: map<K, nat>, hole: nat) {
    && hole < |s| && Full(s[hole])
    && Fingerprinted(Holed(s, hole), hash)
    && Stores(Holed(s, hole), m, pos)
    && OrderedExcept(Holed(s, hole), hash, Next(hole, |s|))
    && Bridge(Holed(s, hole), hash, hole)
  }

  /** Emptying the slot of a stored key starts the backward shift. */
  lemma ShiftStart<K>(s: seq<Slot<K>>, hash: K -> bv64, m: map<K, bv64>, pos: map<K, nat>, key: K)
    requires Good(s, hash, m, pos) && key in m
    ensures Shifting(s, hash, m - {key}, pos - {key}, pos[key])
  {
    var p := pos[key];
    var t := Holed(s, p);
    var n := |s|;
    forall j | 0 <= j < n && j != Next(p, n)
      ensures OrderedAt(t, hash, j)
    {
      if j != p {
        if Prev(j, n) == p {
          PrevIs(p, j, n);
        }
        assert OrderedAt(s, hash, j);
        OrderedAtUnchanged(s, hash, p, s[p].(fp := 0), j);
      }
    }
    var j := Next(p, n);
    if Full(t[j]) && Dist(t, hash, j) >= 2 {
      PrevOfNext(p, n);
      assert OrderedAt(s, hash, j);
      assert OrderedAt(s, hash, p);
    }
    assert Bridge(t, hash, p);
  }

  /** Moving the key after the hole back into it moves the hole one slot on. */
  lemma ShiftStep<K>(s: seq<Slot<K>>, hash: K -> bv64, m: map<K, bv64>, pos: map<K, nat>, hole: nat, e: nat)
    requires Shifting(s, hash, m, pos, hole)
    requires Full(s[Next(hole, |s|)]) && Dist(s, hash, Next(hole, |s|)) != 0
    requires e < |s| && e != hole && !Full(s[e])
    ensures Shifting(s[hole := s[Next(hole, |s|)]], hash, m, pos[s[Next(hole, |s|)].key := hole], Next(hole, |s|))
  {
    var j := Next(hole, |s|);
    ShiftStores(s, hash, m, pos, hole);
    ShiftOrder(s, hash, hole, e);
  }

  /** The moved key is stored at the old hole, and the new hole is where it was. */
  lemma ShiftStores<K>(s: seq<Slot<K>>, hash: K -> bv64, m: map<K, bv64>, pos: map<K, nat>, hole: nat)
    requires hole < |s| && Fingerprinted(Holed(s, hole), hash) && Stores(Holed(s, hole), m, pos)
    requires Next(hole, |s|) != hole && Full(s[Next(hole, |s|)])
    ensures Fingerprinted(Holed(s[hole := s[Next(hole, |s|)]], Next(hole, |s|)), hash)
    ensures Stores(Holed(s[hole := s[Next(hole, |s|)]], Next(hole, |s|)), m, pos[s[Next(hole, |s|)].key := hole])
  {
    var j := Next(hole, |s|);
    var t := Holed(s, hole);
    var t' := Holed(s[hole := s[j]], j);
    var y := s[j].key;
    assert t[j] == s[j];
    forall i | 0 <= i < |s| && Full(t'[i])
      ensures t'[i].key in m && m[t'[i].key] == t'[i].value && pos[y := hole][t'[i].key] == i
    {
      if i != hole {
        assert t'[i] == t[i];
      }
    }
  }

  /** The order across the moved key and the new hole. */
  lemma ShiftOrder<K>(s: seq<Slot<K>>, hash: K -> bv64, hole: nat, e: nat)
    requires hole < |s| && Full(s[Next(hole, |s|)]) && Dist(s, hash, Next(hole, |s|)) != 0
    requires OrderedExcept(Holed(s, hole), hash, Next(hole, |s|))
    requires Bridge(Holed(s, hole), hash, hole)
    requires e < |s| && e != hole && !Full(s[e])
    ensures OrderedExcept(Holed(s[hole := s[Next(hole, |s|)]], Next(hole, |s|)), hash, Next(Next(hole, |s|), |s|))
    ensures Bridge(Holed(s[hole := s[Next(hole, |s|)]], Next(hole, |s|)), hash, Next(hole, |s|))
  {
    var n := |s|;
    var j := Next(hole, n);
    var y := s[j];
    var t := Holed(s, hole);
    var t' := Holed(s[hole := y], j);
    PrevOfNext(hole, n);
    PrevDistance(j, Home(hash, y.key, n), n);
    assert Dist(t', hash, hole) + 1 == Dist(s, hash, j);
    var j2 := Next(j, n);
    PrevOfNext(j, n);
    forall k | 0 <= k < n && k != j2
      ensures OrderedAt(t', hash, k)
    {
      if k == hole {
        if Dist(t', hash, hole) > 0 {
          assert Bridge(t, hash, hole);
          assert t'[Prev(hole, n)] == t[Prev(hole, n)];
        }
      } else if k != j {
        if Prev(k, n) == hole {
          PrevIs(hole, k, n);
        } else if Prev(k, n) == j {
          PrevIs(j, k, n);
        }
        assert OrderedAt(t, hash, k);
        assert t'[k] == t[k] && t'[Prev(k, n)] == t[Prev(k, n)];
      }
    }
    if Full(t'[j2]) && Dist(t', hash, j2) >= 2 {
      assert t'[j2] == t[j2];
      assert OrderedAt(t, hash, j2);
    }
    assert Bridge(t', hash, j);
  }

  /** The shift ends at an empty slot or at a key in its ideal slot, with the invariant whole again. */
  lemma ShiftEnd<K>(s: seq<Slot<K>>, hash: K -> bv64, m: map<K, bv64>, pos: map<K, nat>, hole: nat)
    requires Shifting(s, hash, m, pos, hole)
    requires !Full(s[Next(hole, |s|)]) || Dist(s, hash, Next(hole, |s|)) == 0
    ensures Good(Holed(s, hole), hash, m, pos)
  {
    var t := Holed(s, hole);
    var j := Next(hole, |s|);
    assert OrderedAt(t, hash, j);
    assert RobinHoodOrder(t, hash);
  }

  /** A key removed from a map leaves one entry fewer. */
  lemma RemoveOne<K>(m: map<K, bv64>, key: K)
    requires key in m
    ensures |m - {key}| + 1 == |m|
  {
    assert (m - {key}).Keys == m.Keys - {key};
    assert |m - {key}| == |(m - {key}).Keys|;
  }

  /** A full slot whose fingerprint or key differs from key's does not hold key. */
  lemma FingerprintOfSlot<K>(s: seq<Slot<K>>, hash: K -> bv64, m: map<K, bv64>, pos: map<K, nat>, key: K, q: nat)
    requires Good(s, hash, m, pos) && q < |s| && Full(s[q])
    requires s[q].fp != Fingerprint(hash(key)) || s[q].key != key
    ensures s[q].key != key && s[q].fp == Fingerprint(hash(s[q].key))
  {}

  // ---------------------------------------------------------------------
  // Capacities

  /** A power of two, 1 included. */
  ghost predicate IsPowerOfTwo(n: nat)
    decreases n
  {
    n == 1 || (n >= 2 && n % 2 == 0 && IsPowerOfTwo(n / 2))
  }

  /**
   * The load the table can reach: psrh_set refuses at size * 2 >= capacity,
   * so a table holds at most half its capacity, or its one slot.
   */
  ghost predicate HalfLoad(size: nat, capacity: nat) {
    size * 2 <= capacity || (capacity == 1 && size == 1)
  }

  // ---------------------------------------------------------------------
  // The table

  /** psrh_map / csrh_map. */
  class Table<K(==)> {
    var slots: array<Slot<K>>
    var capacity: nat
    var mask: nat
    var size: nat
    /** The key hash: psrh_hash64 or csrh_hash64. */
    const hash: K -> bv64
    /** The key of zeroed memory (memset): a zero packed string or a NULL pointer. */
    const blank: K
    /** The entries, as a map. */
    ghost var contents: map<K, bv64>
    /** The slot of each key. */
    ghost var pos: map<K, nat>

    ghost predicate Valid()
      reads this, slots
    {
      && slots.Length == capacity && IsPowerOfTwo(capacity) && mask == capacity - 1
      && Good(slots[..], hash, contents, pos)
      && size == |contents|
      && HalfLoad(size, capacity)
    }

    /** A store into one slot. */
    method Write(i: nat, x: Slot<K>)
      requires i < slots.Length
      modifies slots
      ensures slots[..] == old(slots[..])[i := x]
    {
      slots[i] := x;
    }

    /**
     * psrh_init / csrh_init: the capacity is the least power of two at
     * least the request (1 for a request of 0 or 1), every slot is zeroed
     * and the table is empty.
     */
    constructor Init(request: nat, hash: K -> bv64, blank: K)
      ensures Valid() && fresh(slots)
      ensures this.hash == hash && this.blank == blank
      ensures contents == map[] && size == 0
      ensures capacity >= request && (capacity == 1 || capacity / 2 < request)
      ensures forall i | 0 <= i < slots.Length :: slots[i] == Slot(0, blank, 0)
    {
      var cap: nat := 1;
      while cap < request
        invariant IsPowerOfTwo(cap) && (cap == 1 || cap / 2 < request)
        decreases request - cap
      {
        cap := cap * 2;
      }
      this.hash := hash;
      this.blank := blank;
      slots := new Slot<K>[cap](_ => Slot(0, blank, 0));
      capacity := cap;
      mask := cap - 1;
      size := 0;
      contents := map[];
      pos := map[];
    }

    /** psrh_clear / csrh_clear: every slot zeroed, size 0, the capacity kept. */
    method Clear()
      requires Valid()
      modifies this, slots
      ensures Valid() && slots == old(slots) && capacity == old(capacity)
      ensures contents == map[] && size == 0
      ensures forall i | 0 <= i < slots.Length :: slots[i] == Slot(0, blank, 0)
    {
      forall i | 0 <= i < slots.Length {
        slots[i] := Slot(0, blank, 0);
      }
      size := 0;
      contents := map[];
      pos := map[];
    }

    /**
     * The probe loop shared by psrh_get, psrh_contains and psrh_delete:
     * from the ideal slot, stop at an empty slot, at the key, or at a key
     * nearer its ideal slot than the probe is far from the key's.
     */
    method Find(key: K) returns (found: bool, idx: nat)
      requires Valid()
      ensures found <==> key in contents
      ensures found ==> idx == pos[key]
    {
      var h := hash(key);
      var fp := Fingerprint(h);
      idx := (h as int) % capacity;
      var dist: nat := 0;
      ghost var t := slots[..];
      while true
        invariant Probing(t, hash, contents, pos, key, idx, dist)
        decreases capacity - dist
      {
        var s := slots[idx];
        if s.fp == 0 {
          ProbeEnd(t, hash, contents, pos, key, idx, dist);
          return false, idx;
        }
        if s.fp == fp && s.key == key {
          ProbeFinds(t, hash, contents, pos, key, idx);
          return true, idx;
        }
        FingerprintOfKeyAt(key, idx);
        var ideal := (hash(s.key) as int) % capacity;
        if ProbeDistance(idx, ideal, capacity) < dist {
          ProbeEnd(t, hash, contents, pos, key, idx, dist);
          return false, idx;
        }
        ghost var idx0, dist0 := idx, dist;
        idx, dist := Next(idx, capacity), dist + 1;
        ProbeStep(t, hash, contents, pos, key, idx0, dist0, idx, dist);
      }
    }

    /** A full slot with another fingerprint holds another key. */
    lemma FingerprintOfKeyAt(key: K, q: nat)
      requires Valid() && q < slots.Length && Full(slots[q])
      ensures slots[q].fp != Fingerprint(hash(key)) ==> slots[q].key != key
    {
      if slots[q].key == key {
        FingerprintOfKey(slots[..], hash, contents, pos, key, q);
      }
    }

    /** psrh_get / csrh_get: the value stored under key, if any. */
    method Get(key: K) returns (found: bool, value: bv64)
      requires Valid()
      ensures found <==> key in contents
      ensures found ==> value == contents[key]
    {
      var idx;
      found, idx := Find(key);
      value := 0;
      if found {
        value := slots[idx].value;
      }
    }

    /** psrh_contains / csrh_contains: whether key is stored. */
    method Contains(key: K) returns (found: bool)
      requires Valid()
      ensures found <==> key in contents
    {
      var idx;
      found, idx := Find(key);
    }
  
    /**
     * psrh_set / csrh_set.  A table at half load or more refuses (false,
     * nothing changed), whether or not the key is present: there is no
     * resize.  Otherwise the key's value is replaced, or the key is
     * inserted, displacing residents nearer their ideal slots on the way.
     */
    method Set(key: K, value: bv64) returns (ok: bool)
      requires Valid()
      modifies this, slots
      ensures Valid() && slots == old(slots) && capacity == old(capacity)
      ensures ok <==> old(size) * 2 < old(capacity)
      ensures !ok ==> contents == old(contents) && size == old(size) && slots[..] == old(slots[..])
      ensures ok ==> contents == old(contents)[key := value]
      ensures ok ==> size == if key in old(contents) then old(size) else old(size) + 1
    {
      if size * 2 >= capacity {
        return false;
      }
      RoomForOne(size, capacity);
      ghost var e := EmptySlot(slots[..], hash, contents, pos);
      var grow;
      ghost var m, p;
      grow, m, p := Place(key, value, e);
      Commit(grow, m, p);
      return true;
    }

    /** The bookkeeping after a store: size grows by one for a new key. */
    method Commit(grow: bool, ghost m: map<K, bv64>, ghost p: map<K, nat>)
      requires slots.Length == capacity && IsPowerOfTwo(capacity) && mask == capacity - 1
      requires Good(slots[..], hash, m, p)
      requires |m| == if grow then size + 1 else size
      requires HalfLoad(|m|, capacity)
      modifies this
      ensures Valid() && slots == old(slots) && capacity == old(capacity)
      ensures contents == m && size == |m|
    {
      if grow {
        size := size + 1;
      }
      contents, pos := m, p;
    }

    /**
     * The probe loop of psrh_set / csrh_set below half load: from the key's
     * ideal slot, stop at an empty slot (the carried key goes there) or at
     * the key itself (its value is replaced); a resident nearer its ideal
     * slot than the carried key is far from its own is swapped out and
     * carried on.  e is an empty slot, which bounds the probe.
     */
    method Place(key: K, value: bv64, ghost e: nat) returns (grow: bool, ghost m: map<K, bv64>, ghost p: map<K, nat>)
      requires Valid() && e < capacity && !Full(slots[e])
      modifies slots
      ensures Good(slots[..], hash, m, p) && m == old(contents)[key := value]
      ensures grow <==> key !in old(contents)
    {
      var h := hash(key);
      var fp := Fingerprint(h);
      var idx: nat := (h as int) % capacity;
      var dist: nat := 0;
      var k, v := key, value;
      grow := false;
      ghost var rest: map<K, bv64>, rpos: map<K, nat> := contents, pos;
      while slots[idx].fp != 0 && (slots[idx].fp != fp || slots[idx].key != k)
        modifies slots
        invariant idx < capacity
        invariant Inserting(slots[..], hash, contents, key, value, rest, rpos, k, v, fp, idx, dist, e)
        decreases ProbeDistance(e, idx, capacity)
      {
        ghost var s0, rest0, rpos0 := slots[..], rest, rpos;
        var s := slots[idx];
        var ideal := (hash(s.key) as int) % capacity;
        var sdist := ProbeDistance(idx, ideal, capacity);
        assert sdist == Dist(s0, hash, idx);
        if sdist < dist {
          var k0, v0, fp0, idx0, dist0 := k, v, fp, idx, dist;
          Write(idx, Slot(fp, k, v));
          rest, rpos := (rest - {s.key})[k := v], Relocated(rpos, s.key, k, idx);
          k, v, fp := s.key, s.value, s.fp;
          idx, dist := Next(idx, capacity), sdist + 1;
          InsertSwap(s0, hash, contents, key, value, rest0, rpos0, k0, v0, fp0, idx0, dist0, e,
                     slots[..], rest, rpos, k, v, fp, idx, dist);
        } else {
          var idx0, dist0 := idx, dist;
          idx, dist := Next(idx, capacity), dist + 1;
          InsertAdvance(s0, hash, contents, key, value, rest, rpos, k, v, fp, idx0, dist0, e, idx, dist);
        }
      }
      ghost var s0 := slots[..];
      var s := slots[idx];
      if s.fp == 0 {
        InsertEmpty(s0, hash, contents, key, value, rest, rpos, k, v, fp, idx, dist, e);
        Write(idx, Slot(fp, k, v));
        rest, rpos := contents[key := value], rpos[k := idx];
        grow := true;
      } else {
        InsertMatch(s0, hash, contents, key, value, rest, rpos, k, v, fp, idx, dist, e);
        Write(idx, s.(value := v));
        rest := contents[key := value];
      }
      m, p := rest, rpos;
    }

    /**
     * psrh_delete / csrh_delete: false and nothing changed when the key is
     * absent; otherwise the key is removed and the residents after it are
     * shifted back one slot, up to an empty slot or a resident in its
     * ideal slot.
     */
    method Delete(key: K) returns (found: bool)
      requires Valid()
      modifies this, slots
      ensures Valid() && slots == old(slots) && capacity == old(capacity)
      ensures found <==> key in old(contents)
      ensures contents == old(contents) - {key}
      ensures size == if found then old(size) - 1 else old(size)
      ensures !found ==> slots[..] == old(slots[..])
    {
      var idx;
      found, idx := Find(key);
      if !found {
        return;
      }
      ghost var e: nat := 0;
      if capacity >= 2 {
        e := EmptySlot(slots[..], hash, contents, pos);
      }
      ShiftStart(slots[..], hash, contents, pos, key);
      RemoveOne(contents, key);
      ghost var rpos;
      idx, rpos := ShiftBack(idx, contents - {key}, pos - {key}, e);
      Vacate(idx, contents - {key}, rpos);
    }

    /**
     * The backward shift of psrh_delete / csrh_delete: from the hole, each
     * following resident moves back one slot, up to an empty slot or a
     * resident in its ideal slot; the last slot moved from is the new hole.
     */
    method ShiftBack(hole: nat, ghost m: map<K, bv64>, ghost p: map<K, nat>, ghost e: nat)
      returns (last: nat, ghost p': map<K, nat>)
      requires slots.Length == capacity && Shifting(slots[..], hash, m, p, hole)
      requires capacity >= 2 ==> e < capacity && e != hole && !Full(slots[e])
      modifies slots
      ensures last < slots.Length && Good(Holed(slots[..], last), hash, m, p')
    {
      last, p' := hole, p;
      var next := Next(last, capacity);
      while true
        invariant Shifting(slots[..], hash, m, p', last) && next == Next(last, capacity)
        invariant capacity >= 2 ==> e < capacity && e != last && !Full(slots[e])
        decreases if capacity >= 2 then ProbeDistance(e, next, capacity) else 0
      {
        ghost var s0 := slots[..];
        var s := slots[next];
        if s.fp == 0 {
          break;
        }
        var ideal := (hash(s.key) as int) % capacity;
        if ProbeDistance(next, ideal, capacity) == 0 {
          break;
        }
        ShiftStep(s0, hash, m, p', last, e);
        CloserTo(e, next, capacity);
        Write(last, s);
        p' := p'[s.key := last];
        last := next;
        next := Next(next, capacity);
      }
      ShiftEnd(slots[..], hash, m, p', last);
    }

    /** The end of psrh_delete / csrh_delete: the hole's fingerprint cleared, one entry fewer. */
    method Vacate(hole: nat, ghost m: map<K, bv64>, ghost p: map<K, nat>)
      requires slots.Length == capacity && IsPowerOfTwo(capacity) && mask == capacity - 1
      requires hole < capacity && Good(Holed(slots[..], hole), hash, m, p)
      requires |m| + 1 == size && HalfLoad(size, capacity)
      modifies this, slots
      ensures Valid() && slots == old(slots) && capacity == old(capacity)
      ensures size == old(size) - 1 && contents == m
    {
      ghost var s1 := slots[..];
      Write(hole, slots[hole].(fp := 0));
      size := size - 1;
      contents, pos := m, p;
    }
  }
}
