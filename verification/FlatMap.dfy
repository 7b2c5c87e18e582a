/** The open-addressing map with linear probing: it is a finite map of bounded size. The probing is
    stated for any hash function; `Fibonacci` holds the one the program uses. */
module FlatMap {
  import opened Bits
  import opened Options

  datatype Slot<V> = Slot(key: U64, val: Option<V>, used: bool)

  type Hash = U64 -> nat

  type Table<V> = seq<Slot<V>>

  ghost predicate InRange(hash: Hash, cap: nat) {
    forall k :: hash(k) < cap
  }

  // ------------------------------------------------------------- positions

  /** The position of the `p`-th probe from `h`, cyclically. */
  function At(cap: nat, h: nat, p: nat): (i: nat)
    requires h < cap && p < cap
    ensures i < cap
  {
    if h + p < cap then h + p else h + p - cap
  }

  /** The probe that meets position `i`. */
  function Distance(cap: nat, h: nat, i: nat): (p: nat)
    requires h < cap && i < cap
    ensures p < cap && At(cap, h, p) == i
  {
    if h <= i then i - h else i + cap - h
  }

  /** `(i + 1) & kMask` */
  lemma NextPosition(cap: nat, h: nat, p: nat)
    requires IsCapacity(cap) && cap < W && h < cap && p < cap
    ensures BitAnd(At(cap, h, p) + 1, cap - 1) == if p + 1 < cap then At(cap, h, p + 1) else h
  {
    MaskedIndex(cap, At(cap, h, p) + 1);
  }

  // ------------------------------------------------------------- one probe sequence

  /** The slot a probe for `key` stops at: unused, or its own. */
  predicate Stops<V>(s: Slot<V>, key: U64) {
    !s.used || s.key == key
  }

  /** Number of probes from the `p`-th on until one stops; `|t|` when none does. */
  function Probe<V>(t: Table<V>, key: U64, h: nat, p: nat): (r: nat)
    requires h < |t| && p <= |t|
    ensures p <= r <= |t|
    ensures r < |t| ==> Stops(t[At(|t|, h, r)], key)
    ensures forall q :: p <= q < r ==> !Stops(t[At(|t|, h, q)], key)
    decreases |t| - p
  {
    if p == |t| || Stops(t[At(|t|, h, p)], key) then p else Probe(t, key, h, p + 1)
  }

  function PutNow<V>(hash: Hash, t: Table<V>, key: U64, val: V): (Table<V>, bool)
    requires hash(key) < |t|
  {
    var p := Probe(t, key, hash(key), 0);
    if p == |t| then (t, false) else (t[At(|t|, hash(key), p) := Slot(key, Some(val), true)], true)
  }

  function GetNow<V>(hash: Hash, t: Table<V>, key: U64): Option<V>
    requires hash(key) < |t|
  {
    var p := Probe(t, key, hash(key), 0);
    if p == |t| || !t[At(|t|, hash(key), p)].used then None else t[At(|t|, hash(key), p)].val
  }

  // ------------------------------------------------------------- what a table stands for

  /** Every position between a used slot's home and the slot itself is used. */
  ghost predicate Chained<V>(hash: Hash, t: Table<V>, i: nat)
    requires i < |t| && hash(t[i].key) < |t|
  {
    forall q :: 0 <= q < Distance(|t|, hash(t[i].key), i) ==> t[At(|t|, hash(t[i].key), q)].used
  }

  ghost predicate AllChained<V>(hash: Hash, t: Table<V>)
    requires InRange(hash, |t|)
  {
    forall i :: 0 <= i < |t| && t[i].used ==> Chained(hash, t, i)
  }

  predicate UniqueKeys<V>(t: Table<V>) {
    forall i, j :: 0 <= i < j < |t| && t[i].used && t[j].used ==> t[i].key != t[j].key
  }

  /** Slot `i` holds an entry of the map. */
  predicate Holds<V(==)>(t: Table<V>, m: map<U64, V>, i: nat)
    requires i < |t|
  {
    t[i].key in m && t[i].val == Some(m[t[i].key])
  }

  ghost predicate HasSlot<V>(t: Table<V>, k: U64) {
    exists i :: 0 <= i < |t| && t[i].used && t[i].key == k
  }

  ghost predicate SameEntries<V>(t: Table<V>, m: map<U64, V>) {
    && (forall i :: 0 <= i < |t| && t[i].used ==> Holds(t, m, i))
    && (forall k :: k in m ==> HasSlot(t, k))
  }

  ghost predicate Represents<V>(hash: Hash, t: Table<V>, m: map<U64, V>) {
    && InRange(hash, |t|) && AllChained(hash, t) && UniqueKeys(t) && SameEntries(t, m)
  }

  // ------------------------------------------------------------- probing decides membership

  /** A key in the map is met before any unused slot. */
  lemma ProbeFindsKey<V>(hash: Hash, t: Table<V>, m: map<U64, V>, key: U64)
    requires Represents(hash, t, m) && key in m
    ensures var p := Probe(t, key, hash(key), 0);
            p < |t| && t[At(|t|, hash(key), p)].used && t[At(|t|, hash(key), p)].key == key
  {
    assert HasSlot(t, key);
    var i :| 0 <= i < |t| && t[i].used && t[i].key == key;
    var h, p := hash(key), Probe(t, key, hash(key), 0);
    assert Chained(hash, t, i);
    var d := Distance(|t|, h, i);
    assert Stops(t[At(|t|, h, d)], key);
    assert p <= d;
    if p < d {
      assert t[At(|t|, h, p)].used;
    }
  }

  /** For any other key the probe ends at an unused slot, if there is one at all. */
  lemma ProbeFindsRoom<V>(hash: Hash, t: Table<V>, m: map<U64, V>, key: U64)
    requires Represents(hash, t, m) && key !in m
    ensures var p := Probe(t, key, hash(key), 0);
            && (p < |t| ==> !t[At(|t|, hash(key), p)].used)
            && (p == |t| <==> forall i :: 0 <= i < |t| ==> t[i].used)
  {
    var h, p := hash(key), Probe(t, key, hash(key), 0);
    forall i | 0 <= i < |t| && t[i].used ensures t[i].key != key {
      assert Holds(t, m, i);
    }
    if p == |t| {
      forall i | 0 <= i < |t| ensures t[i].used {
        assert !Stops(t[At(|t|, h, Distance(|t|, h, i))], key);
      }
    }
  }

  // ------------------------------------------------------------- storing keeps the invariant

  /** `i` is where the probe for `key` ended after `p` probes. */
  ghost predicate EndsAt<V>(hash: Hash, t: Table<V>, key: U64, p: nat, i: nat) {
    && hash(key) < |t| && p < |t| && i == At(|t|, hash(key), p)
    && Stops(t[i], key)
    && forall q :: 0 <= q < p ==> !Stops(t[At(|t|, hash(key), q)], key)
  }

  lemma StoreAddsEntry<V>(hash: Hash, t: Table<V>, m: map<U64, V>, key: U64, val: V, p: nat, i: nat)
    requires Represents(hash, t, m) && EndsAt(hash, t, key, p, i)
    ensures SameEntries(t[i := Slot(key, Some(val), true)], m[key := val])
  {
    var t', m' := t[i := Slot(key, Some(val), true)], m[key := val];
    forall j | 0 <= j < |t'| && t'[j].used ensures Holds(t', m', j) {
      if j != i {
        assert Holds(t, m, j);
      }
    }
    forall k | k in m' ensures HasSlot(t', k) {
      if k == key {
        assert t'[i].key == k;
      } else {
        assert HasSlot(t, k);
        var j :| 0 <= j < |t| && t[j].used && t[j].key == k;
        assert t'[j] == t[j];
      }
    }
  }

  lemma StoreRepresents<V>(hash: Hash, t: Table<V>, m: map<U64, V>, key: U64, val: V, p: nat, i: nat)
    requires Represents(hash, t, m) && EndsAt(hash, t, key, p, i)
    ensures Represents(hash, t[i := Slot(key, Some(val), true)], m[key := val])
  {
    StoreAddsEntry(hash, t, m, key, val, p, i);
  }

  /** Writing a new value into a used slot replaces the value of its key. */
  lemma AssignRepresents<V>(hash: Hash, t: Table<V>, m: map<U64, V>, i: nat, val: V)
    requires Represents(hash, t, m) && i < |t| && t[i].used
    ensures t[i].key in m
    ensures Represents(hash, t[i := Slot(t[i].key, Some(val), true)], m[t[i].key := val])
  {
    StoreRepresents(hash, t, m, t[i].key, val, Distance(|t|, hash(t[i].key), i), i);
    assert Holds(t, m, i);
  }

  // ------------------------------------------------------------- how many entries there are

  /** The keys of the used slots before position `n`. */
  function KeysBefore<V>(t: Table<V>, n: nat): set<U64>
    requires n <= |t|
  {
    if n == 0 then {} else KeysBefore(t, n - 1) + if t[n - 1].used then {t[n - 1].key} else {}
  }

  ghost predicate HasSlotBefore<V>(t: Table<V>, n: nat, k: U64)
    requires n <= |t|
  {
    exists i :: 0 <= i < n && t[i].used && t[i].key == k
  }

  lemma {:induction false} KeysAreThere<V>(t: Table<V>, n: nat, k: U64)
    requires n <= |t|
    ensures k in KeysBefore(t, n) <==> HasSlotBefore(t, n, k)
  {
    if n > 0 {
      KeysAreThere(t, n - 1, k);
      if HasSlotBefore(t, n - 1, k) {
        var i :| 0 <= i < n - 1 && t[i].used && t[i].key == k;
        assert HasSlotBefore(t, n, k);
      }
    }
  }

  function UsedBefore<V>(t: Table<V>, n: nat): nat
    requires n <= |t|
  {
    if n == 0 then 0 else UsedBefore(t, n - 1) + if t[n - 1].used then 1 else 0
  }

  lemma {:induction false} AllUsed<V>(t: Table<V>, n: nat)
    requires n <= |t|
    ensures UsedBefore(t, n) <= n
    ensures UsedBefore(t, n) == n <==> forall i :: 0 <= i < n ==> t[i].used
  {
    if n > 0 {
      AllUsed(t, n - 1);
    }
  }

  lemma NewKey<V>(t: Table<V>, n: nat)
    requires n < |t| && UniqueKeys(t) && t[n].used
    ensures t[n].key !in KeysBefore(t, n)
  {
    KeysAreThere(t, n, t[n].key);
  }

  lemma {:induction false} CountKeys<V>(t: Table<V>, n: nat)
    requires n <= |t| && UniqueKeys(t)
    ensures |KeysBefore(t, n)| == UsedBefore(t, n)
  {
    if n > 0 {
      CountKeys(t, n - 1);
      if t[n - 1].used {
        NewKey(t, n - 1);
      }
    }
  }

  /** A table never stands for more entries than it has slots, and for as many exactly when every slot is used. */
  lemma FullWhenAllUsed<V>(hash: Hash, t: Table<V>, m: map<U64, V>)
    requires Represents(hash, t, m)
    ensures |m| <= |t|
    ensures |m| == |t| <==> forall i :: 0 <= i < |t| ==> t[i].used
  {
    CountKeys(t, |t|);
    AllUsed(t, |t|);
    forall k: U64 ensures k in m <==> k in KeysBefore(t, |t|) {
      KeysAreThere(t, |t|, k);
      assert k in m ==> HasSlot(t, k);
      if HasSlotBefore(t, |t|, k) {
        var i :| 0 <= i < |t| && t[i].used && t[i].key == k;
        assert Holds(t, m, i);
      }
    }
    assert m.Keys == KeysBefore(t, |t|);
    assert |m| == |m.Keys|;
  }

  // ------------------------------------------------------------- the table is a bounded map

  /** A map of at most `cap` entries: a new key is refused when it is full. */
  predicate HasRoom<V>(m: map<U64, V>, cap: nat, key: U64) {
    key in m || |m| < cap
  }

  function PutBounded<V>(m: map<U64, V>, cap: nat, key: U64, val: V): map<U64, V> {
    if HasRoom(m, cap, key) then m[key := val] else m
  }

  function Lookup<V>(m: map<U64, V>, key: U64): Option<V> {
    if key in m then Some(m[key]) else None
  }

  /** `put` refuses exactly when all slots hold other keys, and otherwise stores the entry. */
  lemma PutRefines<V>(hash: Hash, t: Table<V>, m: map<U64, V>, key: U64, val: V)
    requires Represents(hash, t, m)
    ensures var (t', ok) := PutNow(hash, t, key, val);
            && |t'| == |t|
            && Represents(hash, t', PutBounded(m, |t|, key, val))
            && (ok <==> HasRoom(m, |t|, key))
            && (!ok <==> forall i :: 0 <= i < |t| ==> t[i].used && t[i].key != key)
  {
    var h, p := hash(key), Probe(t, key, hash(key), 0);
    FullWhenAllUsed(hash, t, m);
    if key in m {
      ProbeFindsKey(hash, t, m, key);
    } else {
      ProbeFindsRoom(hash, t, m, key);
    }
    if p < |t| {
      StoreRepresents(hash, t, m, key, val, p, At(|t|, h, p));
    } else {
      forall i | 0 <= i < |t| ensures t[i].used && t[i].key != key {
        assert !Stops(t[At(|t|, h, Distance(|t|, h, i))], key);
      }
    }
  }

  /** How many entries a put adds: one when its probe ends at an unused slot. */
  function Added<V>(hash: Hash, t: Table<V>, key: U64): nat
    requires hash(key) < |t|
  {
    var p := Probe(t, key, hash(key), 0);
    if p < |t| && !t[At(|t|, hash(key), p)].used then 1 else 0
  }

  lemma PutAdds<V>(hash: Hash, t: Table<V>, m: map<U64, V>, key: U64, val: V)
    requires Represents(hash, t, m)
    ensures |PutBounded(m, |t|, key, val)| == |m| + Added(hash, t, key)
  {
    PutRefines(hash, t, m, key, val);
    if key in m {
      ProbeFindsKey(hash, t, m, key);
    } else {
      ProbeFindsRoom(hash, t, m, key);
    }
  }

  lemma GetRefines<V>(hash: Hash, t: Table<V>, m: map<U64, V>, key: U64)
    requires Represents(hash, t, m)
    ensures GetNow(hash, t, key) == Lookup(m, key)
  {
    if key in m {
      ProbeFindsKey(hash, t, m, key);
      assert Holds(t, m, At(|t|, hash(key), Probe(t, key, hash(key), 0)));
    } else {
      ProbeFindsRoom(hash, t, m, key);
    }
  }

  // ------------------------------------------------------------- every sequence of puts

  datatype Put<V> = Put(key: U64, val: V)

  function EmptyTable<V>(cap: nat): Table<V> {
    seq(cap, _ => Slot(0, None, false))
  }

  function TableAfter<V>(hash: Hash, cap: nat, puts: seq<Put<V>>): (t: Table<V>)
    requires forall k :: hash(k) < cap
    ensures |t| == cap
  {
    if puts == [] then EmptyTable(cap) else
    var last := puts[|puts| - 1];
    PutNow(hash, TableAfter(hash, cap, puts[..|puts| - 1]), last.key, last.val).0
  }

  function MapAfter<V>(cap: nat, puts: seq<Put<V>>): map<U64, V> {
    if puts == [] then map[] else
    var last := puts[|puts| - 1];
    PutBounded(MapAfter(cap, puts[..|puts| - 1]), cap, last.key, last.val)
  }

  /** After any sequence of puts the table stands for the bounded map after the same puts. */
  lemma {:induction false} RunRefines<V>(hash: Hash, cap: nat, puts: seq<Put<V>>)
    requires InRange(hash, cap)
    ensures Represents(hash, TableAfter(hash, cap, puts), MapAfter(cap, puts))
  {
    if puts != [] {
      RunRefines(hash, cap, puts[..|puts| - 1]);
      var last := puts[|puts| - 1];
      var init := puts[..|puts| - 1];
      PutRefines(hash, TableAfter(hash, cap, init), MapAfter(cap, init), last.key, last.val);
    }
  }

  function KeysPut<V>(puts: seq<Put<V>>): set<U64> {
    set i | 0 <= i < |puts| :: puts[i].key
  }

  /** The last put of a key, if any. */
  function LastPut<V>(puts: seq<Put<V>>, key: U64): Option<V> {
    if puts == [] then None
    else if puts[|puts| - 1].key == key then Some(puts[|puts| - 1].val)
    else LastPut(puts[..|puts| - 1], key)
  }

  lemma {:induction false} NothingRefused<V>(cap: nat, puts: seq<Put<V>>)
    requires |KeysPut(puts)| <= cap
    ensures MapAfter(cap, puts).Keys == KeysPut(puts)
    ensures forall k :: Lookup(MapAfter(cap, puts), k) == LastPut(puts, k)
  {
    if puts != [] {
      var init, last := puts[..|puts| - 1], puts[|puts| - 1];
      assert KeysPut(puts) == KeysPut(init) + {last.key};
      assert last.key in KeysPut(init) ==> KeysPut(puts) == KeysPut(init);
      NothingRefused(cap, init);
      var m := MapAfter(cap, init);
      assert |m| == |m.Keys|;
      assert HasRoom(m, cap, last.key);
    }
  }

  /** As long as no more different keys are put than there are slots, every put is accepted and `get`
      returns the last value put. */
  lemma GetReturnsLastPut<V>(hash: Hash, cap: nat, puts: seq<Put<V>>, key: U64)
    requires InRange(hash, cap) && |KeysPut(puts)| <= cap
    ensures GetNow(hash, TableAfter(hash, cap, puts), key) == LastPut(puts, key)
  {
    RunRefines(hash, cap, puts);
    GetRefines(hash, TableAfter(hash, cap, puts), MapAfter(cap, puts), key);
    NothingRefused(cap, puts);
  }
}
