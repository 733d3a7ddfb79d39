/**
 * `ntl::Map<K, V>` specialised to `int` values and to the two kinds of key
 * the library supports: integral keys (home slot = key modulo capacity) and
 * string keys (home slot = hash of the key's bytes modulo capacity).
 *
 * The table is an array of entries with a `used` flag, probed linearly from
 * a key's home slot.  The specification functions below describe the table
 * as a sequence `e` of entries: `Probe` is the walk `find` performs,
 * `Inserted`, `Removed` and `Rehash` are the tables `Insert`, `Remove` and
 * `Resize` leave behind, and `HealthyTable` is the invariant that makes the
 * walk find every stored key.
 */
module NtlMap {
  import opened Base
  import opened Hashing
  import NtlString

  datatype Key = IntKey(n: int) | TextKey(text: string)

  datatype Entry = Entry(key: Key, value: int, used: bool)

  /** The contents of a freshly allocated slot: not in use. */
  const EMPTY: Entry := Entry(IntKey(0), 0, false)

  const DEFAULT_MAP_CAPACITY: nat := 1024
  const DEFAULT_GROW_FACTOR: real := 0.7

  /** The byte a C++ `char` holding `c` contributes to a hash. */
  function ByteOf(c: char): bv8 {
    (c as int % 256) as bv8
  }

  function TextBytes(t: string): seq<bv8> {
    seq(|t|, i requires 0 <= i < |t| => ByteOf(t[i]))
  }

  /** `keyToIndex`: an integral key converted to `Size` (two's complement,
      modulo 2^64) modulo the capacity; a string key's hash modulo the capacity. */
  function HomeSlot(k: Key, alg: HashAlgorithm, n: nat): (r: nat)
    requires n > 0
    ensures r < n
    ensures k.IntKey? && 0 <= k.n < TWO_64 ==> r == k.n % n
  {
    match k
    case IntKey(x) => (x % TWO_64) % n
    case TextKey(t) => (Hash(alg, TextBytes(t)) as int) % n
  }

  // ---------------------------------------------------------------------
  // Probe sequences
  // ---------------------------------------------------------------------

  /** How many steps forward (wrapping around) slot `i` lies from slot `h`. */
  function Dist(h: nat, i: nat, n: nat): (r: nat)
    requires h < n && i < n
    ensures r < n
  {
    if h <= i then i - h else i + n - h
  }

  /** The slot reached after `d` steps of `index = (index + 1) % capacity`
      from `h`. */
  function Slot(h: nat, d: nat, n: nat): (r: nat)
    requires h < n && d < n
    ensures r < n && Dist(h, r, n) == d
  {
    if h + d < n then h + d else h + d - n
  }

  lemma SlotOfDist(h: nat, i: nat, n: nat)
    requires h < n && i < n
    ensures Slot(h, Dist(h, i, n), n) == i
  {
  }

  /** One more probe step is the next slot around the table. */
  lemma NextSlot(h: nat, d: nat, n: nat)
    requires h < n && d + 1 < n
    ensures (Slot(h, d, n) + 1) % n == Slot(h, d + 1, n)
  {
  }

  /** The walk of `find` for key `k` from step `d` on: the first slot holding
      `k`, or `None` once an unused slot is reached.  (A walk that meets
      neither within one round of the table never ends in the library; it
      gives `None` here, and the methods exclude it by precondition.) */
  function Probe(e: seq<Entry>, k: Key, h: nat, d: nat): (r: Option<nat>)
    requires h < |e|
    ensures r.Some? ==> r.value < |e| && e[r.value].used && e[r.value].key == k
    decreases |e| - d
  {
    if d >= |e| then None
    else
      var i := Slot(h, d, |e|);
      if !e[i].used then None
      else if e[i].key == k then Some(i)
      else Probe(e, k, h, d + 1)
  }

  /** The number of steps from `h` to the first unused slot, looking from
      step `d` on. */
  function FreeStep(e: seq<Entry>, h: nat, d: nat): (r: Option<nat>)
    requires h < |e|
    ensures r.Some? ==> d <= r.value < |e| && !e[Slot(h, r.value, |e|)].used
    ensures r.Some? ==> forall t :: d <= t < r.value ==> e[Slot(h, t, |e|)].used
    decreases |e| - d
  {
    if d >= |e| then None
    else if !e[Slot(h, d, |e|)].used then Some(d)
    else FreeStep(e, h, d + 1)
  }

  predicate HasFree(e: seq<Entry>) {
    exists t :: 0 <= t < |e| && !e[t].used
  }

  /** Where `find` stops for `k`: the slot holding it, or `None`. */
  function LocateIn(e: seq<Entry>, alg: HashAlgorithm, k: Key): Option<nat>
    requires |e| > 0
  {
    Probe(e, k, HomeSlot(k, alg, |e|), 0)
  }

  /** The value `Get`/`At` read for `k`, if `find` locates it. */
  function LookupIn(e: seq<Entry>, alg: HashAlgorithm, k: Key): (r: Option<int>)
    requires |e| > 0
  {
    match LocateIn(e, alg, k)
    case None => None
    case Some(i) => Some(e[i].value)
  }

  /** The probe loops of `find` and `Insert` finish: `k` is located, or there
      is an unused slot somewhere to stop at. */
  predicate Terminates(e: seq<Entry>, alg: HashAlgorithm, k: Key) {
    |e| > 0 && (LocateIn(e, alg, k).Some? || HasFree(e))
  }

  lemma {:induction false} FreeStepFrom(e: seq<Entry>, h: nat, d: nat, t: nat)
    requires h < |e| && d <= t < |e| && !e[Slot(h, t, |e|)].used
    ensures FreeStep(e, h, d).Some?
    decreases t - d
  {
    if d < t && e[Slot(h, d, |e|)].used {
      FreeStepFrom(e, h, d + 1, t);
    }
  }

  /** With an unused slot anywhere, the walk from any home slot reaches one. */
  lemma HasFreeStep(e: seq<Entry>, h: nat)
    requires h < |e| && HasFree(e)
    ensures FreeStep(e, h, 0).Some?
  {
    var t :| 0 <= t < |e| && !e[t].used;
    SlotOfDist(h, t, |e|);
    FreeStepFrom(e, h, 0, Dist(h, t, |e|));
  }

  /** One step of the walk of `find` past a used slot holding another key:
      the walk goes on to the next slot, still inside one round. */
  lemma ProbeAdvance(e: seq<Entry>, k: Key, h: nat, d: nat)
    requires h < |e| && d < |e| && e[Slot(h, d, |e|)].used && e[Slot(h, d, |e|)].key != k
    requires Probe(e, k, h, d) == Probe(e, k, h, 0)
    requires Probe(e, k, h, 0).Some? ||
             (FreeStep(e, h, 0).Some? && d <= FreeStep(e, h, 0).value && FreeStep(e, h, d) == FreeStep(e, h, 0))
    ensures d + 1 < |e| && (Slot(h, d, |e|) + 1) % |e| == Slot(h, d + 1, |e|)
    ensures Probe(e, k, h, d + 1) == Probe(e, k, h, 0)
    ensures Probe(e, k, h, 0).Some? ||
            (FreeStep(e, h, 0).Some? && d + 1 <= FreeStep(e, h, 0).value && FreeStep(e, h, d + 1) == FreeStep(e, h, 0))
  {
    NextSlot(h, d, |e|);
  }

  // ---------------------------------------------------------------------
  // What is in the table
  // ---------------------------------------------------------------------

  /** Some used slot holds `k` with value `v`. */
  ghost predicate Stored(e: seq<Entry>, k: Key, v: int) {
    exists i :: 0 <= i < |e| && e[i].used && e[i].key == k && e[i].value == v
  }

  /** Some used slot holds `k`. */
  ghost predicate KeyStored(e: seq<Entry>, k: Key) {
    exists i :: 0 <= i < |e| && e[i].used && e[i].key == k
  }

  /** The number of used slots. */
  function UsedCount(e: seq<Entry>): (r: nat)
    ensures r <= |e|
    decreases |e|
  {
    if |e| == 0 then 0 else UsedCount(e[..|e| - 1]) + (if e[|e| - 1].used then 1 else 0)
  }

  /** Overwriting one slot changes the count by the change of its flag. */
  lemma {:induction false} UsedCountUpdate(e: seq<Entry>, i: nat, x: Entry)
    requires i < |e|
    ensures UsedCount(e[i := x]) + (if e[i].used then 1 else 0)
            == UsedCount(e) + (if x.used then 1 else 0)
    decreases |e|
  {
    var n := |e| - 1;
    if i == n {
      assert e[i := x][..n] == e[..n];
    } else {
      assert e[i := x][..n] == e[..n][i := x];
      UsedCountUpdate(e[..n], i, x);
    }
  }

  lemma {:induction false} UsedCountEmpty(c: nat)
    ensures UsedCount(seq(c, _ => EMPTY)) == 0
    decreases c
  {
    if c > 0 {
      assert seq(c, _ => EMPTY)[..c - 1] == seq(c - 1, _ => EMPTY);
      UsedCountEmpty(c - 1);
    }
  }

  /** Fewer used slots than slots leaves an unused one. */
  lemma {:induction false} CountBelowHasFree(e: seq<Entry>)
    requires UsedCount(e) < |e|
    ensures HasFree(e)
    decreases |e|
  {
    var n := |e| - 1;
    if e[n].used {
      CountBelowHasFree(e[..n]);
      var t :| 0 <= t < n && !e[..n][t].used;
      assert !e[t].used;
    }
  }

  /** Every used slot is reached from `h` without crossing an unused slot. */
  ghost predicate Reaches(e: seq<Entry>, h: nat, i: nat)
    requires h < |e| && i < |e|
  {
    forall d :: 0 <= d < Dist(h, i, |e|) ==> e[Slot(h, d, |e|)].used
  }

  /** The probe invariant: every used key sits on an unbroken run of used
      slots starting at its home slot. */
  ghost predicate Reachable(e: seq<Entry>, alg: HashAlgorithm) {
    forall i :: 0 <= i < |e| && e[i].used ==> Reaches(e, HomeSlot(e[i].key, alg, |e|), i)
  }

  ghost predicate DistinctKeys(e: seq<Entry>) {
    forall i, j :: 0 <= i < |e| && 0 <= j < |e| && i != j && e[i].used && e[j].used ==> e[i].key != e[j].key
  }

  ghost predicate HealthyTable(e: seq<Entry>, alg: HashAlgorithm) {
    |e| > 0 && Reachable(e, alg) && DistinctKeys(e)
  }

  /** Two tables with the same keys in the same used slots (values may differ). */
  ghost predicate SameLayout(e: seq<Entry>, f: seq<Entry>) {
    |e| == |f| && forall j :: 0 <= j < |e| ==> e[j].used == f[j].used && e[j].key == f[j].key
  }

  // ---------------------------------------------------------------------
  // Finding keys
  // ---------------------------------------------------------------------

  lemma {:induction false} ProbeReaches(e: seq<Entry>, k: Key, h: nat, i: nat, d: nat)
    requires h < |e| && i < |e| && e[i].used && e[i].key == k
    requires Reaches(e, h, i) && d <= Dist(h, i, |e|)
    requires forall j :: 0 <= j < |e| && e[j].used && e[j].key == k ==> j == i
    ensures Probe(e, k, h, d) == Some(i)
    decreases Dist(h, i, |e|) - d
  {
    SlotOfDist(h, i, |e|);
    if d < Dist(h, i, |e|) {
      var s := Slot(h, d, |e|);
      assert e[s].used && s != i;
      ProbeReaches(e, k, h, i, d + 1);
    }
  }

  /** In a healthy table `find` reaches every stored key, at its slot. */
  lemma LocateFinds(e: seq<Entry>, alg: HashAlgorithm, i: nat)
    requires HealthyTable(e, alg) && i < |e| && e[i].used
    ensures LocateIn(e, alg, e[i].key) == Some(i)
  {
    var k := e[i].key;
    forall j | 0 <= j < |e| && e[j].used && e[j].key == k
      ensures j == i
    {
    }
    ProbeReaches(e, k, HomeSlot(k, alg, |e|), i, 0);
  }

  /** In a healthy table `find` locates `k` exactly when some slot holds it. */
  lemma LocateExact(e: seq<Entry>, alg: HashAlgorithm, k: Key)
    requires HealthyTable(e, alg)
    ensures LocateIn(e, alg, k).Some? <==> KeyStored(e, k)
  {
    if KeyStored(e, k) {
      var i :| 0 <= i < |e| && e[i].used && e[i].key == k;
      LocateFinds(e, alg, i);
    }
  }

  /** In a healthy table the lookup gives `v` exactly when `k` is stored with `v`. */
  lemma LookupExact(e: seq<Entry>, alg: HashAlgorithm, k: Key, v: int)
    requires HealthyTable(e, alg)
    ensures LookupIn(e, alg, k) == Some(v) <==> Stored(e, k, v)
  {
    if Stored(e, k, v) {
      var i :| 0 <= i < |e| && e[i].used && e[i].key == k && e[i].value == v;
      LocateFinds(e, alg, i);
    }
  }

  /** Two healthy tables storing the same pairs answer every lookup alike. */
  lemma LookupAgree(e: seq<Entry>, f: seq<Entry>, alg: HashAlgorithm, k: Key)
    requires HealthyTable(e, alg) && HealthyTable(f, alg)
    requires forall v :: Stored(e, k, v) <==> Stored(f, k, v)
    ensures LookupIn(e, alg, k) == LookupIn(f, alg, k)
  {
    if LookupIn(e, alg, k).Some? {
      LookupExact(e, alg, k, LookupIn(e, alg, k).value);
      LookupExact(f, alg, k, LookupIn(e, alg, k).value);
    } else if LookupIn(f, alg, k).Some? {
      LookupExact(e, alg, k, LookupIn(f, alg, k).value);
      LookupExact(f, alg, k, LookupIn(f, alg, k).value);
    }
  }

  lemma {:induction false} ProbeSameLayout(e: seq<Entry>, f: seq<Entry>, k: Key, h: nat, d: nat)
    requires SameLayout(e, f) && h < |e|
    ensures Probe(e, k, h, d) == Probe(f, k, h, d)
    decreases |e| - d
  {
    if d < |e| {
      ProbeSameLayout(e, f, k, h, d + 1);
    }
  }

  lemma SameLayoutHealthy(e: seq<Entry>, f: seq<Entry>, alg: HashAlgorithm)
    requires SameLayout(e, f) && HealthyTable(e, alg)
    ensures HealthyTable(f, alg)
  {
    forall i | 0 <= i < |f| && f[i].used
      ensures Reaches(f, HomeSlot(f[i].key, alg, |f|), i)
    {
      assert Reaches(e, HomeSlot(e[i].key, alg, |e|), i);
    }
  }

  // ---------------------------------------------------------------------
  // Placing, inserting, removing, rehashing
  // ---------------------------------------------------------------------

  /** `x` written into the first unused slot on its key's probe sequence. */
  function Place(e: seq<Entry>, alg: HashAlgorithm, x: Entry): (r: seq<Entry>)
    requires |e| > 0 && HasFree(e)
    ensures |r| == |e|
  {
    var h := HomeSlot(x.key, alg, |e|);
    HasFreeStep(e, h);
    e[Slot(h, FreeStep(e, h, 0).value, |e|) := x]
  }

  /** The table `Insert(k, v)` leaves once it has decided not to grow: the
      value of the slot `find` locates is replaced, or a new used entry goes
      into the first unused slot from the home slot. */
  function Inserted(e: seq<Entry>, alg: HashAlgorithm, k: Key, v: int): (r: seq<Entry>)
    requires Terminates(e, alg, k)
    ensures |r| == |e|
  {
    match LocateIn(e, alg, k)
    case Some(i) => e[i := e[i].(value := v)]
    case None => Place(e, alg, Entry(k, v, true))
  }

  /** `Insert` on a key that `find` locates at slot `i` replaces its value. */
  lemma InsertedFound(e: seq<Entry>, alg: HashAlgorithm, k: Key, v: int, i: nat)
    requires |e| > 0 && i < |e| && e[i].used && e[i].key == k
    requires Probe(e, k, HomeSlot(k, alg, |e|), 0) == Some(i)
    ensures LocateIn(e, alg, k) == Some(i) && Terminates(e, alg, k)
    ensures Inserted(e, alg, k, v) == e[i := e[i].(value := v)]
  {
  }

  /** `Insert` on a key that `find` does not locate fills the first unused
      slot, `d` steps from the home slot. */
  lemma InsertedFree(e: seq<Entry>, alg: HashAlgorithm, k: Key, v: int, d: nat)
    requires |e| > 0 && d < |e|
    requires !e[Slot(HomeSlot(k, alg, |e|), d, |e|)].used
    requires Probe(e, k, HomeSlot(k, alg, |e|), d) == Probe(e, k, HomeSlot(k, alg, |e|), 0)
    requires Probe(e, k, HomeSlot(k, alg, |e|), 0).Some? ||
             (FreeStep(e, HomeSlot(k, alg, |e|), 0).Some? && d <= FreeStep(e, HomeSlot(k, alg, |e|), 0).value &&
              FreeStep(e, HomeSlot(k, alg, |e|), d) == FreeStep(e, HomeSlot(k, alg, |e|), 0))
    ensures LocateIn(e, alg, k) == None && HasFree(e) && Terminates(e, alg, k)
    ensures Inserted(e, alg, k, v) == e[Slot(HomeSlot(k, alg, |e|), d, |e|) := Entry(k, v, true)]
  {
    var h := HomeSlot(k, alg, |e|);
    assert FreeStep(e, h, d) == Some(d);
  }

  /** The table `Remove` leaves: slot `i` is marked unused, nothing else moves. */
  function Removed(e: seq<Entry>, i: nat): (r: seq<Entry>)
    requires i < |e|
  {
    e[i := e[i].(used := false)]
  }

  /** The table `Resize(c)` builds: `c` unused slots, into which the used
      entries of `e` are placed one by one in slot order. */
  function Rehash(e: seq<Entry>, alg: HashAlgorithm, c: nat): (r: seq<Entry>)
    requires |e| < c
    ensures |r| == c && UsedCount(r) == UsedCount(e)
    decreases |e|
  {
    if |e| == 0 then UsedCountEmpty(c); seq(c, _ => EMPTY)
    else
      var t := Rehash(e[..|e| - 1], alg, c);
      var x := e[|e| - 1];
      if x.used then
        CountBelowHasFree(t);
        PlaceCount(t, alg, x);
        Place(t, alg, x)
      else t
  }

  lemma PlaceCount(e: seq<Entry>, alg: HashAlgorithm, x: Entry)
    requires |e| > 0 && HasFree(e) && x.used
    ensures UsedCount(Place(e, alg, x)) == UsedCount(e) + 1
  {
    var h := HomeSlot(x.key, alg, |e|);
    HasFreeStep(e, h);
    UsedCountUpdate(e, Slot(h, FreeStep(e, h, 0).value, |e|), x);
  }

  /** Placing `x` adds exactly the pair of `x` to what the table stores. */
  lemma PlaceStored(e: seq<Entry>, alg: HashAlgorithm, x: Entry, k: Key, v: int)
    requires |e| > 0 && HasFree(e) && x.used
    ensures Stored(Place(e, alg, x), k, v) <==> Stored(e, k, v) || (k == x.key && v == x.value)
  {
    var h := HomeSlot(x.key, alg, |e|);
    HasFreeStep(e, h);
    var f := Slot(h, FreeStep(e, h, 0).value, |e|);
    var r := Place(e, alg, x);
    if Stored(e, k, v) {
      var i :| 0 <= i < |e| && e[i].used && e[i].key == k && e[i].value == v;
      assert r[i] == e[i];
    }
    if k == x.key && v == x.value {
      assert r[f] == x;
    }
    if Stored(r, k, v) {
      var i :| 0 <= i < |r| && r[i].used && r[i].key == k && r[i].value == v;
      if i != f {
        assert e[i] == r[i];
      }
    }
  }

  /** Placing `x` keeps every chain unbroken, and `x` itself sits at the end
      of a run of used slots from its home slot. */
  lemma PlaceReachable(e: seq<Entry>, alg: HashAlgorithm, x: Entry)
    requires |e| > 0 && HasFree(e) && x.used && Reachable(e, alg)
    ensures Reachable(Place(e, alg, x), alg)
  {
    var n := |e|;
    var h := HomeSlot(x.key, alg, n);
    HasFreeStep(e, h);
    var D := FreeStep(e, h, 0).value;
    var f := Slot(h, D, n);
    var r := Place(e, alg, x);
    forall i | 0 <= i < n && r[i].used
      ensures Reaches(r, HomeSlot(r[i].key, alg, n), i)
    {
      var g := HomeSlot(r[i].key, alg, n);
      if i == f {
        forall d | 0 <= d < Dist(h, f, n)
          ensures r[Slot(h, d, n)].used
        {
          assert e[Slot(h, d, n)].used;
        }
      } else {
        assert Reaches(e, g, i);
        forall d | 0 <= d < Dist(g, i, n)
          ensures r[Slot(g, d, n)].used
        {
          assert e[Slot(g, d, n)].used;
        }
      }
    }
  }

  /** Placing a key the table does not hold keeps the keys distinct. */
  lemma PlaceDistinct(e: seq<Entry>, alg: HashAlgorithm, x: Entry)
    requires |e| > 0 && HasFree(e) && DistinctKeys(e) && !KeyStored(e, x.key)
    ensures DistinctKeys(Place(e, alg, x))
  {
    var h := HomeSlot(x.key, alg, |e|);
    HasFreeStep(e, h);
    var f := Slot(h, FreeStep(e, h, 0).value, |e|);
    var r := Place(e, alg, x);
    forall i, j | 0 <= i < |r| && 0 <= j < |r| && i != j && r[i].used && r[j].used
      ensures r[i].key != r[j].key
    {
      if i == f {
        assert r[j] == e[j];
      } else if j == f {
        assert r[i] == e[i];
      }
    }
  }

  /** `find` for the key of the entry just placed stops at it: every slot
      before it on the walk is used and holds another key. */
  lemma {:induction false} ProbeAfterPlace(e: seq<Entry>, x: Entry, h: nat, d: nat, D: nat)
    requires h < |e| && x.used && D < |e|
    requires Probe(e, x.key, h, d) == None && FreeStep(e, h, d) == Some(D)
    ensures Probe(e[Slot(h, D, |e|) := x], x.key, h, d) == Some(Slot(h, D, |e|))
    decreases D - d
  {
    if d < D {
      ProbeAfterPlace(e, x, h, d + 1, D);
    }
  }

  /** After `Insert(k, v)` the table locates `k` with value `v`, whatever
      state it was in. */
  lemma InsertedFinds(e: seq<Entry>, alg: HashAlgorithm, k: Key, v: int)
    requires Terminates(e, alg, k)
    ensures LookupIn(Inserted(e, alg, k, v), alg, k) == Some(v)
  {
    var h := HomeSlot(k, alg, |e|);
    var r := Inserted(e, alg, k, v);
    match LocateIn(e, alg, k) {
      case Some(i) =>
        ProbeSameLayout(e, r, k, h, 0);
      case None =>
        HasFreeStep(e, h);
        ProbeAfterPlace(e, Entry(k, v, true), h, 0, FreeStep(e, h, 0).value);
    }
  }

  /** Insertion keeps a healthy table healthy. */
  lemma InsertedHealthy(e: seq<Entry>, alg: HashAlgorithm, k: Key, v: int)
    requires Terminates(e, alg, k) && HealthyTable(e, alg)
    ensures HealthyTable(Inserted(e, alg, k, v), alg)
  {
    match LocateIn(e, alg, k) {
      case Some(i) =>
        SameLayoutHealthy(e, Inserted(e, alg, k, v), alg);
      case None =>
        LocateExact(e, alg, k);
        PlaceReachable(e, alg, Entry(k, v, true));
        PlaceDistinct(e, alg, Entry(k, v, true));
    }
  }

  /** In a healthy table insertion stores `v` under `k`, drops the old value
      of `k` and leaves every other key's value alone. */
  lemma InsertedStored(e: seq<Entry>, alg: HashAlgorithm, k: Key, v: int, k': Key, v': int)
    requires Terminates(e, alg, k) && HealthyTable(e, alg)
    ensures Stored(Inserted(e, alg, k, v), k', v') <==>
            (k' == k && v' == v) || (k' != k && Stored(e, k', v'))
  {
    var r := Inserted(e, alg, k, v);
    match LocateIn(e, alg, k) {
      case Some(i) =>
        if Stored(r, k', v') {
          var j :| 0 <= j < |r| && r[j].used && r[j].key == k' && r[j].value == v';
          if j != i {
            assert e[j] == r[j];
          }
        }
        if k' == k && v' == v {
          assert r[i].key == k' && r[i].value == v';
        }
        if k' != k && Stored(e, k', v') {
          var j :| 0 <= j < |e| && e[j].used && e[j].key == k' && e[j].value == v';
          assert r[j] == e[j];
        }
      case None =>
        LocateExact(e, alg, k);
        PlaceStored(e, alg, Entry(k, v, true), k', v');
    }
  }

  /** Insertion adds a used slot exactly when the key was not located. */
  lemma InsertedCount(e: seq<Entry>, alg: HashAlgorithm, k: Key, v: int)
    requires Terminates(e, alg, k)
    ensures UsedCount(Inserted(e, alg, k, v)) == UsedCount(e) + (if LocateIn(e, alg, k).Some? then 0 else 1)
  {
    match LocateIn(e, alg, k) {
      case Some(i) =>
        UsedCountUpdate(e, i, e[i].(value := v));
      case None =>
        PlaceCount(e, alg, Entry(k, v, true));
    }
  }

  /** The map view of insertion: `k` now gives `v`, every other key gives
      what it gave before. */
  lemma InsertedLookup(e: seq<Entry>, alg: HashAlgorithm, k: Key, v: int, k': Key)
    requires Terminates(e, alg, k) && HealthyTable(e, alg)
    ensures LookupIn(Inserted(e, alg, k, v), alg, k') == (if k' == k then Some(v) else LookupIn(e, alg, k'))
  {
    var r := Inserted(e, alg, k, v);
    InsertedHealthy(e, alg, k, v);
    if k' == k {
      InsertedFinds(e, alg, k, v);
    } else {
      forall v' ensures Stored(r, k', v') <==> Stored(e, k', v') {
        InsertedStored(e, alg, k, v, k', v');
      }
      LookupAgree(r, e, alg, k');
    }
  }

  /** What a table stores is what its last slot stores plus what the rest stores. */
  lemma StoredSplit(e: seq<Entry>, k: Key, v: int)
    requires |e| > 0
    ensures Stored(e, k, v) <==>
            Stored(e[..|e| - 1], k, v) || (e[|e| - 1].used && e[|e| - 1].key == k && e[|e| - 1].value == v)
  {
    var p := e[..|e| - 1];
    if Stored(p, k, v) {
      var i :| 0 <= i < |p| && p[i].used && p[i].key == k && p[i].value == v;
      assert e[i] == p[i];
    }
    if Stored(e, k, v) {
      var i :| 0 <= i < |e| && e[i].used && e[i].key == k && e[i].value == v;
      if i < |p| {
        assert p[i] == e[i];
      }
    }
  }

  /** `Resize` leaves every chain unbroken, even in a table `Remove` has
      damaged: each entry is placed afresh from its home slot. */
  lemma {:induction false} RehashReachable(e: seq<Entry>, alg: HashAlgorithm, c: nat)
    requires |e| < c
    ensures Reachable(Rehash(e, alg, c), alg)
    decreases |e|
  {
    if |e| > 0 {
      var t := Rehash(e[..|e| - 1], alg, c);
      RehashReachable(e[..|e| - 1], alg, c);
      if e[|e| - 1].used {
        CountBelowHasFree(t);
        PlaceReachable(t, alg, e[|e| - 1]);
      }
    }
  }

  /** `Resize` keeps exactly the stored pairs. */
  lemma {:induction false} RehashStored(e: seq<Entry>, alg: HashAlgorithm, c: nat, k: Key, v: int)
    requires |e| < c
    ensures Stored(Rehash(e, alg, c), k, v) <==> Stored(e, k, v)
    decreases |e|
  {
    if |e| > 0 {
      var t := Rehash(e[..|e| - 1], alg, c);
      RehashStored(e[..|e| - 1], alg, c, k, v);
      StoredSplit(e, k, v);
      if e[|e| - 1].used {
        CountBelowHasFree(t);
        PlaceStored(t, alg, e[|e| - 1], k, v);
      }
    }
  }

  /** `Resize` of a table with distinct keys keeps them distinct. */
  lemma {:induction false} RehashDistinct(e: seq<Entry>, alg: HashAlgorithm, c: nat)
    requires |e| < c && DistinctKeys(e)
    ensures DistinctKeys(Rehash(e, alg, c))
    decreases |e|
  {
    if |e| > 0 {
      var n := |e| - 1;
      var p := e[..n];
      var t := Rehash(p, alg, c);
      var x := e[n];
      RehashDistinct(p, alg, c);
      if x.used {
        forall i | 0 <= i < |t| && t[i].used
          ensures t[i].key != x.key
        {
          RehashStored(p, alg, c, t[i].key, t[i].value);
          var j :| 0 <= j < |p| && p[j].used && p[j].key == t[i].key && p[j].value == t[i].value;
          assert e[j] == p[j];
        }
        CountBelowHasFree(t);
        PlaceDistinct(t, alg, x);
      }
    }
  }

  /** `Resize` of a table with distinct keys gives a healthy table. */
  lemma RehashHealthy(e: seq<Entry>, alg: HashAlgorithm, c: nat)
    requires |e| < c && DistinctKeys(e)
    ensures HealthyTable(Rehash(e, alg, c), alg)
  {
    RehashReachable(e, alg, c);
    RehashDistinct(e, alg, c);
  }

  /** `Resize` of a healthy table keeps the key-to-value mapping. */
  lemma RehashLookup(e: seq<Entry>, alg: HashAlgorithm, c: nat, k: Key)
    requires |e| < c && HealthyTable(e, alg)
    ensures LookupIn(Rehash(e, alg, c), alg, k) == LookupIn(e, alg, k)
  {
    var r := Rehash(e, alg, c);
    RehashHealthy(e, alg, c);
    forall v ensures Stored(r, k, v) <==> Stored(e, k, v) {
      RehashStored(e, alg, c, k, v);
    }
    LookupAgree(r, e, alg, k);
  }

  /** After `Remove` of a key held once, `find` no longer locates it. */
  lemma RemovedMisses(e: seq<Entry>, alg: HashAlgorithm, i: nat)
    requires i < |e| && e[i].used && DistinctKeys(e)
    ensures !KeyStored(Removed(e, i), e[i].key)
    ensures LocateIn(Removed(e, i), alg, e[i].key) == None
  {
    var r := Removed(e, i);
    forall j | 0 <= j < |r| && r[j].used
      ensures r[j].key != e[i].key
    {
      assert j != i && e[j] == r[j];
    }
  }

  /** `Remove` drops one used slot, keeps the keys distinct and keeps every
      other key's pair stored (though not necessarily findable). */
  lemma RemovedFacts(e: seq<Entry>, i: nat, k': Key, v': int)
    requires i < |e| && e[i].used
    ensures UsedCount(Removed(e, i)) + 1 == UsedCount(e)
    ensures DistinctKeys(e) ==> DistinctKeys(Removed(e, i))
    ensures k' != e[i].key ==> (Stored(Removed(e, i), k', v') <==> Stored(e, k', v'))
  {
    UsedCountUpdate(e, i, e[i].(used := false));
    RemovedDistinct(e, i);
    if k' != e[i].key {
      RemovedKeepsOthers(e, i, k', v');
    }
  }

  /** Clearing a slot cannot make two used keys equal. */
  lemma RemovedDistinct(e: seq<Entry>, i: nat)
    requires i < |e|
    ensures DistinctKeys(e) ==> DistinctKeys(Removed(e, i))
  {
  }

  /** Clearing the slot of one key leaves every other key's pairs stored. */
  lemma RemovedKeepsOthers(e: seq<Entry>, i: nat, k': Key, v': int)
    requires i < |e| && k' != e[i].key
    ensures Stored(Removed(e, i), k', v') <==> Stored(e, k', v')
  {
    var r := Removed(e, i);
    if Stored(e, k', v') {
      var j :| 0 <= j < |e| && e[j].used && e[j].key == k' && e[j].value == v';
      assert r[j] == e[j];
    }
    if Stored(r, k', v') {
      var j :| 0 <= j < |r| && r[j].used && r[j].key == k' && r[j].value == v';
      assert r[j] == e[j];
    }
  }

  /** Deleting without a tombstone breaks the probe invariant: with keys 0
      and 2 sharing home slot 0 of a two-slot table, removing 0 empties the
      slot the walk for 2 starts at, so `find` misses 2 although it is still
      stored.  (`Resize` would place it again; see `RehashHealthy`.) */
  lemma RemoveBreaksProbeChain(alg: HashAlgorithm)
    ensures var e := [Entry(IntKey(0), 10, true), Entry(IntKey(2), 20, true)];
            HealthyTable(e, alg) &&
            Stored(Removed(e, 0), IntKey(2), 20) &&
            LocateIn(Removed(e, 0), alg, IntKey(2)) == None &&
            !Reachable(Removed(e, 0), alg)
  {
    var e := [Entry(IntKey(0), 10, true), Entry(IntKey(2), 20, true)];
    var r := Removed(e, 0);
    assert HomeSlot(IntKey(0), alg, 2) == 0 && HomeSlot(IntKey(2), alg, 2) == 0;
    assert Slot(0, 0, 2) == 0;
    assert Reaches(e, 0, 1);
    assert r[1].used && r[1].key == IntKey(2) && r[1].value == 20;
    assert !Reaches(r, 0, 1);
  }

  // ---------------------------------------------------------------------
  // Growth and rendering
  // ---------------------------------------------------------------------

  /** `Insert`'s growth test: a growable map whose counter has reached
      capacity times the grow factor doubles first. */
  predicate Grows(capacity: nat, count: nat, growable: bool, growFactor: real) {
    growable && count as real >= capacity as real * growFactor
  }

  /** The capacity after inserting `n` new keys one by one, starting from
      `capacity` slots and a counter reading `count`. */
  function GrownCapacity(capacity: nat, count: nat, n: nat, growable: bool, growFactor: real): (r: nat)
    ensures r >= capacity
    ensures !growable ==> r == capacity
    decreases n
  {
    if n == 0 then capacity
    else
      var c := if Grows(capacity, count, growable, growFactor) then 2 * capacity else capacity;
      GrownCapacity(c, count + 1, n - 1, growable, growFactor)
  }

  function KeyText(k: Key): string {
    match k
    case IntKey(n) => IntToDecimal(n)
    case TextKey(t) => t
  }

  function ItemText(x: Entry): string {
    KeyText(x.key) + " : " + IntToDecimal(x.value)
  }

  /** One used entry as `ToString` writes it, with the separator when `more`. */
  function Item(x: Entry, more: bool): string {
    ItemText(x) + (if more then ", " else "")
  }

  /** What the loop of `ToString` appends for the slots `e`, given the
      counter `total`: each used entry, followed by `, ` while fewer than
      `total` entries have been written. */
  function SlotsText(e: seq<Entry>, total: nat): string
    decreases |e|
  {
    if |e| == 0 then ""
    else
      var x := e[|e| - 1];
      SlotsText(e[..|e| - 1], total) + (if x.used then Item(x, UsedCount(e) < total) else "")
  }

  function MapText(e: seq<Entry>, total: nat): string {
    "Map(" + SlotsText(e, total) + ")"
  }

  /** The used entries in slot order. */
  function UsedEntries(e: seq<Entry>): (r: seq<Entry>)
    ensures |r| == UsedCount(e)
    decreases |e|
  {
    if |e| == 0 then []
    else UsedEntries(e[..|e| - 1]) + (if e[|e| - 1].used then [e[|e| - 1]] else [])
  }

  /** The entries `xs` rendered as `ToString` renders them with counter `total`. */
  function Listing(xs: seq<Entry>, total: nat): string
    decreases |xs|
  {
    if |xs| == 0 then ""
    else Listing(xs[..|xs| - 1], total) + Item(xs[|xs| - 1], |xs| < total)
  }

  /** The text depends only on the used entries in slot order, not on where
      the unused slots are. */
  lemma {:induction false} SlotsTextIsListing(e: seq<Entry>, total: nat)
    ensures SlotsText(e, total) == Listing(UsedEntries(e), total)
    decreases |e|
  {
    if |e| > 0 {
      var n := |e| - 1;
      var x := e[n];
      SlotsTextIsListing(e[..n], total);
      var xs := UsedEntries(e);
      if x.used {
        assert xs == UsedEntries(e[..n]) + [x];
        assert xs[..|xs| - 1] == UsedEntries(e[..n]) && xs[|xs| - 1] == x;
        assert |xs| == UsedCount(e);
        assert SlotsText(e, total) == SlotsText(e[..n], total) + Item(x, UsedCount(e) < total);
        assert Listing(xs, total) == Listing(UsedEntries(e[..n]), total) + Item(x, |xs| < total);
      } else {
        assert xs == UsedEntries(e[..n]);
      }
    }
  }

  /** Unused slots at the end of a table add nothing to its entries. */
  lemma {:induction false} UnusedTail(e: seq<Entry>, m: nat)
    requires m <= |e| && forall j :: m <= j < |e| ==> !e[j].used
    ensures UsedEntries(e) == UsedEntries(e[..m])
    decreases |e|
  {
    if |e| > m {
      assert e[..|e| - 1][..m] == e[..m];
      assert !e[|e| - 1].used;
      assert UsedEntries(e) == UsedEntries(e[..|e| - 1]);
      UnusedTail(e[..|e| - 1], m);
    } else {
      assert e[..m] == e;
    }
  }

  /** The decimal text of a number ends in a digit. */
  lemma DecimalEndsInDigit(n: int)
    ensures IsDigit(IntToDecimal(n)[|IntToDecimal(n)| - 1])
  {
    var t := NatToDecimal(if n < 0 then -n else n);
    assert IsDigit(t[|t| - 1]);
    if n < 0 {
      assert IntToDecimal(n) == "-" + t;
    }
  }

  predicate EndsWithSeparator(s: string) {
    |s| >= 2 && s[|s| - 2..] == ", "
  }

  /** Whether a text ends with `, ` is decided by its last two characters. */
  lemma SuffixEnds(a: string, b: string)
    requires |b| >= 2
    ensures EndsWithSeparator(a + b) <==> EndsWithSeparator(b)
  {
    assert (a + b)[|a + b| - 2..] == b[|b| - 2..];
  }

  /** One rendered entry ends with `, ` exactly when more entries are due. */
  lemma ItemEnd(x: Entry, more: bool)
    ensures |Item(x, more)| >= 2
    ensures EndsWithSeparator(Item(x, more)) <==> more
  {
    var d := IntToDecimal(x.value);
    var t := ItemText(x);
    assert t == (KeyText(x.key) + " : ") + d;
    if more {
      assert Item(x, more) == t + ", ";
      assert (t + ", ")[|t + ", "| - 2..] == ", ";
    } else {
      assert Item(x, more) == t;
      DecimalEndsInDigit(x.value);
      assert t[|t| - 1] == d[|d| - 1];
    }
  }

  /** With an exact counter the last entry is followed by nothing, so the
      text closes as `...value)`; with a counter above the number of entries
      (as after the copy constructors) a `, ` is left before the `)`. */
  lemma ListingEnd(xs: seq<Entry>, total: nat)
    requires |xs| > 0 && total >= |xs|
    ensures EndsWithSeparator(Listing(xs, total)) <==> total > |xs|
  {
    var x := xs[|xs| - 1];
    var more := |xs| < total;
    assert Listing(xs, total) == Listing(xs[..|xs| - 1], total) + Item(x, more);
    ItemEnd(x, more);
    SuffixEnds(Listing(xs[..|xs| - 1], total), Item(x, more));
  }

  /** The table the library's test builds: `Map<int, int> map(10)`, then
      `Insert(1, 100)` and `Insert(2, 200)`, neither of which grows the map. */
  lemma ExampleTable(alg: HashAlgorithm, e1: seq<Entry>, e2: seq<Entry>)
    requires |e1| == 10 && e1 == Inserted(seq(10, _ => EMPTY), alg, IntKey(1), 100)
    requires e2 == Inserted(e1, alg, IntKey(2), 200)
    ensures !Grows(10, 0, true, DEFAULT_GROW_FACTOR) && !Grows(10, 1, true, DEFAULT_GROW_FACTOR)
    ensures UsedEntries(e2) == [Entry(IntKey(1), 100, true), Entry(IntKey(2), 200, true)]
  {
    var e0 := seq(10, _ => EMPTY);
    assert !e0[0].used;
    assert e1 == e0[1 := Entry(IntKey(1), 100, true)];
    assert !e1[0].used;
    assert e2 == e1[2 := Entry(IntKey(2), 200, true)];
    UnusedTail(e2, 3);
    assert e2[..3][..2][..1] == [e0[0]];
  }

  lemma ExampleText()
    ensures Listing([Entry(IntKey(1), 100, true), Entry(IntKey(2), 200, true)], 2) == "1 : 100, 2 : 200"
  {
    var x1, x2 := Entry(IntKey(1), 100, true), Entry(IntKey(2), 200, true);
    ExampleDecimals();
    TwoListing(x1, x2);
  }

  lemma ExampleDecimals()
    ensures IntToDecimal(1) == "1" && IntToDecimal(2) == "2"
    ensures IntToDecimal(100) == "100" && IntToDecimal(200) == "200"
  {
    assert NatToDecimal(10) == "10" && NatToDecimal(20) == "20";
  }

  lemma TwoListing(x1: Entry, x2: Entry)
    ensures Listing([x1, x2], 2) == Item(x1, true) + Item(x2, false)
  {
    var xs := [x1, x2];
    assert xs[..1] == [x1] && [x1][..0] == [];
    assert Listing([x1], 2) == Item(x1, true);
  }

  /** The library's test: `Map<int, int> map(10)`, `Insert(1, 100)`,
      `Insert(2, 200)`, then `ToString()` is `"Map(1 : 100, 2 : 200)"`. */
  lemma ToStringExample(alg: HashAlgorithm, e1: seq<Entry>, e2: seq<Entry>)
    requires |e1| == 10 && e1 == Inserted(seq(10, _ => EMPTY), alg, IntKey(1), 100)
    requires e2 == Inserted(e1, alg, IntKey(2), 200)
    ensures MapText(e2, 2) == "Map(1 : 100, 2 : 200)"
  {
    ExampleTable(alg, e1, e2);
    ExampleText();
    MapTextOf(e2, 2, [Entry(IntKey(1), 100, true), Entry(IntKey(2), 200, true)], "1 : 100, 2 : 200");
    ExampleBrackets();
  }

  lemma ExampleBrackets()
    ensures "Map(" + "1 : 100, 2 : 200" + ")" == "Map(1 : 100, 2 : 200)"
  {
  }

  lemma MapTextOf(e: seq<Entry>, total: nat, xs: seq<Entry>, t: string)
    requires UsedEntries(e) == xs && Listing(xs, total) == t
    ensures MapText(e, total) == "Map(" + t + ")"
  {
    SlotsTextIsListing(e, total);
  }


  /** Two healthy tables storing the same pairs answer every lookup alike,
      stated for all keys at once. */
  lemma RehashAll(e: seq<Entry>, alg: HashAlgorithm, c: nat)
    requires |e| < c && HealthyTable(e, alg)
    ensures HealthyTable(Rehash(e, alg, c), alg)
    ensures forall k :: LookupIn(Rehash(e, alg, c), alg, k) == LookupIn(e, alg, k)
  {
    RehashHealthy(e, alg, c);
    forall k ensures LookupIn(Rehash(e, alg, c), alg, k) == LookupIn(e, alg, k) {
      RehashLookup(e, alg, c, k);
    }
  }

  /** Insertion into a healthy table, stated for all keys at once. */
  lemma InsertedAll(e: seq<Entry>, alg: HashAlgorithm, k: Key, v: int)
    requires Terminates(e, alg, k) && HealthyTable(e, alg)
    ensures HealthyTable(Inserted(e, alg, k, v), alg)
    ensures forall k' :: LookupIn(Inserted(e, alg, k, v), alg, k') == (if k' == k then Some(v) else LookupIn(e, alg, k'))
    ensures forall k', v' :: Stored(Inserted(e, alg, k, v), k', v') <==> (k' == k && v' == v) || (k' != k && Stored(e, k', v'))
  {
    InsertedHealthy(e, alg, k, v);
    forall k' ensures LookupIn(Inserted(e, alg, k, v), alg, k') == (if k' == k then Some(v) else LookupIn(e, alg, k')) {
      InsertedLookup(e, alg, k, v, k');
    }
    forall k', v' ensures Stored(Inserted(e, alg, k, v), k', v') <==> (k' == k && v' == v) || (k' != k && Stored(e, k', v')) {
      InsertedStored(e, alg, k, v, k', v');
    }
  }

  /** The number of used slots only grows along the prefixes of a table. */
  lemma {:induction false} UsedCountPrefix(e: seq<Entry>, i: nat)
    requires i <= |e|
    ensures UsedCount(e[..i]) <= UsedCount(e)
    decreases |e|
  {
    if i < |e| {
      assert e[..|e| - 1][..i] == e[..i];
      UsedCountPrefix(e[..|e| - 1], i);
    } else {
      assert e[..i] == e;
    }
  }

  /** `ToString` appends one used entry: key, ` : `, value, then `, ` when
      more entries are due. */
  method AppendEntry(text: NtlString.String, x: Entry, more: bool)
    requires text.Valid() && text.used > 0
    modifies text, text.data
    ensures text.Valid() && (text.data == old(text.data) || fresh(text.data))
    ensures text.Contents() == old(text.Contents()) + Item(x, more)
  {
    ghost var c0 := text.Contents();
    AppendKey(text, x.key);
    NtlString.CStrOfPlain(" : ");
    text.AppendCString(" : ");
    text.AppendInt(x.value);
    var sep := if more then ", " else "";
    NtlString.CStrOfPlain(sep);
    if more {
      text.AppendCString(sep);
    }
    ItemAfter(c0, x, sep);
  }

  /** One slot of the loop of `ToString`: a used entry is counted and
      appended, followed by `, ` while fewer than `total` have been written. */
  method AppendSlot(text: NtlString.String, ghost e: seq<Entry>, i: nat, x: Entry, appended: nat, total: nat)
    returns (next: nat)
    requires i < |e| && x == e[i] && appended == UsedCount(e[..i])
    requires text.Valid() && text.Contents() == "Map(" + SlotsText(e[..i], total)
    modifies text, text.data
    ensures text.Valid() && (text.data == old(text.data) || fresh(text.data))
    ensures next == UsedCount(e[..i + 1])
    ensures text.Contents() == "Map(" + SlotsText(e[..i + 1], total)
  {
    UsedCountSnoc(e, i);
    SlotsStep(e, i, total);
    ghost var before := text.Contents();
    next := appended;
    if x.used {
      next := appended + 1;
      AppendEntry(text, x, next < total);
    }
    assert text.Contents() == before + (if x.used then Item(x, next < total) else "");
  }

  /** After the last slot, the closing bracket completes the text. */
  lemma SlotsDone(e: seq<Entry>, total: nat)
    ensures "Map(" + SlotsText(e[..|e|], total) + ")" == MapText(e, total)
  {
    assert e[..|e|] == e;
  }

  lemma ItemAfter(c: string, x: Entry, sep: string)
    ensures c + KeyText(x.key) + " : " + IntToDecimal(x.value) + sep == c + (ItemText(x) + sep)
  {
  }

  /** The key part of one rendered entry. */
  method AppendKey(text: NtlString.String, k: Key)
    requires text.Valid() && text.used > 0
    modifies text, text.data
    ensures text.Valid() && (text.data == old(text.data) || fresh(text.data))
    ensures text.Contents() == old(text.Contents()) + KeyText(k)
  {
    match k {
      case IntKey(n) => text.AppendInt(n);
      case TextKey(t) => text.AppendText(t);
    }
  }

  class Map {
    var entries: array<Entry>
    var capacity: nat
    var used: nat
    const algorithm: HashAlgorithm
    const growFactor: real
    const growable: bool

    ghost predicate Shape()
      reads this
    {
      entries.Length == capacity
    }

    /** The counter equals the number of used slots: true of every map the
        plain constructor starts, kept by `Insert`, `Remove` and `Resize`,
        but not of the copies, whose counter starts too high. */
    ghost predicate Counted()
      reads this, entries
    {
      Shape() && used == UsedCount(entries[..])
    }

    ghost predicate Healthy()
      reads this, entries
    {
      Shape() && HealthyTable(entries[..], algorithm)
    }

    ghost function Lookup(k: Key): Option<int>
      reads this, entries
      requires Shape() && capacity > 0
    {
      LookupIn(entries[..], algorithm, k)
    }

    predicate GrowsNow()
      reads this
    {
      Grows(capacity, used, growable, growFactor)
    }

    /** What `Insert(k, _)` needs in order to finish: the checks of
        `Resize(2 * capacity)` when it grows, and a slot to stop at (`k`
        itself or an unused one) when it does not. */
    ghost predicate InsertReady(k: Key)
      reads this, entries
    {
      Shape() && capacity > 0 &&
      (GrowsNow() ==> 2 * capacity >= used) &&
      (!GrowsNow() ==> Terminates(entries[..], algorithm, k))
    }

    /** The table `Insert` probes: first doubled by `Resize` when it grows. */
    ghost function GrownTable(): (r: seq<Entry>)
      reads this, entries
      requires Shape() && capacity > 0
      ensures |r| > 0 && (GrowsNow() ==> |r| == 2 * capacity && HasFree(r))
      ensures !GrowsNow() ==> r == entries[..]
    {
      if GrowsNow() then
        var r := Rehash(entries[..], algorithm, 2 * capacity);
        CountBelowHasFree(r);
        r
      else entries[..]
    }

    /** `GetSize()`: the counter, which is the number of stored pairs
        whenever the counter is accurate. */
    function GetSize(): (n: nat)
      reads this, entries
      ensures Counted() ==> n == UsedCount(entries[..]) && n <= capacity
    {
      used
    }

    /** `Map(capacity, algorithm, growFactor, growable)` (defaults 1024,
        FNV-1a, 0.7, growable): every slot unused, size 0. */
    constructor (c: nat, alg: HashAlgorithm, gf: real, canGrow: bool)
      ensures Shape() && fresh(entries) && capacity == c && used == 0
      ensures algorithm == alg && growFactor == gf && growable == canGrow
      ensures forall i :: 0 <= i < c ==> !entries[i].used
      ensures Counted() && (c > 0 ==> Healthy() && forall k :: Lookup(k) == None)
    {
      capacity := c;
      used := 0;
      algorithm := alg;
      growFactor := gf;
      growable := canGrow;
      entries := new Entry[c](_ => EMPTY);
      new;
      assert entries[..] == seq(c, _ => EMPTY);
      UsedCountEmpty(c);
    }

    /** `keyToIndex`: the key's home slot. */
    method KeyToIndex(k: Key) returns (i: nat)
      requires capacity > 0
      ensures i == HomeSlot(k, algorithm, capacity)
    {
      match k {
        case IntKey(x) =>
          i := (x % TWO_64) % capacity;
        case TextKey(t) =>
          var h := CalculateHash(algorithm, TextBytes(t));
          i := (h as int) % capacity;
      }
    }

    /** `find`: walk from the home slot until the key or an unused slot. */
    method FindEntry(k: Key) returns (slot: Option<nat>)
      requires Shape() && Terminates(entries[..], algorithm, k)
      ensures slot == LocateIn(entries[..], algorithm, k)
    {
      var index := KeyToIndex(k);
      ghost var h := index;
      ghost var e := entries[..];
      ghost var steps := 0;
      if LocateIn(e, algorithm, k).None? {
        HasFreeStep(e, h);
      }
      while entries[index].used
        invariant steps < capacity && index == Slot(h, steps, capacity)
        invariant Probe(e, k, h, steps) == Probe(e, k, h, 0)
        invariant Probe(e, k, h, 0).Some? ||
                  (FreeStep(e, h, 0).Some? && steps <= FreeStep(e, h, 0).value && FreeStep(e, h, steps) == FreeStep(e, h, 0))
        decreases capacity - steps
      {
        if entries[index].key == k {
          return Some(index);
        }
        ProbeAdvance(e, k, h, steps);
        index := (index + 1) % capacity;
        steps := steps + 1;
      }
      return None;
    }

    /** `Exists`: whether `find` locates the key; in a healthy table, whether
        the key is stored at all. */
    method Exists(k: Key) returns (b: bool)
      requires Shape() && Terminates(entries[..], algorithm, k)
      ensures b == LocateIn(entries[..], algorithm, k).Some?
      ensures Healthy() ==> (b <==> KeyStored(entries[..], k))
    {
      var slot := FindEntry(k);
      b := slot.Some?;
      if Healthy() {
        LocateExact(entries[..], algorithm, k);
      }
    }

    /** `Find`: the slot of the key, or `None` for `end()`. */
    method Find(k: Key) returns (slot: Option<nat>)
      requires Shape() && Terminates(entries[..], algorithm, k)
      ensures slot == LocateIn(entries[..], algorithm, k)
      ensures slot.Some? ==> slot.value < capacity && entries[slot.value].used && entries[slot.value].key == k
      ensures Healthy() ==> (slot.None? <==> !KeyStored(entries[..], k))
    {
      slot := FindEntry(k);
      if Healthy() {
        LocateExact(entries[..], algorithm, k);
      }
    }

    /** `Get`: the value of a key `find` locates (a missing key is rejected). */
    method Get(k: Key) returns (v: int)
      requires Shape() && capacity > 0 && LocateIn(entries[..], algorithm, k).Some?
      ensures Lookup(k) == Some(v)
      ensures Healthy() ==> Stored(entries[..], k, v)
    {
      var slot := FindEntry(k);
      v := entries[slot.value].value;
      if Healthy() {
        LookupExact(entries[..], algorithm, k, v);
      }
    }

    /** The probe loop of `Resize`: `x` goes into the first unused slot from
        its home slot. */
    method PlaceEntry(x: Entry)
      requires Shape() && capacity > 0 && HasFree(entries[..])
      modifies entries
      ensures entries[..] == Place(old(entries[..]), algorithm, x)
    {
      var index := KeyToIndex(x.key);
      ghost var h := index;
      ghost var e := entries[..];
      ghost var steps := 0;
      HasFreeStep(e, h);
      while entries[index].used
        invariant entries[..] == e
        invariant steps <= FreeStep(e, h, 0).value && index == Slot(h, steps, capacity)
        invariant FreeStep(e, h, steps) == FreeStep(e, h, 0)
        decreases capacity - steps
      {
        NextSlot(h, steps, capacity);
        index := (index + 1) % capacity;
        steps := steps + 1;
      }
      entries[index] := x;
    }

    /** `Resize(c)`: a fresh table of `c` unused slots, into which the used
        entries are placed again in slot order.  The library checks
        `c >= used` and `c > capacity`. */
    method Resize(c: nat)
      requires Shape() && c >= used && c > capacity
      modifies this
      ensures Shape() && fresh(entries) && capacity == c && used == old(used)
      ensures entries[..] == Rehash(old(entries[..]), algorithm, c)
    {
      var oldEntries := entries;
      var oldCapacity := capacity;
      capacity := c;
      entries := new Entry[c](_ => EMPTY);
      assert entries[..] == Rehash(oldEntries[..0], algorithm, c);
      var i := 0;
      while i < oldCapacity
        invariant 0 <= i <= oldCapacity == oldEntries.Length
        invariant fresh(entries) && Shape() && capacity == c && used == old(used)
        invariant entries[..] == Rehash(oldEntries[..i], algorithm, c)
      {
        assert oldEntries[..i + 1][..i] == oldEntries[..i];
        if oldEntries[i].used {
          CountBelowHasFree(entries[..]);
          PlaceEntry(oldEntries[i]);
        }
        i := i + 1;
      }
      assert oldEntries[..oldCapacity] == oldEntries[..];
    }

    /** The probe loop of `Insert`: overwrite the value of the slot holding
        `k`, or fill the first unused slot and count it. */
    method PutEntry(k: Key, v: int)
      requires Shape() && Terminates(entries[..], algorithm, k)
      modifies this, entries
      ensures entries == old(entries) && capacity == old(capacity)
      ensures entries[..] == Inserted(old(entries[..]), algorithm, k, v)
      ensures used == old(used) + (if LocateIn(old(entries[..]), algorithm, k).Some? then 0 else 1)
    {
      var index := KeyToIndex(k);
      ghost var h := index;
      ghost var e := entries[..];
      ghost var steps := 0;
      if LocateIn(e, algorithm, k).None? {
        HasFreeStep(e, h);
      }
      while entries[index].used
        invariant entries == old(entries) && capacity == old(capacity) && used == old(used)
        invariant entries[..] == e
        invariant steps < capacity && index == Slot(h, steps, capacity)
        invariant Probe(e, k, h, steps) == Probe(e, k, h, 0)
        invariant Probe(e, k, h, 0).Some? ||
                  (FreeStep(e, h, 0).Some? && steps <= FreeStep(e, h, 0).value && FreeStep(e, h, steps) == FreeStep(e, h, 0))
        decreases capacity - steps
      {
        if entries[index].key == k {
          InsertedFound(e, algorithm, k, v, index);
          entries[index] := entries[index].(value := v);
          return;
        }
        ProbeAdvance(e, k, h, steps);
        index := (index + 1) % capacity;
        steps := steps + 1;
      }
      InsertedFree(e, algorithm, k, v, steps);
      entries[index] := Entry(k, v, true);
      used := used + 1;
    }

    /** `Insert(k, v)`: grow first when the counter has reached capacity
        times the grow factor, then replace the value of `k` or add it. */
    method Insert(k: Key, v: int)
      requires InsertReady(k)
      modifies this, entries
      ensures Shape() && capacity == (if old(GrowsNow()) then 2 * old(capacity) else old(capacity))
      ensures entries == old(entries) || fresh(entries)
      ensures entries[..] == Inserted(old(GrownTable()), algorithm, k, v)
      ensures used == old(used) + (if LocateIn(old(GrownTable()), algorithm, k).Some? then 0 else 1)
      ensures UsedCount(entries[..]) == old(UsedCount(entries[..])) + (if LocateIn(old(GrownTable()), algorithm, k).Some? then 0 else 1)
      ensures Lookup(k) == Some(v)
      ensures old(Counted()) ==> Counted()
      ensures old(Healthy()) ==> Healthy() && used == old(used) + (if old(Lookup(k)).Some? then 0 else 1)
      ensures old(Healthy()) ==> forall k' :: k' != k ==> Lookup(k') == old(Lookup(k'))
      ensures old(Healthy()) ==> forall k', v' :: Stored(entries[..], k', v') <==>
                                   (k' == k && v' == v) || (k' != k && old(Stored(entries[..], k', v')))
    {
      ghost var e := entries[..];
      ghost var g := GrownTable();
      ghost var grows := GrowsNow();
      if growable && used as real >= capacity as real * growFactor {
        Resize(capacity * 2);
      }
      assert entries[..] == g;
      PutEntry(k, v);
      InsertedFinds(g, algorithm, k, v);
      InsertedCount(g, algorithm, k, v);
      if HealthyTable(e, algorithm) {
        if grows {
          RehashAll(e, algorithm, 2 * |e|);
        }
        InsertedAll(g, algorithm, k, v);
        forall k', v' ensures Stored(g, k', v') <==> Stored(e, k', v') {
          if grows {
            RehashStored(e, algorithm, 2 * |e|, k', v');
          }
        }
      }
    }

    /** `Remove(k)`: mark the slot holding `k` unused and decrement the
        counter (a missing key is rejected).  No tombstone is left; see
        `RemoveBreaksProbeChain`. */
    method Remove(k: Key)
      requires Shape() && capacity > 0 && LocateIn(entries[..], algorithm, k).Some?
      modifies this, entries
      ensures entries == old(entries) && capacity == old(capacity)
      ensures entries[..] == Removed(old(entries[..]), LocateIn(old(entries[..]), algorithm, k).value)
      ensures used == DecrementSize(old(used))
      ensures old(Counted()) ==> Counted()
      ensures old(DistinctKeys(entries[..])) ==>
                DistinctKeys(entries[..]) && !KeyStored(entries[..], k) && LocateIn(entries[..], algorithm, k) == None
      ensures forall k', v' :: k' != k ==> (Stored(entries[..], k', v') <==> old(Stored(entries[..], k', v')))
    {
      var index := KeyToIndex(k);
      ghost var h := index;
      ghost var e := entries[..];
      ghost var steps := 0;
      while entries[index].used
        invariant entries == old(entries) && capacity == old(capacity) && used == old(used)
        invariant entries[..] == e
        invariant steps < capacity && index == Slot(h, steps, capacity)
        invariant Probe(e, k, h, steps) == Probe(e, k, h, 0)
        decreases capacity - steps
      {
        if entries[index].key == k {
          entries[index] := entries[index].(used := false);
          used := DecrementSize(used);
          RemovedAll(e, algorithm, index);
          return;
        }
        ProbeAdvance(e, k, h, steps);
        index := (index + 1) % capacity;
        steps := steps + 1;
      }
      assert false;
    }

    /** `At(k)` (and `operator[]`): the value of `k`, inserting the default
        value 0 first when `find` does not locate it. */
    method At(k: Key) returns (v: int)
      requires Shape() && Terminates(entries[..], algorithm, k)
      requires LocateIn(entries[..], algorithm, k).None? ==> InsertReady(k)
      modifies this, entries
      ensures Shape() && capacity > 0 && Lookup(k) == Some(v)
      ensures old(LocateIn(entries[..], algorithm, k)).Some? ==>
                entries == old(entries) && entries[..] == old(entries[..]) && used == old(used) && capacity == old(capacity)
      ensures old(LocateIn(entries[..], algorithm, k)).None? ==>
                v == 0 && entries[..] == Inserted(old(GrownTable()), algorithm, k, 0) &&
                used == old(used) + (if LocateIn(old(GrownTable()), algorithm, k).Some? then 0 else 1)
      ensures old(Healthy()) ==> Healthy() && forall k' :: k' != k ==> Lookup(k') == old(Lookup(k'))
    {
      var slot := FindEntry(k);
      if slot.None? {
        v := InsertDefault(k);
      } else {
        v := entries[slot.value].value;
      }
    }

    /** The missing-key branch of `At`: `Insert(k, {})`, then `find` again. */
    method InsertDefault(k: Key) returns (v: int)
      requires InsertReady(k)
      modifies this, entries
      ensures Shape() && capacity > 0 && Lookup(k) == Some(v) && v == 0
      ensures entries[..] == Inserted(old(GrownTable()), algorithm, k, 0)
      ensures used == old(used) + (if LocateIn(old(GrownTable()), algorithm, k).Some? then 0 else 1)
      ensures old(Healthy()) ==> Healthy() && forall k' :: k' != k ==> Lookup(k') == old(Lookup(k'))
    {
      Insert(k, 0);
      assert LocateIn(entries[..], algorithm, k).Some?;
      var slot := FindEntry(k);
      v := entries[slot.value].value;
    }

    /** What `Copy` and `CopyWithCapacity` share: every used entry of
        `other`, in slot order, goes through `Insert`, starting from a table
        of unused slots as large as `other`'s. */
    method InsertAll(source: array<Entry>)
      requires entries != source && Shape() && capacity == source.Length && used <= capacity
      requires entries[..] == seq(capacity, _ => EMPTY) && DistinctKeys(source[..])
      modifies this, entries
      ensures Shape() && (entries == old(entries) || fresh(entries))
      ensures used == old(used) + UsedCount(source[..])
      ensures capacity == GrownCapacity(old(capacity), old(used), UsedCount(source[..]), growable, growFactor)
      ensures UsedCount(entries[..]) == UsedCount(source[..]) && DistinctKeys(entries[..])
      ensures capacity > 0 ==> Healthy()
      ensures Pairs(entries[..]) == Pairs(source[..])
    {
      ghost var src := source[..];
      ghost var total := UsedCount(src);
      ghost var n := 0;
      CopyStart(src);
      var i := 0;
      while i < source.Length
        invariant 0 <= i <= source.Length == |src|
        invariant forall j :: 0 <= j < |src| ==> source[j] == src[j]
        invariant entries == old(entries) || fresh(entries)
        invariant CopyState(src, i, n, old(used)) && n <= total
        invariant GrownCapacity(old(capacity), old(used), total, growable, growFactor)
                  == GrownCapacity(capacity, used, total - n, growable, growFactor)
      {
        n := CopyRound(source[i], src, i, n, old(used), total - n);
        i := i + 1;
      }
      CopyDone(src, n, old(used));
      assert source[..] == src;
    }

    /** Before the copy loop: no slot of `src` has been copied. */
    lemma CopyStart(src: seq<Entry>)
      requires Shape() && capacity == |src| && used <= capacity && entries[..] == seq(capacity, _ => EMPTY) && DistinctKeys(src)
      ensures CopyState(src, 0, 0, used)
    {
      UsedCountEmpty(capacity);
      assert src[..0] == [];
    }

    /** After the copy loop: every slot of `src` has been copied. */
    lemma CopyDone(src: seq<Entry>, n: nat, u0: nat)
      requires CopyState(src, |src|, n, u0)
      ensures n == UsedCount(src) && used == u0 + n && UsedCount(entries[..]) == n
      ensures DistinctKeys(entries[..]) && (capacity > 0 ==> Healthy())
      ensures Pairs(entries[..]) == Pairs(src)
    {
      assert src[..|src|] == src;
    }

    /** The copy constructor as written: the counter starts at `other`'s
        and every copied entry increments it again, so a copy of a map whose
        counter is right reports twice its size. */
    constructor Copy(other: Map)
      requires other.Shape() && DistinctKeys(other.entries[..]) && other.used <= other.capacity
      ensures Shape() && fresh(entries)
      ensures algorithm == other.algorithm && growFactor == other.growFactor && growable == other.growable
      ensures used == other.used + UsedCount(other.entries[..])
      ensures capacity == GrownCapacity(other.capacity, other.used, UsedCount(other.entries[..]), growable, growFactor)
      ensures UsedCount(entries[..]) == UsedCount(other.entries[..])
      ensures capacity > 0 ==> Healthy()
      ensures forall k, v :: Stored(entries[..], k, v) <==> Stored(other.entries[..], k, v)
      ensures other.Healthy() ==> forall k :: Lookup(k) == other.Lookup(k)
      ensures other.Counted() ==> used == 2 * other.used
    {
      capacity := other.capacity;
      used := other.used;
      algorithm := other.algorithm;
      growFactor := other.growFactor;
      growable := other.growable;
      entries := new Entry[other.capacity](_ => EMPTY);
      new;
      InsertAll(other.entries);
      CopyAgrees(other);
    }

    /** The copy constructor as evidently intended: the counter starts at 0,
        so the copy's size is the number of entries it holds. */
    constructor CopyCounted(other: Map)
      requires other.Shape() && DistinctKeys(other.entries[..])
      ensures Shape() && fresh(entries)
      ensures algorithm == other.algorithm && growFactor == other.growFactor && growable == other.growable
      ensures Counted() && used == UsedCount(other.entries[..])
      ensures capacity == GrownCapacity(other.capacity, 0, UsedCount(other.entries[..]), growable, growFactor)
      ensures capacity > 0 ==> Healthy()
      ensures forall k, v :: Stored(entries[..], k, v) <==> Stored(other.entries[..], k, v)
      ensures other.Healthy() ==> forall k :: Lookup(k) == other.Lookup(k)
      ensures other.Counted() ==> used == other.used
    {
      capacity := other.capacity;
      used := 0;
      algorithm := other.algorithm;
      growFactor := other.growFactor;
      growable := other.growable;
      entries := new Entry[other.capacity](_ => EMPTY);
      new;
      InsertAll(other.entries);
      CopyAgrees(other);
    }

    /** `Map(other, capacity)`: the copy constructor as written, then
        `Resize(c)`, whose checks become this constructor's requirements. */
    constructor CopyWithCapacity(other: Map, c: nat)
      requires other.Shape() && DistinctKeys(other.entries[..]) && other.used <= other.capacity
      requires c >= other.used + UsedCount(other.entries[..])
      requires c > GrownCapacity(other.capacity, other.used, UsedCount(other.entries[..]), other.growable, other.growFactor)
      ensures Shape() && fresh(entries) && capacity == c
      ensures algorithm == other.algorithm && growFactor == other.growFactor && growable == other.growable
      ensures used == other.used + UsedCount(other.entries[..])
      ensures UsedCount(entries[..]) == UsedCount(other.entries[..])
      ensures Healthy()
      ensures forall k, v :: Stored(entries[..], k, v) <==> Stored(other.entries[..], k, v)
      ensures other.Healthy() ==> forall k :: Lookup(k) == other.Lookup(k)
    {
      capacity := other.capacity;
      used := other.used;
      algorithm := other.algorithm;
      growFactor := other.growFactor;
      growable := other.growable;
      entries := new Entry[other.capacity](_ => EMPTY);
      new;
      InsertAll(other.entries);
      ghost var t := entries[..];
      Resize(c);
      RehashHealthy(t, algorithm, c);
      RehashPairs(t, algorithm, c);
      CopyAgrees(other);
    }

    /** A table holding exactly the pairs of `other` answers its lookups. */
    lemma CopyAgrees(other: Map)
      requires Shape() && other.Shape() && algorithm == other.algorithm
      requires Pairs(entries[..]) == Pairs(other.entries[..])
      requires capacity > 0 ==> Healthy()
      requires other.Healthy() ==> capacity > 0
      ensures forall k, v :: Stored(entries[..], k, v) <==> Stored(other.entries[..], k, v)
      ensures other.Healthy() ==> forall k :: Lookup(k) == other.Lookup(k)
    {
      PairsStored(entries[..]);
      PairsStored(other.entries[..]);
      if other.Healthy() {
        forall k ensures Lookup(k) == other.Lookup(k) {
          LookupAgree(entries[..], other.entries[..], algorithm, k);
        }
      }
    }

    /** `ToString`: `Map(`, then every used entry in slot order as
        `key : value`, each followed by `, ` while fewer entries than the
        counter says have been written, then `)`. */
    method ToString() returns (text: NtlString.String)
      requires Shape()
      ensures fresh(text) && text.Valid()
      ensures text.Contents() == MapText(entries[..], used)
    {
      NtlString.CStrOfPlain("Map(");
      text := new NtlString.String.FromCString("Map(");
      ghost var e := entries[..];
      var appended := 0;
      var i := 0;
      while i < capacity
        invariant 0 <= i <= capacity == |e|
        invariant fresh(text) && fresh(text.data) && text.Valid()
        invariant appended == UsedCount(e[..i])
        invariant text.Contents() == "Map(" + SlotsText(e[..i], used)
      {
        appended := AppendSlot(text, e, i, entries[i], appended, used);
        i := i + 1;
      }
      NtlString.CStrOfPlain(")");
      text.AppendCString(")");
      SlotsDone(e, used);
      assert entries[..] == e;
    }

    /** The state of the copy loop after the first `i` slots of the copied table
        `src`, `n` of them used, starting from a counter reading `u0`. */
    ghost predicate CopyState(src: seq<Entry>, i: nat, n: nat, u0: nat)
      reads this, entries
    {
      Shape() && i <= |src| <= capacity && u0 <= |src| && DistinctKeys(src) &&
      n == UsedCount(src[..i]) && used == u0 + n && UsedCount(entries[..]) == n &&
      (capacity > 0 ==> HealthyTable(entries[..], algorithm)) && DistinctKeys(entries[..]) &&
      Pairs(entries[..]) == Pairs(src[..i])
    }

    /** One round of the copy loop: slot `i` of the copied table, `x`, is inserted
        when used and skipped otherwise. */
    method CopyRound(x: Entry, ghost src: seq<Entry>, ghost i: nat, ghost n: nat, ghost u0: nat, ghost rest: nat)
      returns (ghost n': nat)
      requires i < |src| && x == src[i] && CopyState(src, i, n, u0) && rest == UsedCount(src) - n
      modifies this, entries
      ensures entries == old(entries) || fresh(entries)
      ensures CopyState(src, i + 1, n', u0) && n' == n + (if x.used then 1 else 0) <= UsedCount(src)
      ensures GrownCapacity(old(capacity), old(used), rest, growable, growFactor)
              == GrownCapacity(capacity, used, UsedCount(src) - n', growable, growFactor)
    {
      if x.used {
        n' := CopyUsed(x, src, i, n, u0, rest);
      } else {
        SkipUnused(src, i, n, u0);
        n' := n;
      }
    }

    /** The copy round of a used slot: its entry is inserted. */
    method CopyUsed(x: Entry, ghost src: seq<Entry>, ghost i: nat, ghost n: nat, ghost u0: nat, ghost rest: nat)
      returns (ghost n': nat)
      requires i < |src| && x == src[i] && x.used && CopyState(src, i, n, u0) && rest == UsedCount(src) - n
      modifies this, entries
      ensures entries == old(entries) || fresh(entries)
      ensures CopyState(src, i + 1, n', u0) && n' == n + 1 <= UsedCount(src)
      ensures GrownCapacity(old(capacity), old(used), rest, growable, growFactor)
              == GrownCapacity(capacity, used, UsedCount(src) - n', growable, growFactor)
    {
      ghost var p := src[..i];
      UsedCountSnoc(src, i);
      ghost var c0, u := capacity, used;
      CopyKeyFresh(src, i);
      CopyEntry(x, p);
      n' := n + 1;
      assert src[..i + 1] == p + [x] && Pairs(entries[..]) == Pairs(src[..i + 1]);
      assert HealthyTable(entries[..], algorithm) && DistinctKeys(entries[..]);
      GrownStep(c0, u, rest, growable, growFactor);
      assert capacity == (if Grows(c0, u, growable, growFactor) then 2 * c0 else c0);
      assert used == u + 1 && UsedCount(src) - n' == rest - 1;
    }

    /** The copy round of an unused slot changes nothing and keeps the state. */
    lemma SkipUnused(src: seq<Entry>, i: nat, n: nat, u0: nat)
      requires i < |src| && !src[i].used && CopyState(src, i, n, u0)
      ensures CopyState(src, i + 1, n, u0) && n <= UsedCount(src)
    {
      ghost var p := src[..i];
      UsedCountSnoc(src, i);
      StoredExtend(p, src[i]);
      PairsAgree(p + [src[i]], p);
    }

    /** One round of the copy loop: `Insert` of a used source entry `x`
        whose key is not among the pairs `p` copied so far. */
    method CopyEntry(x: Entry, ghost p: seq<Entry>)
      requires x.used && Shape() && capacity > 0 && HealthyTable(entries[..], algorithm)
      requires Pairs(entries[..]) == Pairs(p)
      requires forall j :: 0 <= j < |p| && p[j].used ==> p[j].key != x.key
      requires UsedCount(entries[..]) < capacity && used <= 2 * capacity
      modifies this, entries
      ensures Shape() && capacity == (if old(GrowsNow()) then 2 * old(capacity) else old(capacity))
      ensures entries == old(entries) || fresh(entries)
      ensures used == old(used) + 1 && UsedCount(entries[..]) == old(UsedCount(entries[..])) + 1
      ensures HealthyTable(entries[..], algorithm)
      ensures Pairs(entries[..]) == Pairs(p + [x])
    {
      ghost var t := entries[..];
      PairsStored(t);
      PairsStored(p);
      CopyStep(t, p, x, algorithm);
      Insert(x.key, x.value);
      StoredExtend(p, x);
      CopyStored(t, entries[..], p, x);
      PairsAgree(entries[..], p + [x]);
    }
  }

  /** `Remove` in summary: a removed key held once is gone, other pairs stay
      stored and the count of used slots drops by one. */
  lemma RemovedAll(e: seq<Entry>, alg: HashAlgorithm, i: nat)
    requires i < |e| && e[i].used
    ensures UsedCount(Removed(e, i)) + 1 == UsedCount(e)
    ensures DistinctKeys(e) ==> DistinctKeys(Removed(e, i)) && !KeyStored(Removed(e, i), e[i].key) &&
                                LocateIn(Removed(e, i), alg, e[i].key) == None
    ensures forall k', v' :: k' != e[i].key ==> (Stored(Removed(e, i), k', v') <==> Stored(e, k', v'))
  {
    RemovedFacts(e, i, e[i].key, 0);
    if DistinctKeys(e) {
      RemovedMisses(e, alg, i);
    }
    forall k', v' | k' != e[i].key ensures Stored(Removed(e, i), k', v') <==> Stored(e, k', v') {
      RemovedFacts(e, i, k', v');
    }
  }

  /** Extending a table by one slot stores exactly one more pair, if used. */
  lemma StoredExtend(p: seq<Entry>, x: Entry)
    ensures forall k, v :: Stored(p + [x], k, v) <==> Stored(p, k, v) || (x.used && x.key == k && x.value == v)
  {
    forall k, v ensures Stored(p + [x], k, v) <==> Stored(p, k, v) || (x.used && x.key == k && x.value == v) {
      assert (p + [x])[..|p|] == p;
      StoredSplit(p + [x], k, v);
    }
  }

  /** The pairs a table stores, as a set. */
  ghost function Pairs(e: seq<Entry>): set<(Key, int)> {
    set i | 0 <= i < |e| && e[i].used :: (e[i].key, e[i].value)
  }

  lemma PairsStored(e: seq<Entry>)
    ensures forall k, v :: Stored(e, k, v) <==> (k, v) in Pairs(e)
  {
    forall k, v ensures Stored(e, k, v) <==> (k, v) in Pairs(e) {
      if (k, v) in Pairs(e) {
        var i :| 0 <= i < |e| && e[i].used && (e[i].key, e[i].value) == (k, v);
      }
    }
  }

  lemma PairsAgree(e: seq<Entry>, f: seq<Entry>)
    requires forall k, v :: Stored(e, k, v) <==> Stored(f, k, v)
    ensures Pairs(e) == Pairs(f)
  {
    PairsStored(e);
    PairsStored(f);
    forall z | z in Pairs(e) ensures z in Pairs(f) {
      assert Stored(e, z.0, z.1);
    }
    forall z | z in Pairs(f) ensures z in Pairs(e) {
      assert Stored(f, z.0, z.1);
    }
  }

  /** The pairs of the copy after one more `Insert` are those of one more
      slot of the copied table. */
  lemma CopyStored(t: seq<Entry>, r: seq<Entry>, p: seq<Entry>, x: Entry)
    requires x.used && forall k, v :: Stored(t, k, v) <==> Stored(p, k, v)
    requires forall j :: 0 <= j < |p| && p[j].used ==> p[j].key != x.key
    requires forall k, v :: Stored(r, k, v) <==> (k == x.key && v == x.value) || (k != x.key && Stored(t, k, v))
    ensures forall k, v :: Stored(r, k, v) <==> Stored(p, k, v) || (x.used && x.key == k && x.value == v)
  {
  }

  /** The count of a prefix one slot longer, and the count of any prefix
      is at most the total. */
  lemma UsedCountSnoc(e: seq<Entry>, i: nat)
    requires i < |e|
    ensures e[..i + 1] == e[..i] + [e[i]]
    ensures UsedCount(e[..i + 1]) == UsedCount(e[..i]) + (if e[i].used then 1 else 0) <= UsedCount(e)
  {
    assert e[..i + 1][..i] == e[..i];
    UsedCountPrefix(e, i + 1);
  }

  /** `Resize` keeps the set of stored pairs. */
  lemma RehashPairs(e: seq<Entry>, alg: HashAlgorithm, c: nat)
    requires |e| < c
    ensures Pairs(Rehash(e, alg, c)) == Pairs(e)
  {
    forall k, v ensures Stored(Rehash(e, alg, c), k, v) <==> Stored(e, k, v) {
      RehashStored(e, alg, c, k, v);
    }
    PairsAgree(Rehash(e, alg, c), e);
  }

  /** One more slot of the rendering loop. */
  lemma SlotsStep(e: seq<Entry>, i: nat, total: nat)
    requires i < |e|
    ensures "Map(" + SlotsText(e[..i + 1], total)
            == "Map(" + SlotsText(e[..i], total) + (if e[i].used then Item(e[i], UsedCount(e[..i + 1]) < total) else "")
  {
    assert e[..i + 1][..i] == e[..i];
  }

  /** A growable map whose counter is right and whose grow factor is at most
      1 can always insert: it either has a free slot or doubles first. */
  lemma GrowableNeverStalls(m: Map, k: Key)
    requires m.Counted() && m.capacity > 0 && m.growable && m.growFactor <= 1.0
    ensures m.InsertReady(k)
  {
    if !m.GrowsNow() {
      assert m.capacity as real * m.growFactor <= m.capacity as real;
      CountBelowHasFree(m.entries[..]);
    }
  }

  /** The size reported after copying a map of one entry: 2 through the
      copy constructor as written, 1 through the corrected one. */
  method CopySizeExample() returns (original: nat, copied: nat, corrected: nat)
    ensures original == 1 && copied == 2 && corrected == 1
  {
    var m := new Map(DEFAULT_MAP_CAPACITY, FNV1a, DEFAULT_GROW_FACTOR, true);
    GrowableNeverStalls(m, IntKey(1));
    m.Insert(IntKey(1), 10);
    var c := new Map.Copy(m);
    var d := new Map.CopyCounted(m);
    original := m.GetSize();
    copied := c.GetSize();
    corrected := d.GetSize();
  }

  /** One insertion of a new key in `GrownCapacity`. */
  lemma GrownStep(capacity: nat, count: nat, n: nat, growable: bool, growFactor: real)
    requires n > 0
    ensures GrownCapacity(capacity, count, n, growable, growFactor)
            == GrownCapacity(if Grows(capacity, count, growable, growFactor) then 2 * capacity else capacity,
                             count + 1, n - 1, growable, growFactor)
  {
  }

  /** A used key of a table with distinct keys is not among the slots
      before it. */
  lemma CopyKeyFresh(e: seq<Entry>, i: nat)
    requires i < |e| && e[i].used && DistinctKeys(e)
    ensures forall j :: 0 <= j < |e[..i]| && e[..i][j].used ==> e[..i][j].key != e[i].key
  {
  }

  /** A key held by none of the pairs of a healthy table `t` is not located
      in it, and a table with fewer used slots than slots has a free one. */
  lemma CopyStep(t: seq<Entry>, p: seq<Entry>, x: Entry, alg: HashAlgorithm)
    requires HealthyTable(t, alg) && UsedCount(t) < |t|
    requires forall k, v :: Stored(t, k, v) <==> Stored(p, k, v)
    requires forall j :: 0 <= j < |p| && p[j].used ==> p[j].key != x.key
    ensures LocateIn(t, alg, x.key) == None && HasFree(t)
  {
    forall j | 0 <= j < |t| && t[j].used
      ensures t[j].key != x.key
    {
      assert Stored(t, t[j].key, t[j].value);
    }
    LocateExact(t, alg, x.key);
    CountBelowHasFree(t);
  }

}