/**
 * A value-level picture of the hash table: each slot is empty or holds a
 * snapshot (key, frequency, probe count) of its HashObject. Insert and Search
 * say what Hashtable.insert and Hashtable.search do to that picture; the
 * lemmas state what the table promises its callers.
 */
module TableSpec {
  import opened Wrappers
  import opened JavaLang
  import opened Hashing
  import NumberTheory

  /** The state of one HashObject. */
  datatype Entry<K> = Entry(key: K, frequency: int32, probes: int32)

  /** The table's slots; None is a null slot. */
  type Slots<K> = seq<Option<Entry<K>>>

  /** What a table is built from: its subclass, the keys' hashCode, and its capacity. */
  datatype Config<!K> = Config(strategy: Strategy, hash: K -> int32, capacity: int)

  predicate WellFormed<K>(c: Config<K>)
  {
    ValidCapacity(c.strategy, c.capacity)
  }

  function Home<K>(c: Config<K>, key: K): int
    requires WellFormed(c)
  {
    H1(c.strategy, c.hash(key), c.capacity)
  }

  function Step<K>(c: Config<K>, key: K): int
    requires WellFormed(c)
  {
    H2(c.strategy, c.hash(key), c.capacity)
  }

  /** The slot examined at probe i for key: the same for insert and search. */
  function Slot<K>(c: Config<K>, key: K, i: nat): int
    requires WellFormed(c)
  {
    Probe(Home(c, key), Step(c, key), c.capacity, i)
  }

  /** The probe loop ends at slot j: it is null or holds an equal key. */
  predicate StopsAt<K(==)>(s: Slots<K>, key: K, j: int)
    requires 0 <= j < |s|
  {
    s[j].None? || s[j].value.key == key
  }

  /** Some slot among key's first `capacity` probes ends the loop; by ProbeRepeats, otherwise none ever does. */
  predicate Reaches<K(==)>(c: Config<K>, s: Slots<K>, key: K)
    requires WellFormed(c) && |s| == c.capacity
  {
    exists i :: 0 <= i < c.capacity && StopsAt(s, key, Slot(c, key, i))
  }

  /** The number of probes, from `from` on, after which the loop stops. */
  function FirstStop<K(==)>(c: Config<K>, s: Slots<K>, key: K, from: nat): (n: nat)
    requires WellFormed(c) && |s| == c.capacity
    requires exists i :: from <= i < c.capacity && StopsAt(s, key, Slot(c, key, i))
    ensures from <= n < c.capacity && StopsAt(s, key, Slot(c, key, n))
    ensures forall i :: from <= i < n ==> !StopsAt(s, key, Slot(c, key, i))
    decreases c.capacity - from
  {
    if StopsAt(s, key, Slot(c, key, from)) then from else FirstStop(c, s, key, from + 1)
  }

  /** The slot where insert and search for key end. */
  function StopSlot<K(==)>(c: Config<K>, s: Slots<K>, key: K): int
    requires WellFormed(c) && |s| == c.capacity && Reaches(c, s, key)
  {
    Slot(c, key, FirstStop(c, s, key, 0))
  }

  /** A slot with its probe counter forgotten. */
  function Unprobed<K>(o: Option<Entry<K>>): Option<Entry<K>>
  {
    match o
    case None => None
    case Some(e) => Some(e.(probes := 0))
  }

  /** incrementProbeCount on the slot's object, if any. */
  function Bump<K>(o: Option<Entry<K>>): Option<Entry<K>>
  {
    match o
    case None => None
    case Some(e) => Some(e.(probes := Inc(e.probes)))
  }

  /** The slots after the objects at key's first n probes had their probe counters incremented, in order. */
  function BumpPath<K>(c: Config<K>, s: Slots<K>, key: K, n: nat): (t: Slots<K>)
    requires WellFormed(c) && |s| == c.capacity
    ensures |t| == |s|
    ensures forall j :: 0 <= j < |s| ==> Unprobed(t[j]) == Unprobed(s[j])
    decreases n
  {
    if n == 0 then s
    else
      var t := BumpPath(c, s, key, n - 1);
      var j := Slot(c, key, n - 1);
      t[j := Bump(t[j])]
  }

  /**
   * Hashtable.insert: bump the probe counter of every object passed over,
   * then place a new entry (frequency 1, probe count 0) in the null slot
   * reached, or bump the frequency of the equal key found there.
   */
  function Insert<K(==)>(c: Config<K>, s: Slots<K>, key: K): Slots<K>
    requires WellFormed(c) && |s| == c.capacity && Reaches(c, s, key)
  {
    var n := FirstStop(c, s, key, 0);
    var j := Slot(c, key, n);
    var t := BumpPath(c, s, key, n);
    t[j := match t[j]
           case None => Some(Entry(key, 1, 0))
           case Some(e) => Some(e.(frequency := Inc(e.frequency)))]
  }

  datatype SearchResult<K> = SearchResult(found: Option<int>, slots: Slots<K>)

  /**
   * Hashtable.search: bump the probe counter of every object examined,
   * the match included; report the slot of the match, or None at a null slot.
   */
  function Search<K(==)>(c: Config<K>, s: Slots<K>, key: K): SearchResult<K>
    requires WellFormed(c) && |s| == c.capacity && Reaches(c, s, key)
  {
    var n := FirstStop(c, s, key, 0);
    var j := Slot(c, key, n);
    if s[j].None? then SearchResult(None, BumpPath(c, s, key, n))
    else SearchResult(Some(j), BumpPath(c, s, key, n + 1))
  }

  /** The keys held by the table. */
  ghost function StoredKeys<K>(s: Slots<K>): set<K>
  {
    set j | 0 <= j < |s| && s[j].Some? :: s[j].value.key
  }

  /**
   * The table invariant: every stored key sits exactly where its own probe
   * sequence first stops, so every earlier slot of its sequence holds
   * another key.
   */
  ghost predicate Placed<K>(c: Config<K>, s: Slots<K>)
    requires WellFormed(c) && |s| == c.capacity
  {
    forall j :: 0 <= j < |s| ==> PlacedAt(c, s, j)
  }

  /** Slot j is empty, or its key's probe sequence first stops at j. */
  ghost predicate PlacedAt<K>(c: Config<K>, s: Slots<K>, j: int)
    requires WellFormed(c) && |s| == c.capacity && 0 <= j < |s|
  {
    s[j].Some? ==> Reaches(c, s, s[j].value.key) && StopSlot(c, s, s[j].value.key) == j
  }

  /** Slot x is among key's first n probes. */
  ghost predicate OnPath<K>(c: Config<K>, key: K, n: nat, x: int)
    requires WellFormed(c)
  {
    exists i :: 0 <= i < n && Slot(c, key, i) == x
  }

  // ---------------------------------------------------------------------
  // Lemmas
  // ---------------------------------------------------------------------

  /** A probe count n that stops after n non-stopping probes is the first stop. */
  lemma FirstStopIs<K>(c: Config<K>, s: Slots<K>, key: K, n: nat)
    requires WellFormed(c) && |s| == c.capacity && n < c.capacity
    requires StopsAt(s, key, Slot(c, key, n))
    requires forall i :: 0 <= i < n ==> !StopsAt(s, key, Slot(c, key, i))
    ensures Reaches(c, s, key) && FirstStop(c, s, key, 0) == n
  {
    assert Reaches(c, s, key);
  }

  /** The first n probes pass no stop, so they do not touch the slot where the loop ends. */
  lemma {:induction false} BumpPathOffPath<K>(c: Config<K>, s: Slots<K>, key: K, n: nat, x: int)
    requires WellFormed(c) && |s| == c.capacity && 0 <= x < |s|
    requires forall i :: 0 <= i < n ==> Slot(c, key, i) != x
    ensures BumpPath(c, s, key, n)[x] == s[x]
    decreases n
  {
    if n > 0 {
      BumpPathOffPath(c, s, key, n - 1, x);
    }
  }

  /**
   * With a step coprime to the capacity and n <= capacity, the objects on key's
   * first n probes have their probe count raised by exactly one and all others
   * are untouched.
   */
  lemma {:induction false} BumpPathExact<K>(c: Config<K>, s: Slots<K>, key: K, n: nat, x: int)
    requires WellFormed(c) && |s| == c.capacity && 0 <= x < |s| && n <= c.capacity
    requires NumberTheory.Gcd(Step(c, key), c.capacity) == 1
    ensures BumpPath(c, s, key, n)[x] == if OnPath(c, key, n, x) then Bump(s[x]) else s[x]
    decreases n
  {
    if n > 0 {
      var q := Slot(c, key, n - 1);
      BumpPathExact(c, s, key, n - 1, x);
      if x == q {
        forall i | 0 <= i < n - 1
          ensures Slot(c, key, i) != q
        {
          ProbesDistinct(Home(c, key), Step(c, key), c.capacity, i, n - 1);
        }
        assert !OnPath(c, key, n - 1, x);
        assert OnPath(c, key, n, x);
      } else {
        assert OnPath(c, key, n, x) == OnPath(c, key, n - 1, x);
      }
    }
  }

  /**
   * What insert does: at the slot where its probes stop it places a new
   * entry with frequency 1 and probe count 0 if that slot was null, or raises
   * the frequency of the equal key there by one; every other slot keeps its
   * key and frequency.
   */
  lemma InsertEffect<K>(c: Config<K>, s: Slots<K>, key: K)
    requires WellFormed(c) && |s| == c.capacity && Reaches(c, s, key)
    ensures var j, t := StopSlot(c, s, key), Insert(c, s, key);
      && |t| == |s|
      && (s[j].None? ==> t[j] == Some(Entry(key, 1, 0)))
      && (s[j].Some? ==> s[j].value.key == key
                         && t[j] == Some(s[j].value.(frequency := Inc(s[j].value.frequency))))
      && (forall x :: 0 <= x < |s| && x != j ==> Unprobed(t[x]) == Unprobed(s[x]))
  {
    var n := FirstStop(c, s, key, 0);
    var j := Slot(c, key, n);
    forall i | 0 <= i < n
      ensures Slot(c, key, i) != j
    {
      assert !StopsAt(s, key, Slot(c, key, i));
    }
    BumpPathOffPath(c, s, key, n, j);
  }

  /**
   * The probe counters insert changes, when the step is coprime to the
   * capacity: exactly the objects passed over gain one probe.
   */
  lemma InsertBumpsPassedSlots<K>(c: Config<K>, s: Slots<K>, key: K, x: int)
    requires WellFormed(c) && |s| == c.capacity && Reaches(c, s, key)
    requires NumberTheory.Gcd(Step(c, key), c.capacity) == 1
    requires 0 <= x < |s| && x != StopSlot(c, s, key)
    ensures Insert(c, s, key)[x]
      == if OnPath(c, key, FirstStop(c, s, key, 0), x) then Bump(s[x]) else s[x]
  {
    BumpPathExact(c, s, key, FirstStop(c, s, key, 0), x);
  }

  /** A search after an insert of the same key finds it, at the slot insert used. */
  lemma InsertThenSearch<K>(c: Config<K>, s: Slots<K>, key: K)
    requires WellFormed(c) && |s| == c.capacity && Reaches(c, s, key)
    ensures var t := Insert(c, s, key);
      && |t| == |s| && Reaches(c, t, key)
      && Search(c, t, key).found == Some(StopSlot(c, s, key))
      && t[StopSlot(c, s, key)].Some? && t[StopSlot(c, s, key)].value.key == key
  {
    var t := Insert(c, s, key);
    var n := FirstStop(c, s, key, 0);
    InsertEffect(c, s, key);
    forall i | 0 <= i < n
      ensures !StopsAt(t, key, Slot(c, key, i))
    {
      assert !StopsAt(s, key, Slot(c, key, i));
    }
    FirstStopIs(c, t, key, n);
  }

  /** A key stored away from the insert's slot keeps its first stop: insert only fills a slot its path never passed. */
  lemma InsertKeepsOtherPlaced<K>(c: Config<K>, s: Slots<K>, key: K, x: int)
    requires WellFormed(c) && |s| == c.capacity && Reaches(c, s, key)
    requires Placed(c, s)
    requires 0 <= x < |s| && s[x].Some? && x != StopSlot(c, s, key)
    ensures var t, k := Insert(c, s, key), s[x].value.key;
      |t| == |s| && Reaches(c, t, k) && StopSlot(c, t, k) == x
  {
    var t := Insert(c, s, key);
    var p := StopSlot(c, s, key);
    InsertEffect(c, s, key);
    assert PlacedAt(c, s, x);
    var k := s[x].value.key;
    var n := FirstStop(c, s, k, 0);
    forall i | 0 <= i < n
      ensures !StopsAt(t, k, Slot(c, k, i))
    {
      var y := Slot(c, k, i);
      assert !StopsAt(s, k, y);
      if y == p {
        assert t[p].value.key == s[p].value.key;
      } else {
        assert Unprobed(t[y]) == Unprobed(s[y]);
      }
    }
    assert Unprobed(t[x]) == Unprobed(s[x]);
    FirstStopIs(c, t, k, n);
  }

  /** Insert keeps every stored key where its probe sequence first stops. */
  lemma InsertKeepsPlaced<K>(c: Config<K>, s: Slots<K>, key: K)
    requires WellFormed(c) && |s| == c.capacity && Reaches(c, s, key)
    requires Placed(c, s)
    ensures Placed(c, Insert(c, s, key))
  {
    var t := Insert(c, s, key);
    var p := StopSlot(c, s, key);
    InsertEffect(c, s, key);
    forall x | 0 <= x < |t|
      ensures PlacedAt(c, t, x)
    {
      if x == p {
        InsertThenSearch(c, s, key);
      } else if t[x].Some? {
        assert Unprobed(t[x]) == Unprobed(s[x]);
        InsertKeepsOtherPlaced(c, s, key, x);
      }
    }
  }

  /** No two slots of a placed table hold equal keys: one object per key. */
  lemma PlacedKeysUnique<K>(c: Config<K>, s: Slots<K>, a: int, b: int)
    requires WellFormed(c) && |s| == c.capacity && Placed(c, s)
    requires 0 <= a < |s| && 0 <= b < |s| && s[a].Some? && s[b].Some?
    requires s[a].value.key == s[b].value.key
    ensures a == b
  {
    assert PlacedAt(c, s, a) && PlacedAt(c, s, b);
  }

  /** In a placed table, search finds a key exactly when it is stored, and at its slot. */
  lemma SearchFindsStored<K>(c: Config<K>, s: Slots<K>, key: K)
    requires WellFormed(c) && |s| == c.capacity && Placed(c, s) && Reaches(c, s, key)
    ensures Search(c, s, key).found.Some? <==> key in StoredKeys(s)
    ensures Search(c, s, key).found.Some? ==>
      var j := Search(c, s, key).found.value;
      0 <= j < |s| && s[j].Some? && s[j].value.key == key
  {
    var j := StopSlot(c, s, key);
    if key in StoredKeys(s) {
      var x :| 0 <= x < |s| && s[x].Some? && s[x].value.key == key;
      assert PlacedAt(c, s, x);
    }
  }

  /** Insert adds key to the stored keys and removes none. */
  lemma InsertStoredKeys<K>(c: Config<K>, s: Slots<K>, key: K)
    requires WellFormed(c) && |s| == c.capacity && Reaches(c, s, key)
    ensures StoredKeys(Insert(c, s, key)) == StoredKeys(s) + {key}
  {
    var t := Insert(c, s, key);
    var p := StopSlot(c, s, key);
    InsertEffect(c, s, key);
    forall k | k in StoredKeys(s) + {key}
      ensures k in StoredKeys(t)
    {
      if k == key {
        assert t[p].value.key == key;
      } else {
        var x :| 0 <= x < |s| && s[x].Some? && s[x].value.key == k;
        assert Unprobed(t[x]) == Unprobed(s[x]);
        assert t[x].value.key == k;
      }
    }
    forall k | k in StoredKeys(t)
      ensures k in StoredKeys(s) + {key}
    {
      var x :| 0 <= x < |t| && t[x].Some? && t[x].value.key == k;
      if x != p {
        assert Unprobed(t[x]) == Unprobed(s[x]);
        assert s[x].value.key == k;
      }
    }
  }

  /**
   * Inserting a key already in a placed table changes no slot's occupancy:
   * no second entry is created, only the existing entry's frequency rises.
   */
  lemma InsertDuplicate<K>(c: Config<K>, s: Slots<K>, x: int)
    requires WellFormed(c) && |s| == c.capacity && Placed(c, s)
    requires 0 <= x < |s| && s[x].Some?
    ensures var key := s[x].value.key;
      && Reaches(c, s, key) && StopSlot(c, s, key) == x
      && Insert(c, s, key)[x] == Some(s[x].value.(frequency := Inc(s[x].value.frequency)))
      && forall y :: 0 <= y < |s| ==> (Insert(c, s, key)[y].Some? <==> s[y].Some?)
  {
    var key := s[x].value.key;
    assert PlacedAt(c, s, x);
    InsertEffect(c, s, key);
    forall y | 0 <= y < |s| && y != x
      ensures Insert(c, s, key)[y].Some? <==> s[y].Some?
    {
      assert Unprobed(Insert(c, s, key)[y]) == Unprobed(s[y]);
    }
  }

  /**
   * Inserting a key not in a placed table fills the first null slot of its
   * probe sequence (every earlier probe hits another key) with a new entry.
   */
  lemma InsertNew<K>(c: Config<K>, s: Slots<K>, key: K)
    requires WellFormed(c) && |s| == c.capacity && Placed(c, s) && Reaches(c, s, key)
    requires key !in StoredKeys(s)
    ensures var n := FirstStop(c, s, key, 0);
      && s[Slot(c, key, n)].None?
      && (forall i :: 0 <= i < n ==> s[Slot(c, key, i)].Some? && s[Slot(c, key, i)].value.key != key)
      && Insert(c, s, key)[Slot(c, key, n)] == Some(Entry(key, 1, 0))
  {
    InsertEffect(c, s, key);
  }

  /** Search changes nothing but probe counters. */
  lemma SearchOnlyProbes<K>(c: Config<K>, s: Slots<K>, key: K)
    requires WellFormed(c) && |s| == c.capacity && Reaches(c, s, key)
    ensures var t := Search(c, s, key).slots;
      |t| == |s| && forall x :: 0 <= x < |s| ==> Unprobed(t[x]) == Unprobed(s[x])
  {
  }

  /**
   * With a step coprime to the capacity, search raises by one the probe
   * count of every object it examines (the match included) and of no other.
   */
  lemma SearchBumpsExamined<K>(c: Config<K>, s: Slots<K>, key: K, x: int)
    requires WellFormed(c) && |s| == c.capacity && Reaches(c, s, key)
    requires NumberTheory.Gcd(Step(c, key), c.capacity) == 1
    requires 0 <= x < |s|
    ensures var n := FirstStop(c, s, key, 0);
      var examined := if s[Slot(c, key, n)].None? then n else n + 1;
      Search(c, s, key).slots[x] == if OnPath(c, key, examined, x) then Bump(s[x]) else s[x]
  {
    var n := FirstStop(c, s, key, 0);
    var examined := if s[Slot(c, key, n)].None? then n else n + 1;
    BumpPathExact(c, s, key, examined, x);
  }

  /** On a table where each key's step is coprime to the capacity, a null slot anywhere lets every key's loop end. */
  lemma NullSlotReachable<K>(c: Config<K>, s: Slots<K>, key: K, z: int)
    requires WellFormed(c) && |s| == c.capacity
    requires NumberTheory.Gcd(Step(c, key), c.capacity) == 1
    requires 0 <= z < |s| && s[z].None?
    ensures Reaches(c, s, key)
  {
    ProbesCover(Home(c, key), Step(c, key), c.capacity, z);
    var i :| 0 <= i < c.capacity && Probe(Home(c, key), Step(c, key), c.capacity, i) == z;
    assert StopsAt(s, key, Slot(c, key, i));
  }
}
