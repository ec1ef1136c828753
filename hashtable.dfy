/**
 * Hashtable: the open-addressing table. A fixed array of HashObject
 * references, a size counter, and insert/search loops that walk the probe
 * sequence of the table's strategy (linear probing or double hashing).
 */
module Hashtables {
  import opened Wrappers
  import opened JavaLang
  import opened Hashing
  import opened HashObjects
  import opened TableSpec
  import NumberTheory
  import TwinPrimeGenerator

  class Hashtable<K(==,!new)> {
    /** Which subclass this is: it fixes h1 and h2. */
    const strategy: Strategy
    /** key.hashCode() */
    const hashCode: K -> int32
    const capacity: int32
    /** The slots; null is an empty slot. Assigned only by the constructor. */
    const table: array<HashObject?<K>>
    /** Incremented by every insert, duplicate or not. */
    var size: int32
    /** The number of insert calls so far. */
    ghost var inserts: nat

    /** The slots as values: each object's (key, frequency, probe count), None for null. */
    ghost var slots: Slots<K>

    ghost function Cfg(): Config<K>
    {
      Config(strategy, hashCode, capacity)
    }

    /** The entries the table refers to. */
    ghost function Objects(): set<HashObject<K>>
      reads table
    {
      set o: HashObject<K> | o in table[..]
    }

    /** The slot each object of the table sits in. */
    ghost var slotOf: map<HashObject<K>, int>

    /** No HashObject sits in two slots: each knows its one slot. */
    ghost predicate Distinct()
      reads this, table
    {
      forall j :: 0 <= j < table.Length && table[j] != null ==> table[j] in slotOf && slotOf[table[j]] == j
    }

    /** t is the picture of the array: slot by slot, the state of the object there. */
    ghost predicate Pictures(t: Slots<K>)
      reads table, Objects()
    {
      |t| == table.Length && forall j :: 0 <= j < table.Length ==> PictureAt(t, j)
    }

    /** Slot j of t is None for a null slot, and otherwise the state of the object there. */
    ghost predicate PictureAt(t: Slots<K>, j: int)
      requires |t| == table.Length && 0 <= j < table.Length
      reads table, Objects()
    {
      if table[j] == null then t[j] == None
      else t[j] == Some(Entry(table[j].key, table[j].frequencyCount, table[j].probeCount))
    }

    /**
     * The object invariant: one slot per unit of capacity, no entry in two
     * slots, `slots` pictures the array, size counts insert calls modulo
     * 2^32, and every key sits where its own probe sequence first stops.
     */
    ghost predicate Valid()
      reads this, table, Objects()
    {
      && table.Length == capacity
      && Distinct()
      && Pictures(slots)
      && size == Wrap32(inserts)
      && (WellFormed(Cfg()) ==> Placed(Cfg(), slots))
    }

    /** Hashtable(capacity): an array of `capacity` null slots and size 0. */
    constructor (strategy: Strategy, hashCode: K -> int32, capacity: int32)
      requires 0 <= capacity
      ensures this.strategy == strategy && this.hashCode == hashCode && this.capacity == capacity
      ensures fresh(table) && table.Length == capacity
      ensures forall j :: 0 <= j < capacity ==> table[j] == null
      ensures size == 0 && inserts == 0
      ensures Valid()
    {
      this.strategy := strategy;
      this.hashCode := hashCode;
      this.capacity := capacity;
      table := new HashObject?<K>[capacity](_ => null);
      size := 0;
      inserts := 0;
      slots := seq(capacity, _ => None);
      slotOf := map[];
    }

    /**
     * The probe loop of insert and search: from h1(key), step by h2(key)
     * modulo capacity past occupied slots holding other keys, incrementing
     * each one's probe count, and stop at the first slot that is null or
     * holds key. The source loops forever when no slot of the sequence is
     * null or holds key; `Reaches` excludes that case.
     */
    method Walk(key: K) returns (hash: int)
      requires table.Length == capacity && Distinct() && Pictures(slots)
      requires WellFormed(Cfg()) && Reaches(Cfg(), slots, key)
      modifies Objects()
      ensures hash == StopSlot(Cfg(), slots, key)
      ensures Pictures(BumpPath(Cfg(), slots, key, FirstStop(Cfg(), slots, key, 0)))
    {
      hash := H1(strategy, hashCode(key), capacity);
      var stepSize := H2(strategy, hashCode(key), capacity);
      ghost var c, s := Cfg(), slots;
      ghost var n := FirstStop(c, s, key, 0);
      ghost var i: nat := 0;
      NextSlot(c, key, 0);
      while table[hash] != null && table[hash].key != key
        invariant 0 <= i <= n
        invariant hash == Slot(c, key, i) && stepSize == Step(c, key)
        invariant Pictures(BumpPath(c, s, key, i))
        decreases n - i
      {
        hash := PassSlot(key, hash, stepSize, i);
        i := i + 1;
      }
      LoopEnds(key, hash, i);
    }

    /** The probe loop leaves at a null slot or one holding key, which is key's first stop. */
    lemma LoopEnds(key: K, hash: int, i: nat)
      requires table.Length == capacity == |slots|
      requires WellFormed(Cfg()) && Reaches(Cfg(), slots, key) && i <= FirstStop(Cfg(), slots, key, 0)
      requires hash == Slot(Cfg(), key, i) && Pictures(BumpPath(Cfg(), slots, key, i))
      requires table[hash] == null || table[hash].key == key
      ensures i == FirstStop(Cfg(), slots, key, 0)
    {
      ghost var c, s := Cfg(), slots;
      assert PictureAt(BumpPath(c, s, key, i), hash);
      SameStops(s, BumpPath(c, s, key, i), key, hash);
      PassedBeforeFirstStop(c, s, key, i);
    }

    /**
     * One turn of the probe loop at slot hash, which holds another key:
     * incrementProbeCount on its object, then the next index.
     */
    method PassSlot(key: K, hash: int, stepSize: int, ghost i: nat) returns (next: int)
      requires table.Length == capacity == |slots| && Distinct()
      requires WellFormed(Cfg()) && Reaches(Cfg(), slots, key) && i <= FirstStop(Cfg(), slots, key, 0)
      requires hash == Slot(Cfg(), key, i) && stepSize == Step(Cfg(), key)
      requires Pictures(BumpPath(Cfg(), slots, key, i))
      requires table[hash] != null && table[hash].key != key
      modifies table[hash]
      ensures i < FirstStop(Cfg(), slots, key, 0)
      ensures next == Slot(Cfg(), key, i + 1)
      ensures Pictures(BumpPath(Cfg(), slots, key, i + 1))
    {
      ghost var c, s := Cfg(), slots;
      ghost var t := BumpPath(c, s, key, i);
      assert PictureAt(t, hash);
      PassOver(c, s, key, i);
      BumpSlot(hash, t, BumpPath(c, s, key, i + 1));
      next := JavaRem(hash + stepSize, capacity);
    }

    /**
     * insert: walk the probe sequence, then put a new HashObject in the null
     * slot reached, or increment the frequency of the equal key found there.
     * size grows by one in both cases.
     */
    method Insert(key: K)
      requires Valid() && WellFormed(Cfg()) && Reaches(Cfg(), slots, key)
      modifies this, table, Objects()
      ensures Valid()
      ensures slots == TableSpec.Insert(Cfg(), old(slots), key)
      ensures size == Inc(old(size)) && inserts == old(inserts) + 1
      ensures fresh(Objects() - old(Objects()))
      ensures var j := StopSlot(Cfg(), old(slots), key);
        && (forall x :: 0 <= x < table.Length && x != j ==> table[x] == old(table[x]))
        && (old(table[j]) == null ==> fresh(table[j]))
        && (old(table[j]) != null ==> table[j] == old(table[j]))
    {
      ghost var c, s, count := Cfg(), slots, inserts;
      assert size == Wrap32(count);
      var hash := Walk(key);
      ghost var t := BumpPath(c, s, key, FirstStop(c, s, key, 0));
      assert PictureAt(t, hash);
      SameStops(s, t, key, hash);
      PlaceAt(hash, key, t);
      InsertKeepsPlaced(c, s, key);
      IncWrap(count);
    }

    /**
     * search: walk the same probe sequence; the object met at its end, if
     * any, holds key and has its probe count incremented too, and is
     * returned; a null slot gives null.
     */
    method Search(key: K) returns (r: HashObject?<K>)
      requires Valid() && WellFormed(Cfg()) && Reaches(Cfg(), slots, key)
      modifies this, Objects()
      ensures Valid() && size == old(size) && inserts == old(inserts)
      ensures slots == TableSpec.Search(Cfg(), old(slots), key).slots
      ensures TableSpec.Search(Cfg(), old(slots), key).found.None? ==> r == null
      ensures TableSpec.Search(Cfg(), old(slots), key).found.Some? ==>
        var j := TableSpec.Search(Cfg(), old(slots), key).found.value;
        0 <= j < table.Length && r == table[j] && r != null && r.key == key
    {
      ghost var c, s := Cfg(), slots;
      var hash := Walk(key);
      ghost var n := FirstStop(c, s, key, 0);
      ghost var t := BumpPath(c, s, key, n);
      assert PictureAt(t, hash);
      SameStops(s, t, key, hash);
      if table[hash] == null {
        r := null;
      } else {
        BumpSlot(hash, t, BumpPath(c, s, key, n + 1));
        r := table[hash];
      }
      SetSlots(TableSpec.Search(c, s, key).slots);
      ProbesKeepPlaced(c, s, slots);
    }

    /** Records u, which the array already pictures, as the table's slots. */
    ghost method SetSlots(u: Slots<K>)
      requires Distinct() && Pictures(u)
      modifies this
      ensures slots == u && Distinct() && Pictures(u)
      ensures size == old(size) && inserts == old(inserts)
    {
      slots := u;
      forall j | 0 <= j < table.Length
        ensures PictureAt(u, j)
      {
        assert old(PictureAt(u, j));
      }
    }

    /**
     * incrementProbeCount on the object in slot x: the table pictured by t
     * becomes the one pictured by u, which differs from t in slot x only.
     */
    method BumpSlot(x: int, ghost t: Slots<K>, ghost u: Slots<K>)
      requires 0 <= x < table.Length && table[x] != null && Distinct() && Pictures(t)
      requires u == t[x := Bump(t[x])]
      modifies table[x]
      ensures Pictures(u)
    {
      table[x].IncrementProbeCount();
      forall j | 0 <= j < table.Length
        ensures PictureAt(u, j)
      {
        assert old(PictureAt(t, j));
        if j != x && table[j] != null {
          assert table[j] != table[x];
        }
      }
    }

    /**
     * The end of insert: a new HashObject in the null slot x, or
     * incrementFrequency on the object there; then size++.
     */
    method PlaceAt(x: int, key: K, ghost t: Slots<K>)
      requires 0 <= x < table.Length && Distinct() && Pictures(t)
      requires table[x] != null ==> table[x].key == key
      modifies this, table, table[x]
      ensures Distinct() && Pictures(slots)
      ensures slots == t[x := match t[x]
                             case None => Some(Entry(key, 1, 0))
                             case Some(e) => Some(e.(frequency := Inc(e.frequency)))]
      ensures size == Inc(old(size)) && inserts == old(inserts) + 1
      ensures forall j :: 0 <= j < table.Length && j != x ==> table[j] == old(table[j])
      ensures old(table[x]) == null ==> fresh(table[x])
      ensures old(table[x]) != null ==> table[x] == old(table[x])
    {
      ghost var u := t[x := match t[x]
                            case None => Some(Entry(key, 1, 0))
                            case Some(e) => Some(e.(frequency := Inc(e.frequency)))];
      if table[x] == null {
        var o := new HashObject(key);
        table[x], slotOf, slots, size, inserts := o, slotOf[o := x], u, Inc(size), inserts + 1;
      } else {
        table[x].IncrementFrequency();
        slots, size, inserts := u, Inc(size), inserts + 1;
      }
      forall j | 0 <= j < table.Length
        ensures PictureAt(u, j)
      {
        assert old(PictureAt(t, j));
        if j != x && old(table[j]) != null {
          assert old(table[j]) != old(table[x]);
        }
      }
    }

    /** getSize: the number of insert calls, duplicates included, as a wrapping int. */
    function GetSize(): (r: int32)
      reads this, table, Objects()
      requires Valid()
      ensures r == Wrap32(inserts)
    {
      size
    }

    /** getCapacity: the number of slots. */
    function GetCapacity(): (r: int32)
      reads this, table, Objects()
      requires Valid()
      ensures r == table.Length
    {
      capacity
    }

    /** No two slots hold HashObjects with equal keys. */
    lemma KeysUnique(a: int, b: int)
      requires Valid() && WellFormed(Cfg())
      requires 0 <= a < table.Length && 0 <= b < table.Length
      requires table[a] != null && table[b] != null && table[a].key == table[b].key
      ensures a == b
    {
      assert PictureAt(slots, a) && PictureAt(slots, b);
      PlacedKeysUnique(Cfg(), slots, a, b);
    }

    /**
     * While any slot is null, insert and search terminate for every key:
     * always under linear probing, and under double hashing when the
     * capacity is prime (as generateTwinPrime makes it).
     */
    lemma NullSlotLetsLoopsEnd(key: K, z: int)
      requires Valid() && WellFormed(Cfg())
      requires strategy.DoubleHashing? ==> TwinPrimeGenerator.Prime(capacity)
      requires 0 <= z < table.Length && table[z] == null
      ensures Reaches(Cfg(), slots, key)
    {
      StepCoprime(strategy, hashCode(key), capacity);
      assert PictureAt(slots, z);
      NullSlotReachable(Cfg(), slots, key, z);
    }
  }

  /** Slot 0 is h1(key); each further slot is the previous one plus h2(key), mod capacity, as int arithmetic computes it. */
  lemma NextSlot<K>(c: Config<K>, key: K, i: nat)
    requires WellFormed(c)
    ensures Slot(c, key, 0) == Home(c, key)
    ensures 0 <= Slot(c, key, i) + Step(c, key) <= INT32_MAX
    ensures Slot(c, key, i + 1) == JavaRem(Slot(c, key, i) + Step(c, key), c.capacity)
  {
    JavaRemOfNonNegative(Slot(c, key, i) + Step(c, key), c.capacity);
  }

  /**
   * One turn of the probe loop: a slot the loop passes over comes before
   * the first stop, bumping it extends the bumped path by one probe, and
   * the next index is the next probe.
   */
  lemma PassOver<K>(c: Config<K>, s: Slots<K>, key: K, i: nat)
    requires WellFormed(c) && |s| == c.capacity && Reaches(c, s, key)
    requires i <= FirstStop(c, s, key, 0)
    requires var t, j := BumpPath(c, s, key, i), Slot(c, key, i);
      t[j].Some? && t[j].value.key != key
    ensures i < FirstStop(c, s, key, 0)
    ensures var t, j := BumpPath(c, s, key, i), Slot(c, key, i);
      BumpPath(c, s, key, i + 1) == t[j := Bump(t[j])]
    ensures 0 <= Slot(c, key, i) + Step(c, key) <= INT32_MAX
    ensures Slot(c, key, i + 1) == JavaRem(Slot(c, key, i) + Step(c, key), c.capacity)
  {
    SameStops(s, BumpPath(c, s, key, i), key, Slot(c, key, i));
    PassedBeforeFirstStop(c, s, key, i);
    NextSlot(c, key, i);
  }

  /** The loop stops at key's i-th probe, for i at most the first stop, exactly when i is the first stop. */
  lemma PassedBeforeFirstStop<K>(c: Config<K>, s: Slots<K>, key: K, i: nat)
    requires WellFormed(c) && |s| == c.capacity && Reaches(c, s, key)
    requires i <= FirstStop(c, s, key, 0)
    ensures StopsAt(s, key, Slot(c, key, i)) <==> i == FirstStop(c, s, key, 0)
  {
  }

  /** Probe counters do not decide where the loops stop. */
  lemma SameStops<K>(s: Slots<K>, t: Slots<K>, key: K, j: int)
    requires 0 <= j < |s| && |t| == |s| && Unprobed(t[j]) == Unprobed(s[j])
    ensures StopsAt(t, key, j) == StopsAt(s, key, j)
  {
  }

  /** A table whose slots changed only in their probe counters is still placed. */
  lemma ProbesKeepPlaced<K>(c: Config<K>, s: Slots<K>, t: Slots<K>)
    requires WellFormed(c) && |s| == c.capacity && |t| == |s| && Placed(c, s)
    requires forall j :: 0 <= j < |s| ==> Unprobed(t[j]) == Unprobed(s[j])
    ensures Placed(c, t)
  {
    forall x | 0 <= x < |t| && t[x].Some?
      ensures PlacedAt(c, t, x)
    {
      assert Unprobed(t[x]) == Unprobed(s[x]);
      assert PlacedAt(c, s, x);
      var k := s[x].value.key;
      var n := FirstStop(c, s, k, 0);
      forall i | 0 <= i < n
        ensures !StopsAt(t, k, Slot(c, k, i))
      {
        var y := Slot(c, k, i);
        assert !StopsAt(s, k, y);
        assert Unprobed(t[y]) == Unprobed(s[y]);
      }
      FirstStopIs(c, t, k, n);
    }
  }

  /** After insert(key), search(key) returns an object whose key is key. */
  method InsertThenSearchFinds<K(==,!new)>(t: Hashtable<K>, key: K) returns (r: HashObject?<K>)
    requires t.Valid() && WellFormed(t.Cfg()) && Reaches(t.Cfg(), t.slots, key)
    modifies t, t.table, t.Objects()
    ensures r != null && r.key == key
  {
    t.Insert(key);
    TableSpec.InsertThenSearch(t.Cfg(), old(t.slots), key);
    r := t.Search(key);
  }
}
