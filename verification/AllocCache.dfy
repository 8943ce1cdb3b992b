/** The cache in front of the allocator table: linear probing over keys, emptied when it is two thirds full. */
module AllocCache {
  import opened AllocTable

  const SIZE: nat := 32
  const MAX_USED: nat := 21

  /** The place a key is looked for first. */
  function Hash(key: nat): (h: nat)
    ensures h < SIZE
  {
    var slot := key % SLOT_BITS - 1;
    (slot * 23131 + slot / 32) % SIZE
  }

  /** That place does not depend on the generation, and is another one for each slot of a page. */
  lemma {:induction false} HashSpreads(s: nat, c: nat, s': nat, c': nat)
    requires s < CAPACITY && s' < CAPACITY && s / 32 == s' / 32
    ensures Hash(IdOf(s, c)) == Hash(IdOf(s', c')) <==> s == s'
  {
    IdParts(s, c);
    IdParts(s', c');
    Reduced(s);
    Reduced(s');
    OddFactor(s % 32, s' % 32, s / 32);
  }

  lemma Reduced(s: nat)
    ensures (s * 23131 + s / 32) % SIZE == (s % 32 * 27 + s / 32) % SIZE
  {
    assert s * 23131 + s / 32 == s % 32 * 27 + s / 32 + 32 * (s / 32 * 23131 + s % 32 * 722);
  }

  lemma OddFactor(x: nat, y: nat, q: nat)
    requires x < 32 && y < 32
    ensures (x * 27 + q) % SIZE == (y * 27 + q) % SIZE <==> x == y
  {
  }

  /** i & (SIZE - 1), for the places a probe computes. */
  function Wrap(i: nat): (r: nat)
    requires i < 2 * SIZE
    ensures r < SIZE && r == i % SIZE
  {
    if i < SIZE then i else i - SIZE
  }

  // ----- the places in use -----

  ghost function Occupied(keys: seq<nat>): set<nat> { set i | 0 <= i < |keys| && keys[i] != 0 }

  /** How many steps of the probe lead from h to i. */
  function Dist(h: nat, i: nat): nat
    requires h < SIZE && i < SIZE
  {
    if h <= i then i - h else i + SIZE - h
  }

  /** The first t places from h on. */
  ghost function Arc(h: nat, t: nat): set<nat>
    requires h < SIZE
  {
    set i | 0 <= i < SIZE && Dist(h, i) < t
  }

  lemma {:induction false} ArcSize(h: nat, t: nat)
    requires h < SIZE && t <= SIZE
    ensures |Arc(h, t)| == t
  {
    if t > 0 {
      var e := Wrap(h + t - 1);
      ArcSize(h, t - 1);
      assert Dist(h, e) == t - 1 && forall i :: 0 <= i < SIZE && Dist(h, i) == t - 1 ==> i == e;
      assert Arc(h, t) == Arc(h, t - 1) + {e};
    }
  }

  ghost predicate Distinct(keys: seq<nat>) {
    forall i, j :: 0 <= i < j < |keys| && keys[i] != 0 ==> keys[i] != keys[j]
  }

  /** Every key is reached from its hash without a gap. */
  ghost predicate Reachable(keys: seq<nat>)
    requires |keys| == SIZE
  {
    forall i, j :: 0 <= i < SIZE && 0 <= j < SIZE && keys[i] != 0 && Dist(Hash(keys[i]), j) < Dist(Hash(keys[i]), i) ==> keys[j] != 0
  }

  /** used keys, each once, and each reachable from its hash without a gap. */
  ghost predicate CacheOk(keys: seq<nat>, used: nat) {
    |keys| == SIZE && used == |Occupied(keys)| <= MAX_USED && Distinct(keys) && Reachable(keys)
  }

  /** The t places from the hash on are taken by other keys. */
  ghost predicate Passed(keys: seq<nat>, key: nat, t: nat)
    requires |keys| == SIZE
  {
    forall j :: 0 <= j < SIZE && Dist(Hash(key), j) < t ==> keys[j] != 0 && keys[j] != key
  }

  lemma {:induction false} SameSize<T>(x: set<T>, y: set<T>)
    requires x <= y && |x| == |y|
    ensures x == y
  {
    if x != {} {
      var e :| e in x;
      SameSize(x - {e}, y - {e});
    } else {
      assert |y| == 0;
    }
  }

  /** Once as many places were passed as keys are stored, the next place is empty. */
  lemma {:induction false} ProbeEnds(keys: seq<nat>, used: nat, key: nat, i: nat)
    requires |keys| == SIZE && used == |Occupied(keys)| < SIZE && Passed(keys, key, used) && i == Wrap(Hash(key) + used)
    ensures keys[i] == 0
  {
    var h := Hash(key);
    ArcSize(h, used);
    assert Arc(h, used) <= Occupied(keys);
    SameSize(Arc(h, used), Occupied(keys));
    assert i !in Arc(h, used);
  }

  lemma PassedStep(keys: seq<nat>, key: nat, t: nat, i: nat)
    requires |keys| == SIZE && t < SIZE && Passed(keys, key, t) && i == Wrap(Hash(key) + t) && keys[i] != 0 && keys[i] != key
    ensures Passed(keys, key, t + 1)
  {
    assert forall j :: 0 <= j < SIZE && Dist(Hash(key), j) == t ==> j == i;
  }

  /** A key that the probe has not met before an empty place is nowhere. */
  lemma {:induction false} NotCached(keys: seq<nat>, key: nat, t: nat, i: nat)
    requires |keys| == SIZE && Reachable(keys)
    requires 0 < key && Passed(keys, key, t) && t < SIZE && i == Wrap(Hash(key) + t) && keys[i] == 0
    ensures key !in keys
  {
    var h := Hash(key);
    assert Dist(h, i) == t;
    forall j | 0 <= j < SIZE ensures keys[j] != key {
      Gap(keys, j, i);
    }
  }

  /** Nothing is stored beyond an empty place. */
  lemma Gap(keys: seq<nat>, j: nat, i: nat)
    requires |keys| == SIZE && Reachable(keys) && i < SIZE && j < SIZE
    ensures keys[j] != 0 && keys[i] == 0 ==> Dist(Hash(keys[j]), j) < Dist(Hash(keys[j]), i)
  {
  }

  lemma WrapStep(i: nat)
    requires i + 1 < 2 * SIZE
    ensures Wrap(Wrap(i) + 1) == Wrap(i + 1)
  {
  }

  /** The place where the probe stops is where the key belongs. */
  lemma {:induction false} InsertKeeps(keys: seq<nat>, used: nat, key: nat, t: nat, i: nat)
    requires CacheOk(keys, used) && used < MAX_USED && 0 < key && key !in keys
    requires Passed(keys, key, t) && t < SIZE && i == Wrap(Hash(key) + t) && keys[i] == 0
    ensures CacheOk(keys[i := key], used + 1)
  {
    assert Occupied(keys[i := key]) == Occupied(keys) + {i} && i !in Occupied(keys);
    assert Distinct(keys[i := key]);
    InsertReachable(keys, key, t, i);
  }

  lemma InsertReachable(keys: seq<nat>, key: nat, t: nat, i: nat)
    requires |keys| == SIZE && Reachable(keys) && 0 < key
    requires Passed(keys, key, t) && t < SIZE && i == Wrap(Hash(key) + t) && keys[i] == 0
    ensures Reachable(keys[i := key])
  {
    assert Dist(Hash(key), i) == t;
  }

  /** A key put into an empty place joins the others. */
  lemma Entered(keys: seq<nat>, key: nat, i: nat)
    requires i < |keys| && keys[i] == 0
    ensures forall k :: 0 < k ==> (k in keys[i := key] <==> k == key || k in keys)
  {
    var after := keys[i := key];
    assert after[i] == key;
    forall k | 0 < k && k in keys ensures k in after {
      var j :| 0 <= j < |keys| && keys[j] == k;
      assert after[j] == k;
    }
  }

  lemma EmptyOk(keys: seq<nat>)
    requires |keys| == SIZE && forall i :: 0 <= i < SIZE ==> keys[i] == 0
    ensures CacheOk(keys, 0)
  {
    assert Occupied(keys) == {};
  }

  lemma NoneUsed(keys: seq<nat>)
    requires CacheOk(keys, 0)
    ensures forall i :: 0 <= i < SIZE ==> keys[i] == 0
  {
    forall i | 0 <= i < SIZE ensures keys[i] == 0 {
      assert keys[i] != 0 ==> i in Occupied(keys);
    }
  }

  // ----- queries -----

  /** What a query comes to; an entry is known by its slot. */
  datatype Lookup = Entry(slot: nat) | NoEntry

  datatype KeyResult = Key(key: int) | BadAlias | BadId

  /** hebi_alloc_query_key: 0 is the standard library's allocator, -1 the fixed one, a positive key is one of the table. */
  method QueryKey(aliases: seq<int>, id: int) returns (r: KeyResult)
    requires |aliases| == 2
    ensures id > 0 ==> r == Key(id)
    ensures id == 0 || id == -1 ==> r == (if aliases[0 - id] < 0 then BadAlias else Key(aliases[0 - id]))
    ensures id == -2 ==> r == Key(0)
    ensures id == -3 ==> r == Key(-1)
    ensures id < -3 ==> r == BadId
  {
    var key := id;
    if id <= 0 {
      key := key + 2;
      if key > 0 {
        key := aliases[key % 2];
        if key < 0 { return BadAlias; }
      } else if key < -1 {
        return BadId;
      }
    }
    r := Key(key);
  }

  class Cache {
    var used: nat
    const keys: array<nat>
    const values: array<nat>

    ghost predicate Valid()
      reads this, keys, values
    {
      && keys.Length == SIZE == values.Length && keys != values && CacheOk(keys[..], used)
      && forall i :: 0 <= i < SIZE && keys[i] != 0 ==> keys[i] % SLOT_BITS == values[i] + 1
    }

    constructor ()
      ensures Valid() && used == 0
    {
      used := 0;
      keys := new nat[SIZE](_ => 0);
      values := new nat[SIZE](_ => 0);
      new;
      EmptyOk(keys[..]);
    }

    /** Looks for the key; ends on it or on the empty place where it belongs, t steps from its hash. */
    method Probe(key: nat) returns (i: nat, found: bool, ghost t: nat)
      requires Valid() && 0 < key && used > 0
      ensures i < SIZE && (found <==> key in keys[..])
      ensures found ==> keys[i] == key
      ensures !found ==> t < SIZE && i == Wrap(Hash(key) + t) && keys[i] == 0 && Passed(keys[..], key, t)
    {
      i, found, t := Hash(key), false, 0;
      var tested := 0;
      while keys[i] != 0 && tested < used
        invariant i < SIZE && 0 <= tested <= used && tested == t && i == Wrap(Hash(key) + t)
        invariant Passed(keys[..], key, t)
        decreases used - tested
      {
        if keys[i] == key {
          found := true;
          assert keys[..][i] == key;
          return;
        }
        PassedStep(keys[..], key, t, i);
        WrapStep(Hash(key) + t);
        i := Wrap(i + 1);
        tested, t := tested + 1, t + 1;
      }
      if tested == used { ProbeEnds(keys[..], used, key, i); }
      NotCached(keys[..], key, t, i);
    }

    /** hebi_alloc_query for a key of the table. */
    method Query(table: Table, key: nat) returns (r: Lookup)
      requires Valid() && table.Valid() && 0 < key
      modifies this`used, keys, values
      ensures Valid()
      ensures r.Entry? <==> Validates(table.slots, key) || key in old(keys[..])
      ensures r.Entry? ==> key % SLOT_BITS == r.slot + 1
      ensures forall s: nat :: Live(table.slots, s) && Names(table.slots, key, s) ==>
        r == Entry(s) && table.entries[s] == table.slots.entry[s]
      ensures r.Entry? ==> key in keys[..]
      ensures r == NoEntry || key in old(keys[..]) ==> used == old(used) && keys[..] == old(keys[..])
      ensures r.Entry? && key !in old(keys[..]) ==>
        forall k :: 0 < k ==> (k in keys[..] <==> k == key || (old(used) < MAX_USED && k in old(keys[..])))
    {
      table.LiveEntry(key);
      var slot := key % SLOT_BITS;
      if slot == 0 {
        return NoEntry;
      }
      slot := slot - 1;
      var i, n := Hash(key), used;
      ghost var t := 0;
      if used > 0 {
        var found;
        i, found, t := Probe(key);
        if found {
          return Entry(values[i]);
        }
        if n >= MAX_USED { n := 0; }
      } else {
        NoneUsed(keys[..]);
      }
      var valid := table.IsValid(key);
      if !valid {
        return NoEntry;
      }
      Store(key, i, n, t);
      r := Entry(slot);
    }

    /** Enters a key at the place the probe has found, in an emptied cache if it was full. */
    method Store(key: nat, i0: nat, n: nat, ghost t: nat)
      requires Valid() && 0 < key && key % SLOT_BITS != 0 && key !in keys[..] && i0 < SIZE
      requires n == (if used >= MAX_USED then 0 else used) && (n == 0 ==> used >= MAX_USED || i0 == Hash(key))
      requires t < SIZE && i0 == Wrap(Hash(key) + t) && keys[i0] == 0 && Passed(keys[..], key, t)
      modifies this`used, keys, values
      ensures Valid() && key in keys[..] && used == n + 1
      ensures forall k :: 0 < k ==> (k in keys[..] <==> k == key || (n > 0 && k in old(keys[..])))
    {
      var i := i0;
      ghost var t' := t;
      if n == 0 {
        forall k | 0 <= k < SIZE { keys[k] := 0; }
        EmptyOk(keys[..]);
        i, t' := Hash(key), 0;
      }
      ghost var before := keys[..];
      InsertKeeps(before, n, key, t', i);
      used := n + 1;
      keys[i] := key;
      values[i] := key % SLOT_BITS - 1;
      assert keys[..] == before[i := key];
      Entered(before, key, i);
    }
  }

  /** What was added for an id is what a query for that id finds, whatever was cached before. */
  method AddThenQuery(table: Table, cache: Cache, f: Fns) returns (r: AllocTable.Result, found: Lookup)
    requires table.Valid() && cache.Valid()
    modifies table, table.entries, cache`used, cache.keys, cache.values
    ensures cache.Valid() && table.entries == old(table.entries)
    ensures r.Ok? ==> found.Entry? && found.slot < table.entries.Length && table.entries[found.slot] == f
    ensures r.Err? <==> old(table.slots).free == [] && |old(table.slots).count| == 4096
  {
    r := table.AddEntry([f]);
    if r.Err? { return r, NoEntry; }
    AddKeeps(old(table.slots), f);
    ghost var s := NextSlot(old(table.slots));
    assert Live(table.slots, s) && Names(table.slots, r.id, s);
    found := cache.Query(table, r.id);
  }
}
