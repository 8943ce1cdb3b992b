/** The allocator table: slots tagged with generations, the free ones threaded through their own entries. */
module AllocTable {
  import opened Common

  /** ALLOC_TABLE_MAX_PAGES pages of ALLOC_TABLE_PAGE_SIZE slots, flattened. */
  const CAPACITY: nat := 128 * 32
  const GENERATIONS: nat := 0x8000
  const SLOT_BITS: nat := 0x1_0000

  /** UINTPTR_MAX ends the free list. */
  const NONE: nat := 0xFFFF_FFFF_FFFF_FFFF

  datatype Fn = User(address: nat) | InvalidAlloc | InvalidFree

  datatype Fns = Fns(alloc: Fn, free: Fn, arg: nat)

  datatype Error = BadValue | NoSlots

  datatype Result = Ok(id: nat) | Err(error: Error)

  // ----- what the table is about -----

  /** For each slot how often it was given back and what it holds, and the stack of free slots. */
  datatype Slots = Slots(count: seq<nat>, entry: seq<Fns>, free: seq<nat>)

  ghost predicate Wf(t: Slots) {
    && |t.count| == |t.entry| <= CAPACITY
    && (forall i :: 0 <= i < |t.free| ==> t.free[i] < |t.count|)
    && (forall i, j :: 0 <= i < j < |t.free| ==> t.free[i] != t.free[j])
  }

  ghost predicate Live(t: Slots, s: nat) { s < |t.count| && s !in t.free }

  /** The id of slot s after c removals. */
  function IdOf(s: nat, c: nat): nat { c % GENERATIONS * SLOT_BITS + s + 1 }

  /** Some time in the past slot s was handed out after c removals. */
  ghost predicate Issued(t: Slots, s: nat, c: nat) {
    s < |t.count| && (c < t.count[s] || (c == t.count[s] && s !in t.free))
  }

  /** The test the code makes. */
  ghost predicate Validates(t: Slots, id: nat) {
    var slot := id % SLOT_BITS;
    slot > 0 && slot - 1 < |t.count| && id / SLOT_BITS == t.count[slot - 1] % GENERATIONS
  }

  ghost function Added(t: Slots, f: Fns): Slots
    requires Wf(t)
  {
    if t.free != [] then t.(entry := t.entry[t.free[0] := f], free := t.free[1..])
    else Slots(t.count + [0], t.entry + [f], t.free)
  }

  ghost function NextSlot(t: Slots): nat { if t.free != [] then t.free[0] else |t.count| }

  ghost function Removed(t: Slots, s: nat): Slots
    requires s < |t.count|
  {
    Slots(t.count[s := t.count[s] + 1], t.entry, [s] + t.free)
  }

  // ----- laws -----

  lemma IdParts(s: nat, c: nat)
    requires s < CAPACITY
    ensures IdOf(s, c) == c % 32768 * 65536 + s + 1
    ensures IdOf(s, c) % SLOT_BITS == s + 1 && IdOf(s, c) / SLOT_BITS == c % GENERATIONS
    ensures 0 < IdOf(s, c) < 0x8000_0000
  {
  }

  /** An issued id validates exactly when its slot was recycled a multiple of 32768 times since. */
  lemma {:induction false} ValidatesIff(t: Slots, s: nat, c: nat)
    requires Wf(t) && Issued(t, s, c)
    ensures Validates(t, IdOf(s, c)) <==> (t.count[s] - c) % GENERATIONS == 0
  {
    IdParts(s, c);
    SameRemainder(t.count[s], c);
  }

  lemma SameRemainder(x: nat, y: nat)
    requires y <= x
    ensures x % GENERATIONS == y % GENERATIONS <==> (x - y) % GENERATIONS == 0
  {
  }

  /** Before that, issued ids validate exactly while they are live. */
  lemma {:induction false} IssuedLiveIff(t: Slots, s: nat, c: nat)
    requires Wf(t) && Issued(t, s, c) && t.count[s] - c < GENERATIONS
    ensures Validates(t, IdOf(s, c)) <==> Live(t, s) && c == t.count[s]
  {
    ValidatesIff(t, s, c);
  }

  /** Live ids are pairwise distinct. */
  lemma {:induction false} LiveDistinct(t: Slots, s: nat, s': nat)
    requires Wf(t) && Live(t, s) && Live(t, s') && s != s'
    ensures IdOf(s, t.count[s]) != IdOf(s', t.count[s'])
  {
    IdParts(s, t.count[s]);
    IdParts(s', t.count[s']);
  }

  /** The id a free slot will have next validates already, before it is handed out: only issued ids may be relied on. */
  lemma {:induction false} FreeSlotValidates(t: Slots, s: nat)
    requires Wf(t) && s in t.free
    ensures Validates(t, IdOf(s, t.count[s])) && !Live(t, s) && !Issued(t, s, t.count[s])
  {
    IdParts(s, t.count[s]);
  }

  /** The id is the one that slot s has now, or will have next. */
  ghost predicate Names(t: Slots, id: int, s: nat) { s < |t.count| && id == IdOf(s, t.count[s]) }

  /** Those are the ids that validate, */
  lemma {:induction false} ValidatesNames(t: Slots, id: int)
    requires Wf(t)
    ensures (id > 0 && Validates(t, id)) <==> exists s: nat :: Names(t, id, s)
  {
    if id > 0 && Validates(t, id) {
      NamesSlot(t, id, id % SLOT_BITS - 1);
    }
    if s: nat :| Names(t, id, s) {
      IdParts(s, t.count[s]);
    }
  }

  lemma NamesSlot(t: Slots, id: nat, s: nat)
    requires Wf(t) && s < |t.count|
    ensures Names(t, id, s) <==> id % SLOT_BITS == s + 1 && id / SLOT_BITS == t.count[s] % GENERATIONS
  {
    IdParts(s, t.count[s]);
    assert id == id / SLOT_BITS * SLOT_BITS + id % SLOT_BITS;
  }

  /** and they name one slot each. */
  lemma {:induction false} NamesOne(t: Slots, id: int, s: nat)
    requires Wf(t) && Names(t, id, s)
    ensures forall k: nat :: Names(t, id, k) ==> k == s
  {
    forall k: nat | Names(t, id, k) ensures k == s {
      IdParts(s, t.count[s]);
      IdParts(k, t.count[k]);
    }
  }

  /** A removal keeps the free list without repetitions exactly when the slot is live. */
  lemma RemoveWfIff(t: Slots, s: nat)
    requires Wf(t) && s < |t.count|
    ensures Wf(Removed(t, s)) <==> Live(t, s)
  {
    var u := Removed(t, s);
    if s in t.free {
      var j :| 0 <= j < |t.free| && t.free[j] == s;
      assert u.free[0] == u.free[j + 1];
    }
  }

  lemma AddKeeps(t: Slots, f: Fns)
    requires Wf(t) && (t.free != [] || |t.count| < CAPACITY)
    ensures var s, u := NextSlot(t), Added(t, f);
      && Wf(u) && !Live(t, s) && Live(u, s) && u.entry[s] == f && u.count[s] == (if s < |t.count| then t.count[s] else 0)
      && (forall k :: k != s ==> (Live(u, k) <==> Live(t, k)))
      && |t.count| <= |u.count| && (forall k :: 0 <= k < |t.count| ==> u.count[k] == t.count[k] && (k != s ==> u.entry[k] == t.entry[k]))
  {
    var s, u := NextSlot(t), Added(t, f);
    if t.free != [] {
      assert t.free == [s] + u.free;
    }
  }

  lemma RemoveKeeps(t: Slots, s: nat)
    requires Wf(t) && Live(t, s)
    ensures var u := Removed(t, s);
      && Wf(u) && !Live(u, s) && u.count[s] == t.count[s] + 1 && |u.count| == |t.count| && u.entry == t.entry
      && (forall k :: k != s ==> (Live(u, k) <==> Live(t, k)))
      && (forall k :: 0 <= k < |t.count| && k != s ==> u.count[k] == t.count[k])
  {
  }

  // ----- runs -----

  datatype Op = Add(f: Fns) | Remove(slot: nat, count: nat)

  /** An id may be given back once it was issued and while its slot has not been recycled 32768 times. */
  ghost predicate Allowed(t: Slots, op: Op) {
    match op
    case Add(f) => true
    case Remove(s, c) => Issued(t, s, c) && t.count[s] - c < GENERATIONS
  }

  ghost function Step(t: Slots, op: Op): Slots
    requires Wf(t) && Allowed(t, op)
  {
    match op
    case Add(f) => if t.free != [] || |t.count| < CAPACITY then Added(t, f) else t
    case Remove(s, c) => if Validates(t, IdOf(s, c)) then Removed(t, s) else t
  }

  lemma StepKeeps(t: Slots, op: Op)
    requires Wf(t) && Allowed(t, op)
    ensures var u := Step(t, op);
      Wf(u) && |t.count| <= |u.count| && forall k :: 0 <= k < |t.count| ==> t.count[k] <= u.count[k]
  {
    match op {
      case Add(f) => if t.free != [] || |t.count| < CAPACITY { AddKeeps(t, f); }
      case Remove(s, c) =>
        IssuedLiveIff(t, s, c);
        if Validates(t, IdOf(s, c)) { RemoveKeeps(t, s); }
    }
  }

  /** What becomes of t when an id is removed: the slot it names is, if there is one. */
  ghost predicate RemovedFrom(t: Slots, u: Slots, id: int) {
    (forall s: nat :: Names(t, id, s) ==> u == Removed(t, s)) && ((forall s: nat :: !Names(t, id, s)) ==> u == t)
  }

  /** For an id that was given out that is a step of a run, and frees no slot twice. */
  lemma {:induction false} RemovalIsStep(t: Slots, u: Slots, id: int, s: nat, c: nat)
    requires Wf(t) && RemovedFrom(t, u, id) && Allowed(t, Remove(s, c)) && id == IdOf(s, c)
    ensures u == Step(t, Remove(s, c)) && forall k: nat :: Names(t, id, k) ==> Live(t, k)
    ensures id > 0 && 0 < id % SLOT_BITS <= |t.count|
  {
    IdParts(s, c);
    IssuedLiveIff(t, s, c);
    ValidatesNames(t, id);
    if Validates(t, id) {
      assert Names(t, id, s);
      NamesOne(t, id, s);
    }
  }

  /** Afterwards the id of the slot freed does not validate; the other live slots keep theirs, and their entries. */
  lemma {:induction false} RemovalKeepsOthers(t: Slots, s: nat)
    requires Wf(t) && Live(t, s)
    ensures Allowed(t, Remove(s, t.count[s]))
    ensures var u := Step(t, Remove(s, t.count[s]));
      && Wf(u) && !Live(u, s) && !Validates(u, IdOf(s, t.count[s]))
      && forall k: nat :: Live(t, k) && k != s ==>
           Live(u, k) && u.count[k] == t.count[k] && Validates(u, IdOf(k, t.count[k])) && u.entry[k] == t.entry[k]
  {
    var id := IdOf(s, t.count[s]);
    var u := Step(t, Remove(s, t.count[s]));
    IssuedLiveIff(t, s, t.count[s]);
    RemoveKeeps(t, s);
    IssuedLiveIff(u, s, t.count[s]);
    forall k: nat | Live(t, k) && k != s ensures Validates(u, IdOf(k, t.count[k])) {
      IssuedLiveIff(u, k, t.count[k]);
    }
  }

  /** A run of allowed operations. */
  ghost predicate AllowedRun(t: Slots, ops: seq<Op>)
    requires Wf(t)
    decreases |ops|
  {
    ops == [] || (Allowed(t, ops[0]) && (StepKeeps(t, ops[0]); AllowedRun(Step(t, ops[0]), ops[1..])))
  }

  ghost function After(t: Slots, ops: seq<Op>): Slots
    requires Wf(t) && AllowedRun(t, ops)
    decreases |ops|
  {
    if ops == [] then t else StepKeeps(t, ops[0]); After(Step(t, ops[0]), ops[1..])
  }

  /** Every run keeps the free list without repetitions, and counts only grow. */
  lemma {:induction false} RunKeeps(t: Slots, ops: seq<Op>)
    requires Wf(t) && AllowedRun(t, ops)
    ensures var u := After(t, ops);
      Wf(u) && |t.count| <= |u.count| && forall k :: 0 <= k < |t.count| ==> t.count[k] <= u.count[k]
    decreases |ops|
  {
    if ops != [] {
      StepKeeps(t, ops[0]);
      RunKeeps(Step(t, ops[0]), ops[1..]);
    }
  }

  /** After any run, an id that was removed validates again exactly when its slot came round a multiple of 32768 times. */
  lemma {:induction false} RemovedValidatesIff(t: Slots, s: nat, c: nat, ops: seq<Op>)
    requires Wf(t) && Live(t, s) && c == t.count[s]
    requires Wf(Removed(t, s)) && AllowedRun(Removed(t, s), ops)
    ensures var u := After(Removed(t, s), ops);
      s < |u.count| && u.count[s] > c && (Validates(u, IdOf(s, c)) <==> (u.count[s] - c) % GENERATIONS == 0)
  {
    RunKeeps(Removed(t, s), ops);
    ValidatesIff(After(Removed(t, s), ops), s, c);
  }

  /** So before 32768 rounds it never does. */
  lemma {:induction false} RemovedNeverValidates(t: Slots, s: nat, c: nat, ops: seq<Op>)
    requires Wf(t) && Live(t, s) && c == t.count[s]
    requires Wf(Removed(t, s)) && AllowedRun(Removed(t, s), ops)
    ensures var u := After(Removed(t, s), ops);
      s < |u.count| && (u.count[s] < c + GENERATIONS ==> !Validates(u, IdOf(s, c)))
  {
    RemovedValidatesIff(t, s, c, ops);
  }

  /** An id handed out by a run is none of those issued before, unless its slot came round 32768 times. */
  lemma {:induction false} AddedIsNew(t: Slots, f: Fns, s: nat, c: nat)
    requires Wf(t) && (t.free != [] || |t.count| < CAPACITY) && Issued(t, s, c) && t.count[s] - c < GENERATIONS
    ensures var k := NextSlot(t); var u := Added(t, f); k < |u.count| && IdOf(k, u.count[k]) != IdOf(s, c)
  {
    AddKeeps(t, f);
    var k, u := NextSlot(t), Added(t, f);
    IdParts(k, u.count[k]);
    IdParts(s, c);
    if k == s { IssuedLiveIff(t, s, c); }
  }

  // ----- the table in memory -----

  /** The slot after position i of the free list. */
  ghost function Next(free: seq<nat>, i: nat): nat { if i < |free| then free[i] else NONE }

  /** The free list runs through the arguments of the free entries and ends. */
  ghost predicate Chain(free: seq<nat>, freelist: nat, ents: seq<Fns>) {
    forall k {:trigger Unfold(k)} :: Unfold(k) ==>
      && freelist == Next(free, 0) && (forall i :: 0 <= i < |free| ==> free[i] < |ents|)
      && forall i :: 0 <= i < |free| ==> ents[free[i]].arg == Next(free, i + 1)
  }

  /** Generations are the counts, modulo. */
  ghost predicate Tagged(count: seq<nat>, gens: seq<nat>) {
    forall k {:trigger Unfold(k)} :: Unfold(k) ==>
      && |count| <= |gens| && (forall s :: 0 <= s < |count| ==> gens[s] == count[s] % GENERATIONS)
      && (forall s :: |count| <= s < |gens| ==> gens[s] == 0)
  }

  /** The live entries are what was added. */
  ghost predicate Kept(t: Slots, ents: seq<Fns>) {
    forall k {:trigger Unfold(k)} :: Unfold(k) ==>
      |t.entry| <= |ents| && forall s :: 0 <= s < |t.entry| && s !in t.free ==> ents[s] == t.entry[s]
  }

  ghost predicate Represents(t: Slots, freelist: nat, size: nat, used: nat, gens: seq<nat>, ents: seq<Fns>) {
    && Wf(t) && |gens| == CAPACITY == |ents| && size == |t.count| && used + |t.free| == size
    && Chain(t.free, freelist, ents) && Tagged(t.count, gens) && Kept(t, ents)
  }

  /** What the methods test, in terms of what the table stands for. */
  lemma Reads(t: Slots, freelist: nat, size: nat, used: nat, gens: seq<nat>, ents: seq<Fns>)
    requires Represents(t, freelist, size, used, gens, ents)
    ensures Wf(t) && size == |t.count| <= CAPACITY && |gens| == |ents| == CAPACITY
    ensures (freelist < size <==> t.free != []) && (t.free != [] ==> freelist == t.free[0])
    ensures forall s :: 0 <= s < size ==> gens[s] == t.count[s] % GENERATIONS
    ensures size < CAPACITY ==> gens[size] == 0
  {
    assert Unfold(0);
  }

  /** Taking a slot off the free list. */
  lemma ReuseRepresents(t: Slots, size: nat, used: nat, gens: seq<nat>, ents: seq<Fns>, f: Fns)
    requires t.free != [] && Represents(t, t.free[0], size, used, gens, ents)
    ensures Represents(Added(t, f), ents[t.free[0]].arg, size, used + 1, gens, ents[t.free[0] := f])
  {
    AddKeeps(t, f);
    ChainShorter(t.free, ents, f);
    KeptReused(t, ents, f);
  }

  lemma ChainShorter(free: seq<nat>, ents: seq<Fns>, f: Fns)
    requires free != [] && Chain(free, free[0], ents) && free[0] < |ents|
    requires forall i, j :: 0 <= i < j < |free| ==> free[i] != free[j]
    ensures Chain(free[1..], ents[free[0]].arg, ents[free[0] := f])
  {
    assert Unfold(0);
    var u := free[1..];
    assert forall i :: 0 <= i < |u| ==> u[i] == free[i + 1];
    assert forall i :: 0 <= i <= |u| ==> Next(u, i) == Next(free, i + 1);
  }

  lemma KeptReused(t: Slots, ents: seq<Fns>, f: Fns)
    requires Wf(t) && t.free != [] && Kept(t, ents) && |t.entry| <= |ents|
    ensures Kept(Added(t, f), ents[t.free[0] := f])
  {
    assert Unfold(0);
    assert t.free == [t.free[0]] + Added(t, f).free;
  }

  /** Taking a slot never used before. */
  lemma FreshRepresents(t: Slots, freelist: nat, size: nat, used: nat, gens: seq<nat>, ents: seq<Fns>, f: Fns)
    requires t.free == [] && size < CAPACITY && Represents(t, freelist, size, used, gens, ents)
    ensures Represents(Added(t, f), freelist, size + 1, used + 1, gens, ents[size := f])
  {
    assert Unfold(0);
  }

  /** Something is in use while a slot is live. */
  lemma InUse(t: Slots, freelist: nat, size: nat, used: nat, gens: seq<nat>, ents: seq<Fns>, s: nat)
    requires Represents(t, freelist, size, used, gens, ents) && Live(t, s)
    ensures 0 < used <= CAPACITY
  {
    FreeFits(t.free, s, size);
  }

  /** Putting a live slot on the free list; g is its next generation. */
  lemma RemoveRepresents(t: Slots, freelist: nat, size: nat, used: nat, gens: seq<nat>, ents: seq<Fns>, s: nat, g: nat)
    requires Represents(t, freelist, size, used, gens, ents) && Live(t, s) && 0 < used
    requires g == (t.count[s] + 1) % GENERATIONS
    ensures Represents(Removed(t, s), s, size, used - 1, gens[s := g], ents[s := Fns(InvalidAlloc, InvalidFree, freelist)])
  {
    WfLonger(t, s);
    ChainLonger(t.free, freelist, ents, s);
    TaggedNext(t.count, gens, s, g);
    KeptLess(t, ents, s, Fns(InvalidAlloc, InvalidFree, freelist));
  }

  lemma LessUsed(used: nat)
    requires 0 < used <= CAPACITY
    ensures (used - 1) % 0x1_0000_0000 == used - 1
  {
  }

  lemma WfLonger(t: Slots, s: nat)
    requires Wf(t) && Live(t, s)
    ensures Wf(Removed(t, s))
  {
  }

  lemma TaggedNext(count: seq<nat>, gens: seq<nat>, s: nat, g: nat)
    requires Tagged(count, gens) && s < |count| <= |gens| && g == (count[s] + 1) % GENERATIONS
    ensures Tagged(count[s := count[s] + 1], gens[s := g])
  {
    assert Unfold(0);
  }

  lemma KeptLess(t: Slots, ents: seq<Fns>, s: nat, e: Fns)
    requires Kept(t, ents) && s < |t.count| == |t.entry| <= |ents|
    ensures Kept(Removed(t, s), ents[s := e])
  {
    assert Unfold(0);
  }

  lemma ChainLonger(free: seq<nat>, freelist: nat, ents: seq<Fns>, s: nat)
    requires Chain(free, freelist, ents) && s !in free && s < |ents|
    ensures Chain([s] + free, s, ents[s := Fns(InvalidAlloc, InvalidFree, freelist)])
  {
    assert Unfold(0);
    var free', ents' := [s] + free, ents[s := Fns(InvalidAlloc, InvalidFree, freelist)];
    forall i | 0 <= i < |free'| ensures ents'[free'[i]].arg == Next(free', i + 1) {
      if i > 0 { assert free'[i] == free[i - 1]; }
    }
  }

  /** A list of distinct slots that misses one is shorter than the table. */
  lemma FreeFits(free: seq<nat>, s: nat, size: nat)
    requires s < size && s !in free && (forall i :: 0 <= i < |free| ==> free[i] < size)
    requires forall i, j :: 0 <= i < j < |free| ==> free[i] != free[j]
    ensures |free| < size
  {
    SizeOfElements(free);
    assert Elements(free) <= Below(size) - {s};
    assert |Below(size) - {s}| == size - 1;
    SizeOfSubset(Elements(free), Below(size) - {s});
  }

  ghost function Elements(free: seq<nat>): set<nat> { set x | x in free }

  ghost function Below(n: nat): (r: set<nat>)
    ensures |r| == n && forall k: nat :: k in r <==> k < n
  {
    if n == 0 then {} else Below(n - 1) + {n - 1}
  }

  lemma {:induction false} SizeOfElements(free: seq<nat>)
    requires forall i, j :: 0 <= i < j < |free| ==> free[i] != free[j]
    ensures |Elements(free)| == |free|
  {
    if free != [] {
      var rest, last := free[..|free| - 1], free[|free| - 1];
      SizeOfElements(rest);
      assert free == rest + [last];
      assert Elements(free) == Elements(rest) + {last} && last !in Elements(rest);
    }
  }

  lemma {:induction false} SizeOfSubset(x: set<nat>, y: set<nat>)
    requires x <= y
    ensures |x| <= |y|
  {
    if x != {} {
      var e :| e in x;
      SizeOfSubset(x - {e}, y - {e});
    }
  }

  class Table {
    var freelist: nat
    var tsize: nat
    var tused: nat
    var generations: array<nat>
    var entries: array<Fns>
    ghost var slots: Slots

    ghost predicate Valid()
      reads this, generations, entries
    {
      generations.Length == entries.Length == CAPACITY && Represents(slots, freelist, tsize, tused, generations[..], entries[..])
    }

    constructor ()
      ensures Valid() && slots == Slots([], [], []) && fresh(generations) && fresh(entries)
    {
      freelist, tsize, tused := NONE, 0, 0;
      generations := new nat[CAPACITY](_ => 0);
      entries := new Fns[CAPACITY](_ => Fns(InvalidAlloc, InvalidFree, 0));
      slots := Slots([], [], []);
    }

    /** What the id of a live slot says of it, and that its entry is the one that was added. */
    lemma LiveEntry(id: nat)
      requires Valid()
      ensures forall s: nat :: Live(slots, s) && Names(slots, id, s) ==>
        id % SLOT_BITS == s + 1 && Validates(slots, id) && s < entries.Length && entries[s] == slots.entry[s]
    {
      assert Unfold(0);
      forall s: nat | Live(slots, s) && Names(slots, id, s) ensures id % SLOT_BITS == s + 1 && Validates(slots, id) {
        IdParts(s, slots.count[s]);
      }
    }

    /** hebi_alloc_add; a null pointer, here the empty sequence, is an error. */
    method AddEntry(src: seq<Fns>) returns (r: Result)
      requires Valid() && |src| <= 1
      modifies this, entries
      ensures Valid() && generations == old(generations) && entries == old(entries)
      ensures var t := old(slots);
        if src == [] then r == Err(BadValue) && slots == t
        else if t.free == [] && |t.count| >= CAPACITY then r == Err(NoSlots) && slots == t
        else slots == Added(t, src[0]) && NextSlot(t) < |slots.count| && r == Ok(IdOf(NextSlot(t), slots.count[NextSlot(t)]))
    {
      if src == [] {
        return Err(BadValue);
      }
      ghost var t := slots;
      var slot;
      Reads(t, freelist, tsize, tused, generations[..], entries[..]);
      if freelist < tsize {
        slot := freelist;
        ReuseRepresents(t, tsize, tused, generations[..], entries[..], src[0]);
        freelist := entries[slot].arg;
      } else {
        if tsize >= CAPACITY {
          return Err(NoSlots);
        }
        FreshRepresents(t, freelist, tsize, tused, generations[..], entries[..], src[0]);
        slot := tsize;
        tsize := tsize + 1;
      }
      var genr := generations[slot];
      tused := tused + 1;
      ghost var ents := entries[..];
      entries[slot] := src[0];
      assert entries[..] == ents[slot := src[0]];
      slots := Added(t, src[0]);
      r := Ok(genr * SLOT_BITS + (slot + 1));
    }

    /** Puts a slot on the free list, with its next generation. */
    method PutBack(slot: nat, next: nat)
      requires Valid() && slot < |slots.count| <= CAPACITY && next == (slots.count[slot] % GENERATIONS + 1) % GENERATIONS
      modifies this, generations, entries
      ensures generations == old(generations) && entries == old(entries) && slots == Removed(old(slots), slot)
      ensures Live(old(slots), slot) ==> Valid()
      ensures freelist == slot && entries[slot].arg == old(freelist) && tused == (old(tused) - 1) % 0x1_0000_0000
    {
      ghost var gens, ents := generations[..], entries[..];
      if Live(slots, slot) {
        InUse(slots, freelist, tsize, tused, gens, ents, slot);
        LessUsed(tused);
        NextGeneration(slots.count[slot]);
        RemoveRepresents(slots, freelist, tsize, tused, gens, ents, slot, next);
      }
      generations[slot] := next;
      entries[slot] := Fns(InvalidAlloc, InvalidFree, freelist);
      assert generations[..] == gens[slot := next];
      assert entries[..] == ents[slot := Fns(InvalidAlloc, InvalidFree, freelist)];
      freelist := slot;
      tused := (tused - 1) % 0x1_0000_0000;
      slots := Removed(slots, slot);
    }

    /**
     hebi_alloc_remove. The slot that the id names is put on the free list, even if it is there already, which only an
     id nobody was given can do; RemovalIsStep is about the ids that were given out.
    */
    method RemoveEntry(id: int) returns (r: Result)
      requires Valid()
      modifies this, generations, entries
      ensures generations == old(generations) && entries == old(entries)
      ensures (forall s: nat :: Names(old(slots), id, s) ==> Live(old(slots), s)) ==> Valid()
      ensures RemovedFrom(old(slots), slots, id)
      ensures r == if id > 0 && 0 < id % SLOT_BITS <= |old(slots).count| then Ok(0) else Err(BadValue)
      ensures forall s: nat :: Names(old(slots), id, s) && !Live(old(slots), s) ==>
        freelist == s && entries[s].arg == old(freelist) && tused == (old(tused) - 1) % 0x1_0000_0000
    {
      ValidatesNames(slots, id);
      if id <= 0 || id % SLOT_BITS == 0 {
        return Err(BadValue);
      }
      var slot, genr := id % SLOT_BITS - 1, id / SLOT_BITS;
      Reads(slots, freelist, tsize, tused, generations[..], entries[..]);
      if slot >= tsize {
        return Err(BadValue);
      }
      NamesSlot(slots, id, slot);
      if generations[slot] == genr {
        NamesOne(slots, id, slot);
        PutBack(slot, (genr + 1) % GENERATIONS);
      }
      r := Ok(0);
    }

    /** hebi_alloc_valid. */
    method IsValid(id: int) returns (valid: bool)
      requires Valid()
      ensures valid == if id <= 0 then id >= -3 else Validates(slots, id)
    {
      if id <= 0 {
        return id >= -3;
      }
      var slot, genr := id % SLOT_BITS, id / SLOT_BITS;
      Reads(slots, freelist, tsize, tused, generations[..], entries[..]);
      valid := slot != 0 && slot - 1 < tsize && genr == generations[slot - 1];
    }
  }

  lemma NextGeneration(c: nat)
    ensures (c % GENERATIONS + 1) % GENERATIONS == (c + 1) % GENERATIONS
  {
  }
}
