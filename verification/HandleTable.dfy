/**
 The table of open file handles as a value: buckets of 32 slots laid end to end
 (slot 32*b + p is position p of bucket b), and the counter of open handles.
 */
module HandleTable {
  import opened Fileno
  import opened Options
  import opened Xorshift

  const BUCKET_SIZE: nat := 32
  const MAX_BUCKETS: nat := 32

  /** A C pointer; 0 is NULL. */
  type Ptr = p: int | 0 <= p < 0x1_0000_0000

  /** `buckets` is the number of allocated buckets, `open` the counter of open handles. */
  datatype Table = Table(slots: seq<Ptr>, buckets: nat, open: int)

  function Zeros(n: nat): seq<Ptr> {
    seq(n, _ => 0)
  }

  /** The first bucket is static and starts empty. */
  function Empty(): Table {
    Table(Zeros(BUCKET_SIZE), 1, 0)
  }

  ghost function Used(slots: seq<Ptr>): int {
    |slots| - multiset(slots)[0]
  }

  predicate Shape(t: Table) {
    1 <= t.buckets <= MAX_BUCKETS && |t.slots| == BUCKET_SIZE * t.buckets
  }

  /** The load never gets more than two handles past the growth test while a bucket can still be added. */
  predicate LoadBound(t: Table) {
    t.buckets < MAX_BUCKETS ==> t.open + t.open / 4 <= BUCKET_SIZE * t.buckets + 2
  }

  ghost predicate Valid(t: Table) {
    Shape(t) && t.open == Used(t.slots) && LoadBound(t)
  }

  // ---- Growth ----

  predicate NeedsGrowth(t: Table) {
    t.buckets == 0 ||
    (t.buckets < MAX_BUCKETS && t.open + t.open / 4 > t.buckets * BUCKET_SIZE)
  }

  function Grow(t: Table): Table {
    Table(t.slots + Zeros(BUCKET_SIZE), t.buckets + 1, t.open)
  }

  function AfterGrowth(t: Table): (g: Table)
    ensures Shape(t) ==> Shape(g)
  {
    if NeedsGrowth(t) then Grow(t) else t
  }

  lemma ZerosAreFree(n: nat)
    ensures multiset(Zeros(n)) == multiset{}[0 := n]
  {
    var z := Zeros(n);
    if n > 0 {
      ZerosAreFree(n - 1);
      assert z == Zeros(n - 1) + [0];
    }
  }

  lemma GrowKeepsHandles(t: Table)
    ensures Used(Grow(t).slots) == Used(t.slots)
    ensures multiset(Grow(t).slots)[0 := 0] == multiset(t.slots)[0 := 0]
  {
    ZerosAreFree(BUCKET_SIZE);
  }

  lemma GrowthKeepsValid(t: Table)
    requires Valid(t)
    ensures Valid(AfterGrowth(t))
  {
    GrowKeepsHandles(t);
  }

  // ---- Probing ----

  /** The slot looked at after t steps from (bucket, pos): positions wrap inside a bucket, then buckets wrap. */
  function Visit(n: nat, bucket: nat, pos: nat, t: nat): nat
    requires n > 0
  {
    BUCKET_SIZE * ((bucket + t / BUCKET_SIZE) % n) + (pos + t % BUCKET_SIZE) % BUCKET_SIZE
  }

  /** How many steps it takes to reach slot k. */
  function Rank(n: nat, bucket: nat, pos: nat, k: nat): nat
    requires bucket < n && pos < BUCKET_SIZE && k < n * BUCKET_SIZE
  {
    var b := (k / BUCKET_SIZE + n - bucket) % n;
    var p := (k % BUCKET_SIZE + BUCKET_SIZE - pos) % BUCKET_SIZE;
    BUCKET_SIZE * b + p
  }

  /** On a circle of n places, going from a by the distance to b ends at b. */
  lemma Circle(n: nat, a: nat, d: nat)
    requires n > 0 && a < n && d < n
    ensures (a + d) % n == if a + d < n then a + d else a + d - n
    ensures (d + n - a) % n == if d < a then d + n - a else d - a
  {
    if a + d >= n { Bits.ModUnique(a + d, n, 1, a + d - n); } else { Bits.ModUnique(a + d, n, 0, a + d); }
    if d >= a { Bits.ModUnique(d + n - a, n, 1, d - a); } else { Bits.ModUnique(d + n - a, n, 0, d + n - a); }
  }

  lemma VisitReachesEverySlot(n: nat, bucket: nat, pos: nat, k: nat)
    requires bucket < n && pos < BUCKET_SIZE && k < n * BUCKET_SIZE
    ensures Rank(n, bucket, pos, k) < n * BUCKET_SIZE
    ensures Visit(n, bucket, pos, Rank(n, bucket, pos, k)) == k
  {
    var kb, kp := k / BUCKET_SIZE, k % BUCKET_SIZE;
    Circle(n, bucket, kb);
    Circle(BUCKET_SIZE, pos, kp);
    var b, p := (kb + n - bucket) % n, (kp + BUCKET_SIZE - pos) % BUCKET_SIZE;
    Circle(n, bucket, b);
    Circle(BUCKET_SIZE, pos, p);
    SlotParts(b, p);
  }

  lemma VisitsAreDistinct(n: nat, bucket: nat, pos: nat, t: nat)
    requires bucket < n && pos < BUCKET_SIZE && t < n * BUCKET_SIZE
    ensures Visit(n, bucket, pos, t) < n * BUCKET_SIZE
    ensures Rank(n, bucket, pos, Visit(n, bucket, pos, t)) == t
  {
    var tb, tp := t / BUCKET_SIZE, t % BUCKET_SIZE;
    Circle(n, bucket, tb);
    Circle(BUCKET_SIZE, pos, tp);
    var b, p := (bucket + tb) % n, (pos + tp) % BUCKET_SIZE;
    Circle(n, bucket, b);
    Circle(BUCKET_SIZE, pos, p);
    SlotParts(b, p);
    assert Visit(n, bucket, pos, t) == BUCKET_SIZE * b + p;
    hide Visit;
  }

  /** The first free slot met from step t on, if any. */
  function Probe(slots: seq<Ptr>, n: nat, bucket: nat, pos: nat, t: nat): (k: Option<nat>)
    requires |slots| == BUCKET_SIZE * n && bucket < n && pos < BUCKET_SIZE && t <= |slots|
    ensures k.Some? ==> k.value < |slots| && slots[k.value] == 0
    decreases |slots| - t
  {
    if t == |slots| then None
    else
      VisitsAreDistinct(n, bucket, pos, t);
      var k := Visit(n, bucket, pos, t);
      if slots[k] == 0 then Some(k) else Probe(slots, n, bucket, pos, t + 1)
  }

  lemma ProbeExhausted(slots: seq<Ptr>, n: nat, bucket: nat, pos: nat)
    requires |slots| == BUCKET_SIZE * n && bucket < n && pos < BUCKET_SIZE
    ensures Probe(slots, n, bucket, pos, BUCKET_SIZE * n).None?
  {
  }

  lemma SlotParts(b: nat, p: nat)
    requires p < BUCKET_SIZE
    ensures (BUCKET_SIZE * b + p) / BUCKET_SIZE == b && (BUCKET_SIZE * b + p) % BUCKET_SIZE == p
  {
  }

  /** Place b is i steps on from a, on a circle of n. */
  predicate StepsOn(n: nat, a: nat, i: nat, b: nat) {
    0 < n && a < n && b == (a + i) % n
  }

  lemma OneStepOn(n: nat, a: nat, i: nat, b: nat)
    requires StepsOn(n, a, i, b)
    ensures b < n && StepsOn(n, a, i + 1, if b + 1 == n then 0 else b + 1)
    ensures StepsOn(n, a, i + 1, (b + 1) % n)
  {
    var q := (a + i) / n;
    assert a + i == q * n + b;
    if b + 1 == n {
      assert a + i + 1 == (q + 1) * n;
      Bits.ModUnique(a + i + 1, n, q + 1, 0);
      Bits.ModUnique(b + 1, n, 1, 0);
    } else {
      Bits.ModUnique(a + i + 1, n, q, b + 1);
      Bits.ModUnique(b + 1, n, 0, b + 1);
    }
  }

  lemma NoSteps(n: nat, a: nat)
    requires a < n
    ensures StepsOn(n, a, 0, a)
  {
    Bits.ModUnique(a, n, 0, a);
  }

  /** A whole turn comes back to the start. */
  lemma WholeTurn(n: nat, a: nat, b: nat)
    requires StepsOn(n, a, n, b)
    ensures b == a
  {
  }

  /** One step of the probe, in terms of the bucket and position it looks at. */
  lemma ProbeStep(slots: seq<Ptr>, n: nat, bucket: nat, pos: nat, i: nat, j: nat, b: nat, p: nat)
    requires |slots| == BUCKET_SIZE * n && pos < BUCKET_SIZE && i < n && j < BUCKET_SIZE
    requires StepsOn(n, bucket, i, b) && StepsOn(BUCKET_SIZE, pos, j, p)
    ensures b < n && p < BUCKET_SIZE
    ensures Probe(slots, n, bucket, pos, BUCKET_SIZE * i + j) ==
           if slots[BUCKET_SIZE * b + p] == 0 then Some(BUCKET_SIZE * b + p)
           else Probe(slots, n, bucket, pos, BUCKET_SIZE * i + j + 1)
  {
    var t := BUCKET_SIZE * i + j;
    assert t / BUCKET_SIZE == i && t % BUCKET_SIZE == j;
  }

  /** Probing takes the free slot of least rank, and fails only when no slot is free. */
  lemma {:induction false} ProbeTakesFirstFree(slots: seq<Ptr>, n: nat, bucket: nat, pos: nat, t: nat)
    requires |slots| == BUCKET_SIZE * n && bucket < n && pos < BUCKET_SIZE && t <= |slots|
    requires forall k :: 0 <= k < |slots| && slots[k] == 0 ==> t <= Rank(n, bucket, pos, k)
    ensures match Probe(slots, n, bucket, pos, t)
      case None => forall k :: 0 <= k < |slots| ==> slots[k] != 0
      case Some(found) =>
        forall k :: 0 <= k < |slots| && slots[k] == 0 ==> Rank(n, bucket, pos, found) <= Rank(n, bucket, pos, k)
    decreases |slots| - t
  {
    if t == |slots| {
      forall k | 0 <= k < |slots| ensures slots[k] != 0 {
        VisitReachesEverySlot(n, bucket, pos, k);
      }
    } else {
      VisitsAreDistinct(n, bucket, pos, t);
      var v := Visit(n, bucket, pos, t);
      if slots[v] != 0 {
        forall k | 0 <= k < |slots| && slots[k] == 0 ensures t + 1 <= Rank(n, bucket, pos, k) {
          VisitReachesEverySlot(n, bucket, pos, k);
        }
        ProbeTakesFirstFree(slots, n, bucket, pos, t + 1);
      }
    }
  }

  /** Where the probe starts: bucket and position drawn from the handle and the filesystem index. */
  function Start(h: Ptr, fs: nat, buckets: nat): (r: (nat, nat))
    requires fs <= 14 && 0 < buckets <= MAX_BUCKETS
    ensures r.0 < buckets && r.1 < BUCKET_SIZE
  {
    var seed := (h as bv32) ^ (fs as bv32);
    if buckets > 1 then (Randn(seed, buckets), RandnConst(Rand(seed), BUCKET_SIZE))
    else (0, RandnConst(seed, BUCKET_SIZE))
  }

  /** The first draw picks the bucket as the high word of draw times count, the next one the position as its low five bits. */
  lemma StartDraws(h: Ptr, fs: nat, buckets: nat)
    requires fs <= 14 && 0 < buckets <= MAX_BUCKETS
    ensures var (bucket, pos) := Start(h, fs, buckets);
      var draw := Rand((h as bv32) ^ (fs as bv32));
      if buckets == 1 then bucket == 0 && pos == draw as int % 32
      else
        && bucket * 0x1_0000_0000 <= draw as int * buckets < (bucket + 1) * 0x1_0000_0000
        && pos == Rand(draw) as int % 32
  {
    hide Rand;
  }

  // ---- Allocation ----

  datatype Outcome = NoMemory | NoFreeSlot | Allocated(slot: nat)

  function Fill(t: Table, k: nat, h: Ptr): Table
    requires k < |t.slots|
  {
    t.(slots := t.slots[k := h], open := t.open + 1)
  }

  /** `mem` says whether calloc succeeds, should it be called. */
  function Alloc(t: Table, h: Ptr, fs: nat, mem: bool): (r: (Table, Outcome))
    requires Shape(t) && fs <= 14
    ensures Shape(r.0)
  {
    if NeedsGrowth(t) && !mem then (t, NoMemory)
    else
      var g := AfterGrowth(t);
      var (bucket, pos) := Start(h, fs, g.buckets);
      match Probe(g.slots, g.buckets, bucket, pos, 0)
      case None => (g, NoFreeSlot)
      case Some(k) => (Fill(g, k, h), Allocated(k))
  }

  /** A table with a free slot is one whose counter is below its size. */
  lemma FreeSlotExists(slots: seq<Ptr>)
    ensures Used(slots) < |slots| <==> exists k :: 0 <= k < |slots| && slots[k] == 0
  {
  }

  /** After the growth test has been passed or obeyed, only a full-size table can be full. */
  lemma RoomAfterGrowth(t: Table)
    requires Valid(t)
    ensures AfterGrowth(t).open < |AfterGrowth(t).slots| || (t.buckets == MAX_BUCKETS && t.open == |t.slots|)
  {
  }

  /**
   Exactly when each outcome happens, and when a bucket is added: memory is asked for only
   while fewer than 32 buckets exist and the open handles and a quarter of them exceed the slots.
   */
  lemma AllocOutcomes(t: Table, h: Ptr, fs: nat, mem: bool)
    requires Valid(t) && fs <= 14
    ensures var (t', out) := Alloc(t, h, fs, mem);
      && (out.NoFreeSlot? <==> t.open == 1024)
      && (out.NoMemory? <==> !mem && t.buckets < 32 && t.open + t.open / 4 > 32 * t.buckets)
      && t'.buckets == (if mem && t.buckets < 32 && t.open + t.open / 4 > 32 * t.buckets then t.buckets + 1 else t.buckets)
      && t'.open == (if out.Allocated? then t.open + 1 else t.open)
  {
    hide Start, Visit, Rank, Used, LoadBound;
    var g := AfterGrowth(t);
    GrowthKeepsValid(t);
    RoomAfterGrowth(t);
    FreeSlotExists(g.slots);
    var (bucket, pos) := Start(h, fs, g.buckets);
    ProbeTakesFirstFree(g.slots, g.buckets, bucket, pos, 0);
  }

  lemma AllocKeepsValid(t: Table, h: Ptr, fs: nat, mem: bool)
    requires Valid(t) && fs <= 14 && h != 0
    ensures Valid(Alloc(t, h, fs, mem).0)
  {
    GrowthKeepsValid(t);
    var g := AfterGrowth(t);
    var (t', out) := Alloc(t, h, fs, mem);
    if out.Allocated? {
      StoreCounts(g.slots, out.slot, h);
    }
  }

  /** Filling a free slot with a non-null pointer adds that pointer and nothing else. */
  lemma StoreCounts(slots: seq<Ptr>, k: nat, h: Ptr)
    requires k < |slots| && slots[k] == 0 && h != 0
    ensures Used(slots[k := h]) == Used(slots) + 1
    ensures multiset(slots[k := h])[0 := 0] == multiset(slots)[0 := 0] + multiset{h}
  {
  }

  // ---- Lookup and release ----

  function SlotOf(fileno: nat): nat {
    BUCKET_SIZE * BucketIdx(fileno) + BucketPos(fileno)
  }

  /** The handle behind a fileno, or NULL. */
  function Lookup(t: Table, fileno: int): Ptr
    requires Shape(t)
  {
    if fileno <= 0 || BucketIdx(fileno) >= t.buckets || BucketPos(fileno) >= BUCKET_SIZE then 0
    else t.slots[SlotOf(fileno)]
  }

  /** What close does to the table: empty the slot, if it holds a handle. */
  function Release(t: Table, fileno: int): Table
    requires Shape(t)
  {
    if Lookup(t, fileno) == 0 then t else Clear(t, SlotOf(fileno))
  }

  function Clear(t: Table, k: nat): Table
    requires k < |t.slots|
  {
    t.(slots := t.slots[k := 0], open := t.open - 1)
  }

  lemma ReleaseKeepsValid(t: Table, fileno: int)
    requires Valid(t)
    ensures Valid(Release(t, fileno))
  {
  }
}
