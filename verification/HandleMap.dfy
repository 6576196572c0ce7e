/**
 The handle table refines a plain map from filenos to (filesystem, handle).
 */
module HandleMap {
  import opened Fileno
  import opened HandleTable

  datatype Entry = Entry(fs: nat, handle: Ptr)

  type Live = map<nat, Entry>

  /** The filenos in the map sit in the slots they decode to, one fileno a used slot, as many as the counter says. */
  ghost predicate Refines(t: Table, live: Live) {
    && (forall f :: f in live ==> Placed(t, f, live[f]))
    && (forall f, g :: f in live && g in live && SlotOf(f) == SlotOf(g) ==> f == g)
    && (forall k :: 0 <= k < |t.slots| && t.slots[k] != 0 ==> k in Owned(live))
    && |live| == t.open
  }

  predicate Placed(t: Table, f: nat, e: Entry) {
    && FIRST <= f <= LAST && FsIndex(f) == e.fs && e.handle != 0
    && SlotOf(f) < |t.slots| && t.slots[SlotOf(f)] == e.handle
  }

  ghost function Owned(live: Live): set<nat>
  {
    set f | f in live :: SlotOf(f)
  }

  /** Every live fileno looks up the handle it was bound to. */
  lemma LookupLive(t: Table, live: Live, f: nat)
    requires Shape(t) && Refines(t, live) && f in live
    ensures Lookup(t, f) == live[f].handle
  {
    assert Placed(t, f, live[f]);
    ExtractorsAreDivMod(f);
    SlotBucket(BucketIdx(f), BucketPos(f), t.buckets);
  }

  lemma SlotBucket(b: nat, p: nat, n: nat)
    requires p < BUCKET_SIZE
    ensures BUCKET_SIZE * b + p < BUCKET_SIZE * n <==> b < n
  {
  }

  lemma FilenoOfSlot(k: nat, fs: nat) returns (f: int)
    requires k < MAX_BUCKETS * BUCKET_SIZE && fs <= 14
    ensures f == Make(k / BUCKET_SIZE, k % BUCKET_SIZE, fs)
    ensures FIRST <= f <= LAST && SlotOf(f) == k && FsIndex(f) == fs
  {
    ExtractUndoesMake(k / BUCKET_SIZE, k % BUCKET_SIZE, fs);
    f := Make(k / BUCKET_SIZE, k % BUCKET_SIZE, fs);
  }

  lemma GrowthRefines(t: Table, live: Live)
    requires Refines(t, live)
    ensures Refines(AfterGrowth(t), live)
  {
  }

  /** A successful allocation adds exactly one binding, for a fileno that was not live; a failed one adds none. */
  lemma AllocRefines(t: Table, live: Live, h: Ptr, fs: nat, mem: bool)
    requires Valid(t) && Refines(t, live) && fs <= 14 && h != 0
    ensures var (t', out) := Alloc(t, h, fs, mem);
      match out
      case Allocated(k) =>
        k < |t'.slots| &&
        var f := Make(k / BUCKET_SIZE, k % BUCKET_SIZE, fs);
        f !in live && Refines(t', live[f := Entry(fs, h)])
      case _ => Refines(t', live)
  {
    GrowthRefines(t, live);
    var g := AfterGrowth(t);
    var (t', out) := Alloc(t, h, fs, mem);
    if out.Allocated? {
      FillRefines(g, live, out.slot, h, fs);
    }
  }

  /** Putting a handle in a free slot binds the fileno of that slot. */
  lemma FillRefines(g: Table, live: Live, k: nat, h: Ptr, fs: nat)
    requires Shape(g) && Refines(g, live) && fs <= 14 && h != 0
    requires k < |g.slots| && g.slots[k] == 0
    ensures var f := Make(k / BUCKET_SIZE, k % BUCKET_SIZE, fs);
      f !in live && Refines(Fill(g, k, h), live[f := Entry(fs, h)])
  {
    var f := FilenoOfSlot(k, fs);
    hide FsIndex, BucketIdx, BucketPos, Make, SlotOf;
    var t', live' := Fill(g, k, h), live[f := Entry(fs, h)];
    forall f' | f' in live ensures SlotOf(f') != k && f' != f && Placed(t', f', live[f']) {
      assert Placed(g, f', live[f']);
    }
    OwnedGrows(live, live');
    assert f in live';
  }

  lemma OwnedGrows(live: Live, live': Live)
    requires live.Keys <= live'.Keys
    ensures Owned(live) <= Owned(live')
  {
  }

  /** Releasing what was just allocated leaves the table as growth alone would. */
  lemma ReleaseUndoesAlloc(t: Table, h: Ptr, fs: nat, mem: bool)
    requires Shape(t) && fs <= 14 && h != 0
    ensures var (t', out) := Alloc(t, h, fs, mem);
      out.Allocated? ==>
        var f := Make(out.slot / BUCKET_SIZE, out.slot % BUCKET_SIZE, fs);
        Lookup(t', f) == h && Release(t', f) == AfterGrowth(t)
  {
    var (t', out) := Alloc(t, h, fs, mem);
    if out.Allocated? {
      var f := FilenoOfSlot(out.slot, fs);
      ExtractUndoesMake(out.slot / BUCKET_SIZE, out.slot % BUCKET_SIZE, fs);
      EmptyUndoesFill(AfterGrowth(t), out.slot, h, f);
    }
  }

  lemma EmptyUndoesFill(g: Table, k: nat, h: Ptr, f: nat)
    requires Shape(g) && k < |g.slots| && g.slots[k] == 0 && h != 0
    requires f > 0 && SlotOf(f) == k && BucketIdx(f) == k / BUCKET_SIZE && BucketPos(f) == k % BUCKET_SIZE
    ensures var t := Fill(g, k, h);
      Lookup(t, f) == h && Release(t, f) == g
  {
  }

  /** The map once the slot of a fileno has been emptied. */
  function Without(live: Live, slot: nat): Live
  {
    map f | f in live && SlotOf(f) != slot :: live[f]
  }

  /** Closing a live fileno removes that binding and no other. */
  lemma CloseLive(t: Table, live: Live, f: int)
    requires Shape(t) && Refines(t, live) && f in live
    ensures Without(live, SlotOf(f)) == live - {f}
  {
  }

  /** A used slot belongs to exactly one live fileno. */
  lemma Owner(t: Table, live: Live, f: int) returns (g: nat)
    requires Shape(t) && Refines(t, live) && Lookup(t, f) != 0
    ensures g in live && SlotOf(g) == SlotOf(f) && SlotOf(f) < |t.slots|
    ensures Without(live, SlotOf(f)) == live - {g}
  {
    SlotBucket(BucketIdx(f), BucketPos(f), t.buckets);
    assert SlotOf(f) in Owned(live);
    g :| g in live && SlotOf(g) == SlotOf(f);
    CloseLive(t, live, g);
  }

  lemma ReleaseRefines(t: Table, live: Live, f: int)
    requires Shape(t) && Refines(t, live) && Lookup(t, f) != 0
    ensures Refines(Release(t, f), Without(live, SlotOf(f)))
  {
    var owner := Owner(t, live, f);
    EmptyRefines(t, live, owner);
  }

  /** Emptying the slot of a live fileno unbinds it. */
  lemma EmptyRefines(t: Table, live: Live, g: nat)
    requires Refines(t, live) && g in live
    ensures SlotOf(g) < |t.slots| && Refines(Clear(t, SlotOf(g)), live - {g})
  {
    assert Placed(t, g, live[g]);
    var t', live' := Clear(t, SlotOf(g)), live - {g};
    forall f | f in live' ensures Placed(t', f, live'[f]) {
      assert Placed(t, f, live[f]);
    }
    forall k | 0 <= k < |t'.slots| && t'.slots[k] != 0 ensures k in Owned(live') {
      assert k in Owned(live);
      var f :| f in live && SlotOf(f) == k;
      assert f in live';
    }
  }

  /**
   The table does not look at the filesystem bits. A fileno that is not live still
   closes the live fileno with the same bucket and position bits, if there is one:
   the map is unchanged exactly when the slot is empty.
   */
  lemma CloseNotLive(t: Table, live: Live, f: int)
    requires Shape(t) && Refines(t, live) && f > 0 && f !in live
    ensures Lookup(t, f) == 0 ==> Without(live, SlotOf(f)) == live
    ensures Lookup(t, f) != 0 ==>
      exists g :: g in live && g != f && BucketIdx(g) == BucketIdx(f) && BucketPos(g) == BucketPos(f)
        && Without(live, SlotOf(f)) == live - {g}
  {
    ExtractorsAreDivMod(f);
    if Lookup(t, f) != 0 {
      var g := Owner(t, live, f);
      ExtractorsAreDivMod(g);
    } else {
      SlotBucket(BucketIdx(f), BucketPos(f), t.buckets);
      forall g | g in live ensures SlotOf(g) != SlotOf(f) {
        assert Placed(t, g, live[g]);
      }
    }
  }

  lemma AllocConserves(t: Table, h: Ptr, fs: nat, mem: bool)
    requires Valid(t) && fs <= 14 && h != 0
    ensures var (t', out) := Alloc(t, h, fs, mem);
      multiset(t'.slots)[0 := 0] == multiset(t.slots)[0 := 0] + (if out.Allocated? then multiset{h} else multiset{})
  {
  }

  lemma ReleaseConserves(t: Table, f: int)
    requires Shape(t) && Lookup(t, f) != 0
    ensures multiset(t.slots)[0 := 0] == multiset(Release(t, f).slots)[0 := 0] + multiset{Lookup(t, f)}
  {
  }

  lemma Initial()
    ensures Valid(Empty()) && Refines(Empty(), map[]) && multiset(Empty().slots)[0 := 0] == multiset{}
  {
    ZerosAreFree(BUCKET_SIZE);
  }
}
