/**
 The file layer as it is kept in memory: an array of bucket pointers, the buckets, the
 mount array and two counters, updated in place. Every method computes the transition
 that Syscalls gives for it.
 */
module FileLayer {
  import opened CStrings
  import opened Fileno
  import opened HandleMap
  import opened HandleTable
  import opened Mounts
  import opened Options
  import opened Xorshift
  import S = Syscalls

  class FileLayer {
    const filesystems: array<Mount>
    const handleMap: array<array?<Ptr>>
    var bucketsCount: int
    var openCount: int
    var errno: int

    // History, and the footprint of the buckets.
    ghost var live: Live
    ghost var calls: seq<S.Call>
    ghost var dropped: multiset<Ptr>
    ghost var buckets: set<object>

    /** Buckets below the count are allocated and distinct; above it there are none. */
    ghost predicate Laid()
      reads this`bucketsCount, this`buckets, handleMap, buckets
    {
      && handleMap.Length == MAX_BUCKETS && 1 <= bucketsCount <= MAX_BUCKETS
      && 1 <= filesystems.Length <= 15
      && handleMap !in buckets && filesystems !in buckets && this !in buckets
      && (forall b :: 0 <= b < bucketsCount ==>
            handleMap[b] != null && handleMap[b] in buckets && handleMap[b].Length == BUCKET_SIZE)
      && (forall b :: bucketsCount <= b < MAX_BUCKETS ==> handleMap[b] == null)
      && (forall a, b :: 0 <= a < b < bucketsCount ==> handleMap[a] != handleMap[b])
    }

    /** The first n buckets, end to end. */
    ghost function Flat(n: nat): (s: seq<Ptr>)
      requires Laid() && n <= bucketsCount
      reads this`bucketsCount, this`buckets, handleMap, buckets
      ensures |s| == BUCKET_SIZE * n
      ensures forall k :: 0 <= k < |s| ==> s[k] == handleMap[k / BUCKET_SIZE][k % BUCKET_SIZE]
    {
      if n == 0 then [] else Flat(n - 1) + handleMap[n - 1][..]
    }

    ghost function Handles(): HandleTable.Table
      requires Laid()
      reads this`bucketsCount, this`openCount, this`buckets, handleMap, buckets
    {
      HandleTable.Table(Flat(bucketsCount), bucketsCount, openCount)
    }

    ghost function State(): S.State
      requires Laid()
      reads this, handleMap, buckets, filesystems
    {
      S.State(filesystems[..], Handles(), live, errno, calls, dropped)
    }

    ghost predicate Valid()
      reads this, handleMap, buckets, filesystems
    {
      Laid() && S.Inv(State())
    }

    constructor (maxFilesystems: nat)
      requires 1 <= maxFilesystems <= 15
      ensures Valid() && fresh(handleMap) && fresh(filesystems) && fresh(buckets)
      ensures S.Fresh(State()) && |State().mounts| == maxFilesystems
    {
      filesystems := new Mount[maxFilesystems](_ => FREE);
      handleMap := new array?<Ptr>[MAX_BUCKETS](_ => null);
      bucketsCount, openCount, errno := 1, 0, 0;
      live, calls, dropped := map[], [], multiset{};
      new;
      hide S.Inv;
      var first := new Ptr[BUCKET_SIZE](_ => 0);
      handleMap[0] := first;
      buckets := {first};
      assert Handles().slots == Zeros(BUCKET_SIZE);
      assert S.Fresh(State());
      hide S.Fresh, Flat, Handles, Zeros;
      S.FreshIsInv(State());
    }

    /** The slot a bucket and a position name, in the flat table. */
    lemma SlotValue(b: nat, p: nat)
      requires Laid() && b < bucketsCount && p < BUCKET_SIZE
      ensures Handles().slots[BUCKET_SIZE * b + p] == handleMap[b][p]
    {
    }

    /** Adds a bucket of free slots. */
    method AddBucket()
      requires Laid() && bucketsCount < MAX_BUCKETS
      modifies this`bucketsCount, this`buckets, handleMap
      ensures Laid() && fresh(buckets - old(buckets))
      ensures State() == old(State()).(handles := Grow(old(Handles())))
    {
      var mem := new Ptr[BUCKET_SIZE](_ => 0);
      handleMap[bucketsCount] := mem;
      bucketsCount := bucketsCount + 1;
      buckets := buckets + {mem};
      assert Handles().slots == old(Handles().slots) + Zeros(BUCKET_SIZE);
    }

    /** The two wrap-around loops: every slot of every bucket from the given one on, once each. */
    method FindFreeSlot(bucket: nat, pos: nat) returns (slot: Option<(nat, nat)>)
      requires Laid() && bucket < bucketsCount && pos < BUCKET_SIZE
      ensures var found := Probe(Handles().slots, bucketsCount, bucket, pos, 0);
        match slot
        case None => found.None?
        case Some((b, p)) => b < bucketsCount && p < BUCKET_SIZE && found == Some(BUCKET_SIZE * b + p)
    {
      hide Probe, StepsOn;
      ghost var slots, n := Handles().slots, bucketsCount;
      var bktIdx: nat, bktPos: nat := bucket, pos;
      NoSteps(n, bucket);
      for i := 0 to bucketsCount
        invariant StepsOn(n, bucket, i, bktIdx) && bktPos == pos
        invariant Probe(slots, n, bucket, pos, BUCKET_SIZE * i) == Probe(slots, n, bucket, pos, 0)
      {
        NoSteps(BUCKET_SIZE, pos);
        for j := 0 to BUCKET_SIZE
          invariant StepsOn(BUCKET_SIZE, pos, j, bktPos)
          invariant Probe(slots, n, bucket, pos, BUCKET_SIZE * i + j) == Probe(slots, n, bucket, pos, 0)
        {
          ProbeStep(slots, n, bucket, pos, i, j, bktIdx, bktPos);
          SlotValue(bktIdx, bktPos);
          if handleMap[bktIdx][bktPos] == 0 {
            return Some((bktIdx, bktPos));
          }
          OneStepOn(BUCKET_SIZE, pos, j, bktPos);
          bktPos := (bktPos + 1) % BUCKET_SIZE;
        }
        WholeTurn(BUCKET_SIZE, pos, bktPos);
        OneStepOn(n, bucket, i, bktIdx);
        bktIdx := bktIdx + 1;
        if bktIdx == bucketsCount {
          bktIdx := 0;
        }
      }
      ProbeExhausted(slots, n, bucket, pos);
      return None;
    }

    /** Fills a free slot and counts it. */
    method PutHandle(b: nat, p: nat, h: Ptr, ghost fileno: nat, ghost fsIndex: nat)
      requires Laid() && b < bucketsCount && p < BUCKET_SIZE
      modifies handleMap[b], this`openCount, this`live
      ensures Laid() && BUCKET_SIZE * b + p < |old(Handles().slots)|
      ensures State() == old(State()).(handles := Fill(old(Handles()), BUCKET_SIZE * b + p, h),
                                       live := old(live)[fileno := Entry(fsIndex, h)])
    {
      handleMap[b][p] := h;
      openCount := openCount + 1;
      live := live[fileno := Entry(fsIndex, h)];
      assert Handles().slots == old(Handles().slots)[BUCKET_SIZE * b + p := h];
      assert filesystems[..] == old(filesystems[..]);
    }

    /** A bucket and a position drawn in turn from one random state. */
    method ProbeStart(h: Ptr, fsIndex: nat) returns (bktIdx: nat, bktPos: nat)
      requires 1 <= bucketsCount <= MAX_BUCKETS && fsIndex <= 14
      ensures (bktIdx, bktPos) == Start(h, fsIndex, bucketsCount)
    {
      var randState := (h as bv32) ^ (fsIndex as bv32);
      bktIdx := 0;
      if bucketsCount > 1 {
        bktIdx := Randn(randState, bucketsCount);
        randState := Rand(randState);
      }
      bktPos := RandnConst(randState, BUCKET_SIZE);
    }

    /** The handle finds no place; only errno records it. */
    method Drop(h: Ptr, e: int)
      requires Laid()
      modifies this`errno, this`dropped
      ensures Laid() && State() == old(State()).(errno := e, dropped := old(dropped) + multiset{h})
    {
      errno := e;
      dropped := dropped + multiset{h};
      assert Handles().slots == old(Handles().slots);
    }

    /** The growth test: adds a bucket when the load asks for one. */
    method MakeRoom(h: Ptr, mem: bool) returns (ok: bool)
      requires Laid()
      modifies this, handleMap
      ensures Laid() && fresh(buckets - old(buckets))
      ensures ok <==> (old(bucketsCount) < 32 && old(openCount) + old(openCount) / 4 > 32 * old(bucketsCount) ==> mem)
      ensures bucketsCount ==
        if old(bucketsCount) < 32 && old(openCount) + old(openCount) / 4 > 32 * old(bucketsCount) && mem
        then old(bucketsCount) + 1 else old(bucketsCount)
      ensures State() == if ok then old(State()).(handles := AfterGrowth(old(Handles())))
                         else old(State()).(errno := S.ENOMEM, dropped := old(dropped) + multiset{h})
    {
      if bucketsCount == 0 ||
         (bucketsCount < MAX_BUCKETS && openCount + openCount / 4 > bucketsCount * BUCKET_SIZE) {
        if !mem {
          Drop(h, S.ENOMEM);
          return false;
        }
        AddBucket();
      }
      return true;
    }

    method AllocateFileno(h: Ptr, fsIndex: nat, mem: bool) returns (fileno: int)
      requires Laid() && S.Formed(State()) && fsIndex <= 14
      modifies this, handleMap, buckets
      ensures Laid() && fresh(buckets - old(buckets))
      ensures (State(), fileno) == S.AllocateFileno(old(State()), h, fsIndex, mem)
    {
      hide Probe, Make, Start, S.Formed, Flat;
      ghost var before := State();
      var ok := MakeRoom(h, mem);
      if !ok {
        return -1;
      }
      var bktIdx, bktPos := ProbeStart(h, fsIndex);
      var slot := FindFreeSlot(bktIdx, bktPos);
      S.AllocateAt(before, h, fsIndex, mem, (bktIdx, bktPos), slot);
      hide S.AllocateFileno, Laid, State, Handles;
      if slot.None? {
        Drop(h, S.ENFILE);
        return -1;
      }
      bktIdx, bktPos := slot.value.0, slot.value.1;
      fileno := Make(bktIdx, bktPos, fsIndex);
      PutHandle(bktIdx, bktPos, h, fileno, fsIndex);
    }

    // ---- Lookups ----

    /** The mount a fileno names: an index into `filesystems`, or -1. */
    method GetFsPointerByHandle(fileno: int) returns (i: int)
      ensures i == -1 ==> S.Mounted(filesystems[..], fileno).None?
      ensures i != -1 ==> 0 <= i < filesystems.Length && S.Mounted(filesystems[..], fileno) == filesystems[i].fs
                          && filesystems[i].fs.Some?
    {
      if fileno <= 0 {
        return -1;
      }
      var fsIndex := FsIndex(fileno);
      if fsIndex < 0 || fsIndex >= filesystems.Length || filesystems[fsIndex].fs.None? {
        return -1;
      }
      return fsIndex;
    }

    /** The slot behind a fileno, or None when it holds no handle. */
    method GetFsHandle(fileno: int) returns (slot: Option<(nat, nat)>)
      requires Laid()
      ensures slot.None? <==> Lookup(Handles(), fileno) == 0
      ensures slot.Some? ==>
        var (b, p) := slot.value;
        fileno > 0 && b < bucketsCount && p < BUCKET_SIZE && BUCKET_SIZE * b + p == SlotOf(fileno)
        && handleMap[b][p] == Lookup(Handles(), fileno)
    {
      if fileno <= 0 {
        return None;
      }
      var bktIdx, bktPos := BucketIdx(fileno), BucketPos(fileno);
      if bktIdx >= bucketsCount || bktPos >= BUCKET_SIZE {
        return None;
      }
      SlotValue(bktIdx, bktPos);
      if handleMap[bktIdx][bktPos] == 0 {
        return None;
      }
      return Some((bktIdx, bktPos));
    }

    method GetFsLinkByName(name: CharPtr) returns (i: int)
      ensures i == Resolve(filesystems[..], name)
    {
      if name.None? {
        return -1;
      }
      for k := 0 to filesystems.Length
        invariant forall j :: 0 <= j < k ==> !Matches(filesystems[j], name.value)
      {
        if filesystems[k].prefix.Some? {
          var len := StrLen(filesystems[k].prefix);
          var differs := StrNCmp(filesystems[k].prefix, name, len);
          assert Take(filesystems[k].prefix.value, len) == filesystems[k].prefix.value;
          if differs == 0 {
            return k;
          }
        }
      }
      return -1;
    }

    // ---- Mounting ----

    /** The mount with exactly this prefix, or -1. */
    method MountOf(prefix: CharPtr) returns (handle: int)
      requires prefix.Some?
      ensures var i := Find(filesystems[..], prefix); handle == if i == filesystems.Length then -1 else i
    {
      for i := 0 to filesystems.Length
        invariant forall j :: 0 <= j < i ==> filesystems[j].prefix != prefix
      {
        if filesystems[i].prefix.Some? {
          var differs := StrNCmp(filesystems[i].prefix, prefix, -1);
          if differs == 0 {
            FindIs(filesystems[..], prefix, i);
            return i;
          }
        }
      }
      FindIs(filesystems[..], prefix, filesystems.Length);
      return -1;
    }

    /** The first mount without a prefix, or -1. */
    method FreeMount() returns (handle: int)
      ensures var i := Find(filesystems[..], None); handle == if i == filesystems.Length then -1 else i
    {
      handle := -1;
      for i := 0 to filesystems.Length
        invariant handle == -1
        invariant forall j :: 0 <= j < i ==> filesystems[j].prefix != None
      {
        if filesystems[i].prefix.None? {
          handle := i;
          break;
        }
      }
      FindIs(filesystems[..], None, if handle == -1 then filesystems.Length else handle);
    }

    method AttachFilesystem(prefix: CharPtr, filesystem: Option<Filesystem>) returns (ret: int)
      requires Valid()
      modifies this`errno, filesystems
      ensures Valid() && (State(), ret) == S.AttachFilesystem(old(State()), prefix, filesystem)
    {
      hide S.Inv, Flat, Handles, Mounts.Valid, Find, Shape;
      S.InvIsFormed(State());
      ghost var before := State();
      S.AttachKeepsInv(before, prefix, filesystem);
      if prefix.None? || filesystem.None? {
        errno := S.EINVAL;
        return -1;
      }
      var len := StrLen(prefix);
      if len < 3 || prefix.value[len - 1] != '/' || prefix.value[len - 2] != ':' {
        errno := S.EINVAL;
        return -1;
      }
      var i := MountOf(prefix);
      if i != -1 {
        errno := S.EPERM;
        return -2;
      }
      var handle := FreeMount();
      if handle == -1 {
        errno := S.ENOMEM;
        return -3;
      }
      filesystems[handle] := Mount(prefix, filesystem);
      assert filesystems[..] == before.mounts[handle := Mount(prefix, filesystem)];
      return 0;
    }

    method DetachFilesystem(prefix: CharPtr) returns (ret: int)
      requires Valid()
      modifies this`errno, filesystems
      ensures Valid() && (State(), ret) == S.DetachFilesystem(old(State()), prefix)
    {
      hide S.Inv, Flat, Handles, Mounts.Valid, Find, Shape;
      S.InvIsFormed(State());
      ghost var before := State();
      S.DetachKeepsInv(before, prefix);
      if prefix.None? {
        errno := S.EINVAL;
        return -1;
      }
      var i := MountOf(prefix);
      if i != -1 {
        filesystems[i] := FREE;
        assert filesystems[..] == before.mounts[i := FREE];
        return 0;
      }
      errno := S.EPERM;
      return -2;
    }

    // ---- File calls ----

    /** Empties a slot in use and counts it out. */
    method ClearSlot(b: nat, p: nat)
      requires Laid() && b < bucketsCount && p < BUCKET_SIZE
      modifies handleMap[b], this`openCount, this`live
      ensures Laid() && BUCKET_SIZE * b + p < |old(Handles().slots)|
      ensures State() == old(State()).(handles := Clear(old(Handles()), BUCKET_SIZE * b + p),
                                       live := Without(old(live), BUCKET_SIZE * b + p))
    {
      handleMap[b][p] := 0;
      openCount := openCount - 1;
      live := Without(live, BUCKET_SIZE * b + p);
      assert Handles().slots == old(Handles().slots)[BUCKET_SIZE * b + p := 0];
      assert filesystems[..] == old(filesystems[..]);
    }

    method Close(fileno: int, env: S.Env) returns (ret: int)
      requires Valid()
      modifies this, buckets
      ensures Valid() && buckets == old(buckets) && (State(), ret) == S.Close(old(State()), fileno, env)
    {
      hide S.Inv, Flat, Lookup, FsIndex, BucketIdx, BucketPos, Mounts.Valid;
      S.InvIsFormed(State());
      ghost var before := State();
      S.CloseKeepsInv(before, fileno, env);
      var i := GetFsPointerByHandle(fileno);
      if i == -1 {
        errno := S.EINVAL;
        return -1;
      }
      if !filesystems[i].fs.value.hasClose {
        errno := S.ENOSYS;
        return -1;
      }
      var slot := GetFsHandle(fileno);
      if slot.None? {
        errno := S.EINVAL;
        return -1;
      }
      var (b, p) := slot.value;
      var handle := handleMap[b][p];
      ClearSlot(b, p);
      calls := calls + [S.CloseCall(filesystems[i].fs.value, handle)];
      errno := env.close.errno;
      return env.close.ret;
    }

    method Fstat(fileno: int, st: bool, env: S.Env) returns (ret: int)
      requires Valid()
      modifies this`errno, this`calls
      ensures Valid() && (State(), ret) == S.Fstat(old(State()), fileno, st, env)
    {
      hide S.Inv, Flat, Mounts.Valid, FsIndex, BucketIdx, BucketPos;
      S.InvIsFormed(State());
      S.FstatKeepsInv(State(), fileno, st, env);
      if !st {
        errno := S.EINVAL;
        return -1;
      } else if fileno < 3 {
        errno := S.EINVAL;
        return -1;
      }
      var i := GetFsPointerByHandle(fileno);
      var slot := GetFsHandle(fileno);
      if i == -1 || slot.None? {
        errno := S.EINVAL;
        return -1;
      }
      if !filesystems[i].fs.value.hasFstat {
        errno := S.ENOSYS;
        return -1;
      }
      calls := calls + [S.FstatCall(filesystems[i].fs.value, handleMap[slot.value.0][slot.value.1])];
      errno := env.fstat.errno;
      return env.fstat.ret;
    }

    method Ftruncate(fileno: int, length: int, env: S.Env) returns (ret: int)
      requires Valid()
      modifies this`errno, this`calls
      ensures Valid() && (State(), ret) == S.Ftruncate(old(State()), fileno, length, env)
    {
      hide S.Inv, Flat, Mounts.Valid, FsIndex, BucketIdx, BucketPos;
      S.InvIsFormed(State());
      S.FtruncateKeepsInv(State(), fileno, length, env);
      var i := GetFsPointerByHandle(fileno);
      var slot := GetFsHandle(fileno);
      if i == -1 || slot.None? || length < 0 {
        errno := S.EINVAL;
        return -1;
      }
      if !filesystems[i].fs.value.hasFtruncate {
        errno := S.ENOSYS;
        return -1;
      }
      calls := calls + [S.FtruncateCall(filesystems[i].fs.value, handleMap[slot.value.0][slot.value.1], length)];
      errno := env.ftruncate.errno;
      return env.ftruncate.ret;
    }

    method Open(file: CharPtr, flags: int, env: S.Env) returns (fileno: int)
      requires Valid()
      modifies this, handleMap, buckets
      ensures Valid() && fresh(buckets - old(buckets)) && (State(), fileno) == S.Open(old(State()), file, flags, env)
    {
      hide S.Inv, S.AllocateFileno, Flat, Handles;
      S.InvIsFormed(State());
      ghost var before := State();
      S.OpenKeepsInv(before, file, flags, env);
      var i := GetFsLinkByName(file);
      if i < 0 {
        errno := S.EINVAL;
        return -1;
      }
      if !filesystems[i].fs.value.hasOpen {
        errno := S.ENOSYS;
        return -1;
      }
      errno := 0;
      var len := StrLen(filesystems[i].prefix);
      calls := calls + [S.OpenCall(filesystems[i].fs.value, file.value[len..], flags, env.handle)];
      errno := env.openErrno;
      assert State() == S.Dispatched(before, i, file.value, flags, env);
      if env.handle != 0 {
        fileno := AllocateFileno(env.handle, i, env.mem);
        return;
      }
      if errno == 0 {
        errno := S.ENOENT;
      }
      return -1;
    }

    method Stat(file: CharPtr, st: bool, env: S.Env) returns (ret: int)
      requires Valid()
      modifies this, handleMap, buckets
      ensures Valid() && fresh(buckets - old(buckets)) && (State(), ret) == S.Stat(old(State()), file, st, env)
    {
      hide S.Inv, S.Open, S.Fstat, S.Close, Flat, Handles;
      S.InvIsFormed(State());
      S.StatKeepsInv(State(), file, st, env);
      if !st {
        errno := S.EINVAL;
        return -1;
      }
      var i := GetFsLinkByName(file);
      if i >= 0 && filesystems[i].fs.value.hasStat {
        var len := StrLen(filesystems[i].prefix);
        calls := calls + [S.StatCall(filesystems[i].fs.value, file.value[len - 1..])];
        errno := env.stat.errno;
        return env.stat.ret;
      }
      var fd := Open(file, S.O_RDONLY, env);
      if fd < 0 {
        return fd;
      }
      ret := Fstat(fd, true, env);
      var _ := Close(fd, env);
    }

    method Truncate(file: CharPtr, length: int, env: S.Env) returns (ret: int)
      requires Valid()
      modifies this, handleMap, buckets
      ensures Valid() && fresh(buckets - old(buckets)) && (State(), ret) == S.Truncate(old(State()), file, length, env)
    {
      hide S.Inv, S.Open, S.Ftruncate, S.Close, Flat, Handles;
      S.InvIsFormed(State());
      var fd := Open(file, S.O_WRONLY, env);
      if fd < 0 {
        return fd;
      }
      ret := Ftruncate(fd, length, env);
      var _ := Close(fd, env);
    }
  }
}
