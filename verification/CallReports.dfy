/**
 What each file call answers, in terms of the mounts, the live descriptors and the
 arithmetic of descriptor numbers alone.
 */
module CallReports {
  import opened CStrings
  import opened Fileno
  import opened HandleMap
  import opened HandleTable
  import opened Mounts
  import opened Options
  import opened Syscalls

  // ---- Attach and detach ----

  /** Some mount, or every mount, has a prefix of this kind. */
  ghost predicate Attached(ms: Mounts.Table, prefix: CharPtr) {
    exists i :: 0 <= i < |ms| && ms[i].prefix == prefix
  }

  ghost predicate NoFreeMount(ms: Mounts.Table) {
    forall i :: 0 <= i < |ms| ==> ms[i].prefix.Some?
  }

  /** Not of the form "x:/" with at least one character before the colon. */
  predicate Malformed(p: string) {
    |p| < 3 || p[|p| - 1] != '/' || p[|p| - 2] != ':'
  }

  /**
   The result and errno of every attach. An accepted prefix takes the lowest free mount; a
   refused one leaves the mounts alone; nothing else ever changes.
   */
  lemma AttachReports(s: State, prefix: CharPtr, fs: Option<Filesystem>)
    requires Formed(s)
    ensures var (s', ret) := AttachFilesystem(s, prefix, fs);
      && s' == s.(mounts := s'.mounts, errno := s'.errno)
      && (ret, s'.errno) ==
           (if prefix.None? || fs.None? || Malformed(prefix.value) then (-1, 22)
            else if Attached(s.mounts, prefix) then (-2, 1)
            else if NoFreeMount(s.mounts) then (-3, 12)
            else (0, s.errno))
      && (ret != 0 ==> s'.mounts == s.mounts)
      && (ret == 0 ==> exists k :: TakesFirstFree(s.mounts, s'.mounts, k, Mount(prefix, fs)))
  {
    AttachOutcomes(s.mounts, prefix, fs);
    AttachKeepsValid(s.mounts, prefix, fs);
  }

  /** After a successful attach every name under the prefix resolves, and to that mount if no other prefix begins it. */
  lemma AttachedNamesResolve(s: State, prefix: CharPtr, fs: Option<Filesystem>, rest: CString)
    requires Formed(s) && AttachFilesystem(s, prefix, fs).1 == 0
    ensures prefix.Some?
    ensures var ms := AttachFilesystem(s, prefix, fs).0.mounts;
      var name: CString := prefix.value + rest;
      && Resolve(ms, Some(name)) >= 0
      && (!Ambiguous(ms, name) ==> ms[Resolve(ms, Some(name))] == Mount(prefix, fs))
  {
    AttachReports(s, prefix, fs);
    var ms := AttachFilesystem(s, prefix, fs).0.mounts;
    var k :| TakesFirstFree(s.mounts, ms, k, Mount(prefix, fs));
    assert Matches(ms[k], prefix.value + rest);
  }

  /** The result and errno of every detach. It frees exactly the mount with that prefix; nothing else ever changes. */
  lemma DetachReports(s: State, prefix: CharPtr)
    requires Formed(s)
    ensures var (s', ret) := DetachFilesystem(s, prefix);
      && s' == s.(mounts := s'.mounts, errno := s'.errno)
      && (ret, s'.errno) ==
           (if prefix.None? then (-1, 22)
            else if !Attached(s.mounts, prefix) then (-2, 1)
            else (0, s.errno))
      && (ret != 0 ==> s'.mounts == s.mounts)
      && |s'.mounts| == |s.mounts|
      && (ret == 0 ==> forall i :: 0 <= i < |s.mounts| ==>
            s'.mounts[i] == if s.mounts[i].prefix == prefix then Mount(None, None) else s.mounts[i])
  {
    DetachOutcomes(s.mounts, prefix);
  }

  // ---- Descriptors ----

  /** The filesystem bits of a descriptor name a mounted filesystem. */
  ghost predicate NamesMount(ms: Mounts.Table, fileno: int) {
    fileno > 0 && 0 <= fileno % 32768 / 2048 - 1 < |ms| && ms[fileno % 32768 / 2048 - 1].fs.Some?
  }

  ghost function NamedFs(ms: Mounts.Table, fileno: int): Filesystem
    requires NamesMount(ms, fileno)
  {
    ms[fileno % 32768 / 2048 - 1].fs.value
  }

  /** g is live and has the descriptor's bucket and position bits. */
  ghost predicate SameSlot(live: Live, fileno: int, g: nat) {
    g in live && g % 2048 == fileno % 2048
  }

  ghost predicate SlotInUse(live: Live, fileno: int) {
    exists g :: SameSlot(live, fileno, g)
  }

  lemma MountedIs(ms: Mounts.Table, fileno: int)
    ensures Mounted(ms, fileno) == if NamesMount(ms, fileno) then Some(NamedFs(ms, fileno)) else None
  {
    if fileno > 0 {
      ExtractorsAreDivMod(fileno);
    }
    hide FsIndex;
  }

  /** The slot bits are the eleven low bits. */
  lemma SlotIsLowBits(f: nat)
    ensures SlotOf(f) == f % 2048
  {
    ExtractorsAreDivMod(f);
    hide BucketIdx, BucketPos;
    LowFive(f);
  }

  /** A positive descriptor looks up the handle of the live one in its slot, or nothing. */
  lemma LookupIs(t: HandleTable.Table, live: Live, fileno: int)
    requires Shape(t) && Refines(t, live) && fileno > 0
    ensures Lookup(t, fileno) == 0 <==> !SlotInUse(live, fileno)
    ensures forall g :: SameSlot(live, fileno, g) ==>
      Lookup(t, fileno) == live[g].handle && Without(live, SlotOf(fileno)) == live - {g}
  {
    forall g | SameSlot(live, fileno, g)
      ensures Lookup(t, fileno) == live[g].handle != 0 && Without(live, SlotOf(fileno)) == live - {g}
    {
      SharedSlot(t, live, fileno, g);
    }
    if Lookup(t, fileno) != 0 {
      var g := Owner(t, live, fileno);
      SlotIsLowBits(g);
      SlotIsLowBits(fileno);
      assert SameSlot(live, fileno, g);
    }
  }

  lemma SharedSlot(t: HandleTable.Table, live: Live, f: nat, g: nat)
    requires Shape(t) && Refines(t, live) && f > 0 && SameSlot(live, f, g)
    ensures Lookup(t, f) == live[g].handle != 0 && Without(live, SlotOf(f)) == live - {g}
  {
    LookupLive(t, live, g);
    assert Placed(t, g, live[g]);
    SlotIsLowBits(f);
    SlotIsLowBits(g);
    CloseLive(t, live, g);
    SameFields(f, g);
  }

  lemma SameFields(f: nat, g: nat)
    requires f % 2048 == g % 2048
    ensures BucketIdx(f) == BucketIdx(g) && BucketPos(f) == BucketPos(g)
  {
    ExtractorsAreDivMod(f);
    ExtractorsAreDivMod(g);
    hide BucketIdx, BucketPos;
    LowFive(f);
    LowFive(g);
  }

  // ---- close, fstat and ftruncate ----

  /** The result, errno and effect of every close. */
  lemma CloseReports(s: State, fileno: int, env: Env)
    requires Inv(s)
    ensures var (s', ret) := Close(s, fileno, env);
      if !NamesMount(s.mounts, fileno) then (s', ret) == (s.(errno := 22), -1)
      else if !NamedFs(s.mounts, fileno).hasClose then (s', ret) == (s.(errno := 88), -1)
      else if !SlotInUse(s.live, fileno) then (s', ret) == (s.(errno := 22), -1)
      else
        && ret == env.close.ret && s'.errno == env.close.errno && s'.mounts == s.mounts && s'.dropped == s.dropped
        && forall g :: SameSlot(s.live, fileno, g) ==>
             s'.live == s.live - {g}
             && s'.calls == s.calls + [CloseCall(NamedFs(s.mounts, fileno), s.live[g].handle)]
  {
    MountedIs(s.mounts, fileno);
    if fileno > 0 {
      LookupIs(s.handles, s.live, fileno);
    }
    hide NamesMount, NamedFs, SameSlot, Lookup, Mounted, Refines, HandleTable.Valid, Release, SlotOf;
  }

  /** A descriptor that has just been closed is refused the second time. */
  lemma SecondCloseFails(s: State, f: nat, first: Env, second: Env)
    requires Inv(s) && f in s.live && NamesMount(s.mounts, f) && NamedFs(s.mounts, f).hasClose
    ensures var s1 := Close(s, f, first).0;
      Close(s1, f, second) == (s1.(errno := 22), -1)
  {
    var s1 := Close(s, f, first).0;
    assert SameSlot(s.live, f, f);
    CloseReports(s, f, first);
    CloseKeepsInv(s, f, first);
    CloseReports(s1, f, second);
    LiveSlotsDiffer(s, f);
  }

  lemma LiveSlotsDiffer(s: State, f: nat)
    requires Inv(s) && f in s.live
    ensures !SlotInUse(s.live - {f}, f)
  {
    SlotIsLowBits(f);
    forall g | SameSlot(s.live - {f}, f, g) ensures false {
      SlotIsLowBits(g);
    }
  }

  /** The result, errno and effect of every fstat. */
  lemma FstatReports(s: State, fileno: int, st: bool, env: Env)
    requires Inv(s)
    ensures var (s', ret) := Fstat(s, fileno, st, env);
      if !st || fileno < 3 || !NamesMount(s.mounts, fileno) || !SlotInUse(s.live, fileno) then
        (s', ret) == (s.(errno := 22), -1)
      else if !NamedFs(s.mounts, fileno).hasFstat then (s', ret) == (s.(errno := 88), -1)
      else ret == env.fstat.ret && forall g :: SameSlot(s.live, fileno, g) ==>
        s' == s.(errno := env.fstat.errno,
                 calls := s.calls + [FstatCall(NamedFs(s.mounts, fileno), s.live[g].handle)])
  {
    MountedIs(s.mounts, fileno);
    if fileno > 0 {
      LookupIs(s.handles, s.live, fileno);
    }
    hide NamesMount, NamedFs, SameSlot, Lookup, Mounted, Refines, HandleTable.Valid, SlotOf;
  }

  /** The result, errno and effect of every ftruncate. */
  lemma FtruncateReports(s: State, fileno: int, length: int, env: Env)
    requires Inv(s)
    ensures var (s', ret) := Ftruncate(s, fileno, length, env);
      if !NamesMount(s.mounts, fileno) || !SlotInUse(s.live, fileno) || length < 0 then
        (s', ret) == (s.(errno := 22), -1)
      else if !NamedFs(s.mounts, fileno).hasFtruncate then (s', ret) == (s.(errno := 88), -1)
      else ret == env.ftruncate.ret && forall g :: SameSlot(s.live, fileno, g) ==>
        s' == s.(errno := env.ftruncate.errno,
                 calls := s.calls + [FtruncateCall(NamedFs(s.mounts, fileno), s.live[g].handle, length)])
  {
    MountedIs(s.mounts, fileno);
    if fileno > 0 {
      LookupIs(s.handles, s.live, fileno);
    } else {
      NonPositiveLookup(s.handles, fileno);
    }
    hide NamesMount, NamedFs, SameSlot, Lookup, Mounted, Refines, HandleTable.Valid, SlotOf;
  }

  lemma NonPositiveLookup(t: HandleTable.Table, fileno: int)
    requires Shape(t) && fileno <= 0
    ensures Lookup(t, fileno) == 0
  {
  }

  // ---- stat and truncate ----

  /** A descriptor just bound names its mount, and its slot is its own. */
  lemma FreshFileno(s: State, s1: State, f: int, i: nat, h: Ptr)
    requires Bound(s, s1, f, i, h) && i < |s.mounts| && s.mounts[i].fs.Some?
    ensures f >= FIRST && NamesMount(s1.mounts, f) && NamedFs(s1.mounts, f) == s.mounts[i].fs.value
    ensures SameSlot(s1.live, f, f) && s1.live[f].handle == h
  {
    ExtractorsAreDivMod(f);
    hide FsIndex;
  }

  /** The opening half of stat and truncate, and their answer when it fails. */
  lemma OpenForCall(s: State, file: CharPtr, flags: int, env: Env) returns (s1: State, f: int)
    requires Inv(s)
    ensures Formed(s) && (s1, f) == Open(s, file, flags, env) && Formed(s1) && Inv(s1)
    ensures f < 0 <==> !(OpensHandle(s, file, env) && CanAllocate(s.handles, env.mem))
    ensures f < 0 ==> f == -1
    ensures f >= 0 ==>
      var fs := s.mounts[Resolve(s.mounts, file)].fs.value;
      f >= 3 && s1.mounts == s.mounts && NamesMount(s1.mounts, f) && NamedFs(s1.mounts, f) == fs && SlotInUse(s1.live, f)
  {
    var r := Open(s, file, flags, env);
    s1, f := r.0, r.1;
    OpenCases(s, file, flags, env);
    OpenKeepsInv(s, file, flags, env);
    hide Open, Inv;
    if f >= 0 {
      var i := Resolve(s.mounts, file);
      FreshFileno(Dispatched(s, i, file.value, flags, env), s1, f, i, env.handle);
      assert SlotInUse(s1.live, f);
    }
  }

  /** Closing the descriptor of the call: the last word on errno. */
  lemma CloseAfterCall(s1: State, s2: State, f: int, env: Env)
    requires Inv(s2) && OnlyAsked(s1, s2) && NamesMount(s1.mounts, f) && SlotInUse(s1.live, f)
    ensures Close(s2, f, env).0.errno == if NamedFs(s1.mounts, f).hasClose then env.close.errno else 88
  {
    CloseReports(s2, f, env);
  }

  /**
   The result and errno of every stat: a NULL buffer, a native stat, a failed open passed
   on, and the fallback, whose errno is what its close left.
   */
  lemma StatReports(s: State, file: CharPtr, st: bool, env: Env)
    requires Inv(s)
    ensures var (s', ret) := Stat(s, file, st, env);
      var i := Resolve(s.mounts, file);
      if !st then (s', ret) == (s.(errno := 22), -1)
      else if i >= 0 && s.mounts[i].fs.value.hasStat then
        ret == env.stat.ret && s' == s.(errno := env.stat.errno, calls := s'.calls)
      else if !OpensHandle(s, file, env) || !CanAllocate(s.handles, env.mem) then
        (s', ret) == (Open(s, file, 0, env).0, -1)
      else
        var fs := s.mounts[i].fs.value;
        && ret == (if fs.hasFstat then env.fstat.ret else -1)
        && s'.errno == (if fs.hasClose then env.close.errno else 88)
  {
    hide Open, Close, Fstat, Inv, NamesMount, NamedFs, SlotInUse;
    InvIsFormed(s);
    var i := Resolve(s.mounts, file);
    if st && !(i >= 0 && s.mounts[i].fs.value.hasStat) {
      var s1, f := OpenForCall(s, file, 0, env);
      if f >= 0 {
        var s2 := Fstat(s1, f, true, env).0;
        FstatReports(s1, f, true, env);
        FstatOnlyAsks(s1, f, true, env);
        FstatKeepsInv(s1, f, true, env);
        CloseAfterCall(s1, s2, f, env);
      }
    }
  }

  /** The result and errno of every truncate. */
  lemma TruncateReports(s: State, file: CharPtr, length: int, env: Env)
    requires Inv(s)
    ensures var (s', ret) := Truncate(s, file, length, env);
      if !OpensHandle(s, file, env) || !CanAllocate(s.handles, env.mem) then
        (s', ret) == (Open(s, file, 1, env).0, -1)
      else
        var fs := s.mounts[Resolve(s.mounts, file)].fs.value;
        && ret == (if fs.hasFtruncate && length >= 0 then env.ftruncate.ret else -1)
        && s'.errno == (if fs.hasClose then env.close.errno else 88)
  {
    hide Open, Close, Ftruncate, Inv, NamesMount, NamedFs, SlotInUse;
    InvIsFormed(s);
    var s1, f := OpenForCall(s, file, 1, env);
    if f >= 0 {
      var s2 := Ftruncate(s1, f, length, env).0;
      FtruncateReports(s1, f, length, env);
      FtruncateOnlyAsks(s1, f, length, env);
      FtruncateKeepsInv(s1, f, length, env);
      CloseAfterCall(s1, s2, f, env);
    }
  }

  // ---- Memory is asked for only when the load calls for it ----

  /** With one filesystem attached to a fresh file layer. */
  ghost predicate OneMount(s: State, prefix: CharPtr, fs: Filesystem) {
    && Fresh(s) && |s.mounts| > 0 && prefix.Some? && !Malformed(prefix.value) && fs.hasOpen
  }

  lemma FirstMount(s: State, prefix: CharPtr, fs: Filesystem, rest: CString, env: Env)
    requires OneMount(s, prefix, fs) && env.handle != 0
    ensures Inv(s)
    ensures var s1 := AttachFilesystem(s, prefix, Some(fs)).0;
      && Inv(s1) && s1.handles == Empty() && s1.live == map[]
      && OpensHandle(s1, Some(prefix.value + rest), env)
  {
    FreshIsInv(s);
    AttachReports(s, prefix, Some(fs));
    assert !Attached(s.mounts, prefix);
    assert s.mounts[0].prefix.None?;
    AttachKeepsInv(s, prefix, Some(fs));
    AttachedNamesResolve(s, prefix, Some(fs), rest);
    OnlyMount(s, prefix, fs, rest);
  }

  lemma OnlyMount(s: State, prefix: CharPtr, fs: Filesystem, rest: CString)
    requires OneMount(s, prefix, fs) && Formed(s) && AttachFilesystem(s, prefix, Some(fs)).1 == 0
    ensures var ms := AttachFilesystem(s, prefix, Some(fs)).0.mounts;
      forall i :: 0 <= i < |ms| && ms[i].prefix.Some? ==> ms[i] == Mount(prefix, Some(fs))
  {
    AttachReports(s, prefix, Some(fs));
  }

  /** n opens with no memory for another bucket, n up to 27: all succeed, in the one bucket. */
  lemma {:induction false} OpensWithoutMemory(s: State, file: CharPtr, env: Env, n: nat)
    requires Inv(s) && s.handles == Empty() && s.live == map[] && OpensHandle(s, file, env) && !env.mem && n <= 27
    ensures var s' := OpenTimes(s, file, env, n);
      Inv(s') && OpensHandle(s', file, env) && |s'.live| == n && s'.handles.open == n && s'.handles.buckets == 1
    decreases n
  {
    hide Open, Inv, OpensHandle, Formed;
    InvIsFormed(s);
    if n > 0 {
      OpensWithoutMemory(s, file, env, n - 1);
      var s1 := OpenTimes(s, file, env, n - 1);
      OneMoreWithoutMemory(s1, file, env);
      assert OpenTimes(s, file, env, n) == Open(s1, file, O_RDONLY, env).0;
      hide OpenTimes;
    }
  }

  lemma OneMoreWithoutMemory(s: State, file: CharPtr, env: Env)
    requires Inv(s) && OpensHandle(s, file, env) && !env.mem && s.handles.buckets == 1 && s.handles.open < 27
    requires |s.live| == s.handles.open
    ensures var s' := Open(s, file, O_RDONLY, env).0;
      && Inv(s') && OpensHandle(s', file, env) && |s'.live| == |s.live| + 1
      && s'.handles.open == s.handles.open + 1 && s'.handles.buckets == 1
  {
    OpenBinds(s, file, O_RDONLY, env);
    OpenKeepsInv(s, file, O_RDONLY, env);
    OpenKeepsMounts(s, file, O_RDONLY, env);
    var i := Resolve(s.mounts, file);
    AllocOutcomes(s.handles, env.handle, i, env.mem);
    hide HandleTable.Valid, Mounted, Lookup, Obtained, Returned, Alloc;
  }

  /**
   From start-up, one filesystem attached and no memory at all: the first 27 opens succeed
   in the static bucket, and the 28th is the first to ask for memory and reports ENOMEM.
   */
  lemma TwentySevenWithoutMemory(s: State, prefix: CharPtr, fs: Filesystem, rest: CString, env: Env)
    requires OneMount(s, prefix, fs) && env.handle != 0 && !env.mem
    ensures Formed(s)
    ensures var s1 := AttachFilesystem(s, prefix, Some(fs)).0;
      var file := Some(prefix.value + rest);
      && (forall n: nat :: n <= 27 ==>
            |OpenTimes(s1, file, env, n).live| == n && OpenTimes(s1, file, env, n).handles.buckets == 1)
      && var (s', f) := Open(OpenTimes(s1, file, env, 27), file, 0, env);
      f == -1 && s'.errno == 12 && |s'.live| == 27
  {
    FirstMount(s, prefix, fs, rest, env);
    var s1, file := AttachFilesystem(s, prefix, Some(fs)).0, Some(prefix.value + rest);
    hide AttachFilesystem, Open, OpenTimes, Inv, Fresh, OpensHandle, OneMount;
    InvIsFormed(s);
    forall n: nat | n <= 27
      ensures |OpenTimes(s1, file, env, n).live| == n && OpenTimes(s1, file, env, n).handles.buckets == 1
    {
      OpensWithoutMemory(s1, file, env, n);
    }
    OpensWithoutMemory(s1, file, env, 27);
    NextNeedsMemory(OpenTimes(s1, file, env, 27), file, env);
  }

  lemma NextNeedsMemory(s: State, file: CharPtr, env: Env)
    requires Inv(s) && OpensHandle(s, file, env) && !env.mem && s.handles.buckets == 1 && s.handles.open == 27 == |s.live|
    ensures var (s', f) := Open(s, file, 0, env);
      f == -1 && s'.errno == 12 && s'.live == s.live
  {
    OpenBinds(s, file, 0, env);
    OpenReportsReason(s, file, 0, env);
    hide Open, HandleTable.Valid, Refines;
  }

  // ---- Runs ----

  /** A run makes every one of its calls, in order, with the operands and the environment given for it. */
  lemma RunMakesEveryCall(s: State, ops: seq<(Op, Env)>, op: Op, env: Env)
    requires Formed(s)
    ensures Run(s, []) == s
    ensures var s1, s2 := Run(s, ops), Run(s, ops + [(op, env)]);
      && (forall file, flags :: op == OpOpen(file, flags) ==> s2 == Open(s1, file, flags, env).0)
      && (forall fileno :: op == OpClose(fileno) ==> s2 == Close(s1, fileno, env).0)
      && (forall fileno, st :: op == OpFstat(fileno, st) ==> s2 == Fstat(s1, fileno, st, env).0)
      && (forall file, st :: op == OpStat(file, st) ==> s2 == Stat(s1, file, st, env).0)
      && (forall fileno, length :: op == OpFtruncate(fileno, length) ==> s2 == Ftruncate(s1, fileno, length, env).0)
      && (forall file, length :: op == OpTruncate(file, length) ==> s2 == Truncate(s1, file, length, env).0)
      && (forall prefix, fs :: op == OpAttach(prefix, fs) ==> s2 == AttachFilesystem(s1, prefix, fs).0)
      && (forall prefix :: op == OpDetach(prefix) ==> s2 == DetachFilesystem(s1, prefix).0)
  {
    assert (ops + [(op, env)])[..|ops|] == ops;
  }
}
