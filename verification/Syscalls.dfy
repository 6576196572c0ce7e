/**
 The file calls as transitions on a value: the mount table, the handle table, the
 map it refines, errno, and the history of calls into the filesystems.
 */
module Syscalls {
  import Bits
  import opened CStrings
  import opened Fileno
  import opened HandleMap
  import opened HandleTable
  import opened Mounts
  import opened Options

  const EPERM: int := 1
  const ENOENT: int := 2
  const ENOMEM: int := 12
  const EINVAL: int := 22
  const ENFILE: int := 23
  const ENOSYS: int := 88

  const O_RDONLY: int := 0
  const O_WRONLY: int := 1

  /** A call into a filesystem, with the arguments that matter. */
  datatype Call =
    | OpenCall(fs: Filesystem, path: string, flags: int, result: Ptr)
    | CloseCall(fs: Filesystem, handle: Ptr)
    | FstatCall(fs: Filesystem, handle: Ptr)
    | StatCall(fs: Filesystem, path: string)
    | FtruncateCall(fs: Filesystem, handle: Ptr, length: int)

  /** What a callback returns and leaves in errno. */
  datatype Answer = Answer(ret: int, errno: int)

  /** How the filesystems and calloc behave during one call: arbitrary. */
  datatype Env = Env(handle: Ptr, openErrno: int, close: Answer, fstat: Answer, stat: Answer, ftruncate: Answer, mem: bool)

  datatype State = State(mounts: Mounts.Table, handles: HandleTable.Table, live: Live, errno: int, calls: seq<Call>,
                         dropped: multiset<Ptr>)

  /** The handle a call brings out of a filesystem, and the one it gives back. */
  function GivenOut(c: Call): multiset<Ptr> {
    if c.OpenCall? && c.result != 0 then multiset{c.result} else multiset{}
  }

  function GivenBack(c: Call): multiset<Ptr> {
    if c.CloseCall? then multiset{c.handle} else multiset{}
  }

  function Obtained(calls: seq<Call>): multiset<Ptr> {
    if calls == [] then multiset{}
    else Obtained(calls[..|calls| - 1]) + GivenOut(calls[|calls| - 1])
  }

  function Returned(calls: seq<Call>): multiset<Ptr> {
    if calls == [] then multiset{}
    else Returned(calls[..|calls| - 1]) + GivenBack(calls[|calls| - 1])
  }

  lemma OneMoreCall(calls: seq<Call>, c: Call)
    ensures Obtained(calls + [c]) == Obtained(calls) + GivenOut(c)
    ensures Returned(calls + [c]) == Returned(calls) + GivenBack(c)
  {
  }

  /** What the calls need to be defined. */
  ghost predicate Formed(s: State) {
    |s.mounts| <= 15 && Mounts.Valid(s.mounts) && Shape(s.handles)
  }

  /** The handle table is in order and stands for the map. */
  ghost predicate Tracked(s: State) {
    Formed(s) && HandleTable.Valid(s.handles) && Refines(s.handles, s.live)
  }

  /**
   What every call keeps: distinct well-formed prefixes, the counter and load of the
   handle table, its refinement of the map, and the conservation of handles.
   */
  ghost predicate Inv(s: State) {
    && Tracked(s)
    && Obtained(s.calls) == multiset(s.handles.slots)[0 := 0] + Returned(s.calls) + s.dropped
  }

  lemma InvIsFormed(s: State)
    requires Inv(s)
    ensures Formed(s)
  {
  }

  /** The filesystem a fileno names, if one is mounted there. */
  function Mounted(ms: Mounts.Table, fileno: int): Option<Filesystem> {
    if fileno <= 0 || FsIndex(fileno) < 0 || FsIndex(fileno) >= |ms| then None
    else ms[FsIndex(fileno)].fs
  }

  function Fail(s: State, errno: int): (State, int) {
    (s.(errno := errno), -1)
  }

  /** The callback answers, having seen the call. */
  function Ask(s: State, call: Call, answer: Answer): (State, int) {
    (s.(calls := s.calls + [call], errno := answer.errno), answer.ret)
  }

  ghost function AllocateFileno(s: State, h: Ptr, fs: nat, mem: bool): (r: (State, int))
    requires Formed(s) && fs <= 14
    ensures Formed(r.0)
  {
    var (t', out) := Alloc(s.handles, h, fs, mem);
    var s' := s.(handles := t');
    match out
    case NoMemory => Fail(s'.(dropped := s.dropped + multiset{h}), ENOMEM)
    case NoFreeSlot => Fail(s'.(dropped := s.dropped + multiset{h}), ENFILE)
    case Allocated(k) =>
      var f := Make(k / BUCKET_SIZE, k % BUCKET_SIZE, fs);
      (s'.(live := s.live[f := Entry(fs, h)]), f)
  }

  /** The fileno of an allocation, from the bucket and position the probe stopped at. */
  lemma AllocateAt(s: State, h: Ptr, fs: nat, mem: bool, start: (nat, nat), slot: Option<(nat, nat)>)
    requires Formed(s) && fs <= 14 && (NeedsGrowth(s.handles) ==> mem)
    requires var g := AfterGrowth(s.handles);
      && start == Start(h, fs, g.buckets)
      && Probe(g.slots, g.buckets, start.0, start.1, 0) ==
           (if slot.None? then None else Some(BUCKET_SIZE * slot.value.0 + slot.value.1))
    requires slot.Some? ==> slot.value.1 < BUCKET_SIZE
    ensures var g := AfterGrowth(s.handles);
      AllocateFileno(s, h, fs, mem) ==
      match slot
      case None => Fail(s.(handles := g, dropped := s.dropped + multiset{h}), ENFILE)
      case Some((b, p)) =>
        (s.(handles := Fill(g, BUCKET_SIZE * b + p, h), live := s.live[Make(b, p, fs) := Entry(fs, h)]), Make(b, p, fs))
  {
    hide Start, Probe, Make;
    if slot.Some? {
      SlotParts(slot.value.0, slot.value.1);
    }
  }

  /** The filesystem has been asked to open the part of the name after the prefix. */
  function Dispatched(s: State, i: nat, name: string, flags: int, env: Env): State
    requires i < |s.mounts| && s.mounts[i].fs.Some? && Matches(s.mounts[i], name)
  {
    var path := name[|s.mounts[i].prefix.value|..];
    s.(calls := s.calls + [OpenCall(s.mounts[i].fs.value, path, flags, env.handle)], errno := env.openErrno)
  }

  ghost function Open(s: State, file: CharPtr, flags: int, env: Env): (r: (State, int))
    requires Formed(s)
    ensures Formed(r.0)
  {
    var i := Resolve(s.mounts, file);
    if i == -1 then Fail(s, EINVAL)
    else if !s.mounts[i].fs.value.hasOpen then Fail(s, ENOSYS)
    else
      var s' := Dispatched(s, i, file.value, flags, env);
      if env.handle != 0 then AllocateFileno(s', env.handle, i, env.mem)
      else Fail(s', if env.openErrno == 0 then ENOENT else env.openErrno)
  }

  ghost function Close(s: State, fileno: int, env: Env): (r: (State, int))
    requires Formed(s)
    ensures Formed(r.0)
  {
    var m := Mounted(s.mounts, fileno);
    if m.None? then Fail(s, EINVAL)
    else if !m.value.hasClose then Fail(s, ENOSYS)
    else
      var h := Lookup(s.handles, fileno);
      if h == 0 then Fail(s, EINVAL)
      else
        var s' := s.(handles := Release(s.handles, fileno), live := Without(s.live, SlotOf(fileno)));
        Ask(s', CloseCall(m.value, h), env.close)
  }

  ghost function Fstat(s: State, fileno: int, st: bool, env: Env): (r: (State, int))
    requires Formed(s)
    ensures Formed(r.0)
  {
    if !st || fileno < 3 then Fail(s, EINVAL)
    else
      var m, h := Mounted(s.mounts, fileno), Lookup(s.handles, fileno);
      if m.None? || h == 0 then Fail(s, EINVAL)
      else if !m.value.hasFstat then Fail(s, ENOSYS)
      else Ask(s, FstatCall(m.value, h), env.fstat)
  }

  ghost function Ftruncate(s: State, fileno: int, length: int, env: Env): (r: (State, int))
    requires Formed(s)
    ensures Formed(r.0)
  {
    var m, h := Mounted(s.mounts, fileno), Lookup(s.handles, fileno);
    if m.None? || h == 0 || length < 0 then Fail(s, EINVAL)
    else if !m.value.hasFtruncate then Fail(s, ENOSYS)
    else Ask(s, FtruncateCall(m.value, h, length), env.ftruncate)
  }

  /** `st` is false for a NULL stat buffer. */
  ghost function Stat(s: State, file: CharPtr, st: bool, env: Env): (r: (State, int))
    requires Formed(s)
    ensures Formed(r.0)
  {
    var i := Resolve(s.mounts, file);
    if !st then Fail(s, EINVAL)
    else if i >= 0 && s.mounts[i].fs.value.hasStat then
      Ask(s, StatCall(s.mounts[i].fs.value, file.value[|s.mounts[i].prefix.value| - 1..]), env.stat)
    else
      var (s1, fd) := Open(s, file, O_RDONLY, env);
      if fd < 0 then (s1, fd)
      else
        var (s2, ret) := Fstat(s1, fd, true, env);
        (Close(s2, fd, env).0, ret)
  }

  ghost function Truncate(s: State, file: CharPtr, length: int, env: Env): (r: (State, int))
    requires Formed(s)
    ensures Formed(r.0)
  {
    var (s1, fd) := Open(s, file, O_WRONLY, env);
    if fd < 0 then (s1, fd)
    else
      var (s2, ret) := Ftruncate(s1, fd, length, env);
      (Close(s2, fd, env).0, ret)
  }

  /** errno and return value of the mount calls. */
  function Report(s: State, ms: Mounts.Table, status: Status): (State, int) {
    var s' := s.(mounts := ms);
    match status
    case Done => (s', 0)
    case Invalid => (s'.(errno := EINVAL), -1)
    case AlreadyAttached => (s'.(errno := EPERM), -2)
    case NotAttached => (s'.(errno := EPERM), -2)
    case TableFull => (s'.(errno := ENOMEM), -3)
  }

  ghost function AttachFilesystem(s: State, prefix: CharPtr, fs: Option<Filesystem>): (r: (State, int))
    requires Formed(s)
    ensures Formed(r.0)
  {
    AttachKeepsValid(s.mounts, prefix, fs);
    var (ms, status) := Attach(s.mounts, prefix, fs);
    Report(s, ms, status)
  }

  ghost function DetachFilesystem(s: State, prefix: CharPtr): (r: (State, int))
    requires Formed(s)
    ensures Formed(r.0)
  {
    DetachKeepsValid(s.mounts, prefix);
    var (ms, status) := Detach(s.mounts, prefix);
    Report(s, ms, status)
  }

  // ---- What open does ----

  /** The call reaches the filesystem and gets a handle back. */
  predicate OpensHandle(s: State, file: CharPtr, env: Env) {
    var i := Resolve(s.mounts, file);
    i >= 0 && s.mounts[i].fs.Some? && s.mounts[i].fs.value.hasOpen && env.handle != 0
  }

  /** The table can take one more handle. */
  predicate CanAllocate(t: HandleTable.Table, mem: bool) {
    t.open < 1024 && (t.buckets < 32 && t.open + t.open / 4 > 32 * t.buckets ==> mem)
  }

  /** s1 is s with one more binding, of f to the handle h from mount i, in a table grown if need be. */
  ghost predicate Bound(s: State, s1: State, f: int, i: nat, h: Ptr) {
    && FIRST <= f <= LAST && FsIndex(f) == i && f !in s.live
    && s1 == s.(handles := s1.handles, live := s.live[f := Entry(i, h)])
    && Tracked(s1) && Lookup(s1.handles, f) == h && Release(s1.handles, f) == AfterGrowth(s.handles)
  }

  lemma AllocatedFileno(s: State, h: Ptr, fs: nat, mem: bool)
    requires Tracked(s) && fs <= 14 && h != 0 && CanAllocate(s.handles, mem)
    ensures var (s', f) := AllocateFileno(s, h, fs, mem); Bound(s, s', f, fs, h)
  {
    AllocOutcomes(s.handles, h, fs, mem);
    AllocKeepsValid(s.handles, h, fs, mem);
    AllocRefines(s.handles, s.live, h, fs, mem);
    var (s', f) := AllocateFileno(s, h, fs, mem);
    var f' := FilenoOfSlot(Alloc(s.handles, h, fs, mem).1.slot, fs);
    ReleaseUndoesAlloc(s.handles, h, fs, mem);
  }

  /**
   open adds exactly one fresh binding when a handle comes back and the table has room;
   in every other case it returns -1 and binds nothing. A handle that finds no room is dropped.
   */
  lemma OpenBinds(s: State, file: CharPtr, flags: int, env: Env)
    requires Inv(s)
    ensures var (s', f) := Open(s, file, flags, env);
      if OpensHandle(s, file, env) && CanAllocate(s.handles, env.mem) then
        var i := Resolve(s.mounts, file);
        && FIRST <= f <= LAST && f !in s.live && s'.live == s.live[f := Entry(i, env.handle)]
        && Lookup(s'.handles, f) == env.handle && Mounted(s'.mounts, f) == s.mounts[i].fs
        && s'.dropped == s.dropped
      else
        f == -1 && s'.live == s.live
        && s'.dropped == if OpensHandle(s, file, env) then s.dropped + multiset{env.handle} else s.dropped
  {
    hide Open;
    OpenCases(s, file, flags, env);
  }

  /** The filesystem sees what follows its prefix; a native stat sees it with the prefix's slash in front. */
  lemma FilesystemSeesRestOfName(s: State, file: CharPtr, flags: int, env: Env)
    requires Formed(s) && Resolve(s.mounts, file) >= 0
    ensures var m := s.mounts[Resolve(s.mounts, file)];
      var rest := file.value[|m.prefix.value|..];
      && m.prefix.value + rest == file.value
      && (m.fs.value.hasOpen ==>
            Open(s, file, flags, env).0.calls == s.calls + [OpenCall(m.fs.value, rest, flags, env.handle)])
      && (m.fs.value.hasStat ==>
            Stat(s, file, true, env).0.calls == s.calls + [StatCall(m.fs.value, "/" + rest)])
  {
    var m := s.mounts[Resolve(s.mounts, file)];
    hide Alloc, Make, Shape, Fstat, Close;
    var n := |m.prefix.value|;
    assert m.prefix.value == file.value[..n];
    assert file.value[n - 1..] == [file.value[n - 1]] + file.value[n..];
  }

  /** What errno says after open, with the causes of failure that exclude each other told apart. */
  lemma OpenReportsReason(s: State, file: CharPtr, flags: int, env: Env)
    requires Inv(s)
    ensures var (s', f) := Open(s, file, flags, env);
      var i := Resolve(s.mounts, file);
      && s'.errno ==
        (if f != -1 then env.openErrno
         else if i == -1 then 22
         else if !s.mounts[i].fs.value.hasOpen then 88
         else if env.handle == 0 then (if env.openErrno == 0 then 2 else env.openErrno)
         else if |s.live| == 1024 then 23
         else 12)
      && (i == -1 || !s.mounts[i].fs.value.hasOpen ==> s'.calls == s.calls)
  {
    var i := Resolve(s.mounts, file);
    if i >= 0 {
      AllocOutcomes(s.handles, env.handle, i, env.mem);
    }
    OpenBinds(s, file, flags, env);
    hide Alloc, Make, HandleTable.Valid;
  }

  /** When a handle comes back, ENFILE is reported exactly when all 1024 slots are live. */
  lemma EnfileExactlyWhenFull(s: State, file: CharPtr, flags: int, env: Env)
    requires Inv(s) && OpensHandle(s, file, env)
    ensures var (s', f) := Open(s, file, flags, env);
      f == -1 && s'.errno == ENFILE <==> |s.live| == 1024
  {
    var i := Resolve(s.mounts, file);
    AllocOutcomes(s.handles, env.handle, i, env.mem);
    OpenBinds(s, file, flags, env);
  }

  /** n opens of the same name, one after the other. */
  ghost function OpenTimes(s: State, file: CharPtr, env: Env, n: nat): (s': State)
    requires Formed(s)
    ensures Formed(s')
    decreases n
  {
    if n == 0 then s else Open(OpenTimes(s, file, env, n - 1), file, O_RDONLY, env).0
  }

  /** The whole capacity can be used: while memory lasts, opens succeed until 1024 handles are live. */
  lemma {:induction false} CapacityIsReached(s: State, file: CharPtr, env: Env, n: nat)
    requires Inv(s) && OpensHandle(s, file, env) && env.mem && |s.live| + n <= 1024
    ensures var s' := OpenTimes(s, file, env, n);
      Inv(s') && OpensHandle(s', file, env) && |s'.live| == |s.live| + n
    decreases n
  {
    hide Open, Inv, OpensHandle, Formed;
    InvIsFormed(s);
    if n > 0 {
      CapacityIsReached(s, file, env, n - 1);
      var s1 := OpenTimes(s, file, env, n - 1);
      OneMoreOpen(s1, file, env);
      assert OpenTimes(s, file, env, n) == Open(s1, file, O_RDONLY, env).0;
      hide OpenTimes;
    }
  }

  lemma OneMoreOpen(s: State, file: CharPtr, env: Env)
    requires Inv(s) && OpensHandle(s, file, env) && env.mem && |s.live| < 1024
    ensures var s' := Open(s, file, O_RDONLY, env).0;
      Inv(s') && OpensHandle(s', file, env) && s'.mounts == s.mounts && |s'.live| == |s.live| + 1
  {
    OpenBinds(s, file, O_RDONLY, env);
    OpenKeepsInv(s, file, O_RDONLY, env);
    OpenKeepsMounts(s, file, O_RDONLY, env);
    hide Open, HandleTable.Valid, Mounted, Lookup, Obtained, Returned;
  }

  lemma OpenKeepsMounts(s: State, file: CharPtr, flags: int, env: Env)
    requires Formed(s)
    ensures Open(s, file, flags, env).0.mounts == s.mounts
  {
    hide Alloc, Make;
  }

  lemma OpenKeepsInv(s: State, file: CharPtr, flags: int, env: Env)
    requires Inv(s)
    ensures Inv(Open(s, file, flags, env).0)
  {
    hide Obtained, Returned, HandleTable.Valid, HandleMap.Refines, AllocateFileno;
    var i := Resolve(s.mounts, file);
    if i >= 0 {
      OneMoreCall(s.calls, Dispatched(s, i, file.value, flags, env).calls[|s.calls|]);
    }
    if OpensHandle(s, file, env) {
      AllocateKeepsInv(Dispatched(s, i, file.value, flags, env), env.handle, i, env.mem);
    }
  }

  /** Allocation keeps the invariant, given a handle that has been obtained and not yet stored. */
  lemma AllocateKeepsInv(s: State, h: Ptr, fs: nat, mem: bool)
    requires Tracked(s) && fs <= 14 && h != 0
    requires Obtained(s.calls) == multiset(s.handles.slots)[0 := 0] + Returned(s.calls) + s.dropped + multiset{h}
    ensures Inv(AllocateFileno(s, h, fs, mem).0)
  {
    hide Obtained, Returned, Start, Probe;
    AllocKeepsValid(s.handles, h, fs, mem);
    AllocRefines(s.handles, s.live, h, fs, mem);
    AllocConserves(s.handles, h, fs, mem);
  }

  // ---- What close does ----

  /** The slot the fileno decodes to is emptied exactly under these conditions. */
  predicate Closes(s: State, fileno: int)
    requires Shape(s.handles)
  {
    var m := Mounted(s.mounts, fileno);
    m.Some? && m.value.hasClose && Lookup(s.handles, fileno) != 0
  }

  /**
   Closing a live fileno gives back the handle it was opened with and removes that
   binding only. It is refused, and the binding stays, exactly when the mount the
   fileno names has been detached or cannot close.
   */
  lemma CloseLiveFileno(s: State, f: int, env: Env)
    requires Inv(s) && f >= 0 && f in s.live
    ensures var (s', ret) := Close(s, f, env);
      var i := s.live[f].fs;
      if i < |s.mounts| && s.mounts[i].fs.Some? && s.mounts[i].fs.value.hasClose then
        && s'.live == s.live - {f} && ret == env.close.ret
        && s'.calls == s.calls + [CloseCall(s.mounts[i].fs.value, s.live[f].handle)]
      else
        ret == -1 && s'.live == s.live && s'.handles == s.handles && s'.calls == s.calls
  {
    LookupLive(s.handles, s.live, f);
    assert Placed(s.handles, f, s.live[f]);
    CloseLive(s.handles, s.live, f);
  }

  /** A fileno that is not live leaves the map alone exactly when close is refused; otherwise it closes another one. */
  lemma CloseOtherFileno(s: State, f: int, env: Env)
    requires Inv(s) && !(f >= 0 && f in s.live)
    ensures var s' := Close(s, f, env).0;
      && (s'.live == s.live <==> !Closes(s, f))
      && (Closes(s, f) ==> exists g :: g in s.live && g != f && s'.live == s.live - {g})
  {
    hide Obtained, Returned, HandleTable.Valid, FsIndex, BucketIdx, BucketPos;
    if Closes(s, f) {
      CloseNotLive(s.handles, s.live, f);
      var g :| g in s.live && g != f && Without(s.live, SlotOf(f)) == s.live - {g};
      assert g !in s.live - {g};
    }
  }

  /**
   The filesystem bits are not checked against the slot: put the index of any mount that
   can close in those bits of a live fileno, and close still closes that live fileno.
   */
  lemma CloseThroughAnyMount(s: State, f: nat, j: nat, env: Env)
    requires Inv(s) && f in s.live
    requires j < |s.mounts| && s.mounts[j].fs.Some? && s.mounts[j].fs.value.hasClose
    ensures Close(s, f % 2048 + 2048 * (j + 1), env).0.live == s.live - {f}
  {
    hide Fileno.FsIndex, BucketIdx, BucketPos, HandleTable.Valid, Obtained, Returned, Mounts.Valid;
    var g := f % 2048 + 2048 * (j + 1);
    ExtractorsAreDivMod(f);
    ExtractorsAreDivMod(g);
    SameLowBits(f, j, g);
    LookupLive(s.handles, s.live, f);
    CloseLive(s.handles, s.live, f);
  }

  lemma SameLowBits(f: nat, j: nat, g: nat)
    requires j <= 14 && g == f % 2048 + 2048 * (j + 1)
    ensures g % 32768 / 2048 - 1 == j && g % 2048 / 32 == f % 2048 / 32 && g % 32 == f % 32
  {
    LowFive(f);
    LowFive(g);
    Bits.ModUnique(g, 2048, j + 1, f % 2048);
    Bits.ModUnique(g, 32768, 0, g);
  }

  lemma LowFive(x: nat)
    ensures x % 2048 % 32 == x % 32
  {
    var q, r := x / 2048, x % 2048;
    Bits.ModUnique(x, 32, 64 * q + r / 32, r % 32);
  }

  lemma CloseKeepsInv(s: State, fileno: int, env: Env)
    requires Inv(s)
    ensures Inv(Close(s, fileno, env).0)
  {
    hide Obtained, Returned, Used, LoadBound, HandleMap.Refines, FsIndex;
    if Closes(s, fileno) {
      ReleaseKeepsValid(s.handles, fileno);
      ReleaseRefines(s.handles, s.live, fileno);
      ReleaseConserves(s.handles, fileno);
      OneMoreCall(s.calls, CloseCall(Mounted(s.mounts, fileno).value, Lookup(s.handles, fileno)));
    }
  }

  /** fstat and ftruncate reach the filesystem with the handle the live fileno was opened with. */
  lemma LiveFilenoReachesItsHandle(s: State, f: int, length: int, env: Env)
    requires Inv(s) && f >= 0 && f in s.live
    requires var i := s.live[f].fs; i < |s.mounts| && s.mounts[i].fs.Some?
    ensures var fs := s.mounts[s.live[f].fs].fs.value;
      && (fs.hasFstat ==> Fstat(s, f, true, env).0.calls == s.calls + [FstatCall(fs, s.live[f].handle)])
      && (fs.hasFtruncate && length >= 0 ==>
            Ftruncate(s, f, length, env).0.calls == s.calls + [FtruncateCall(fs, s.live[f].handle, length)])
  {
    LookupLive(s.handles, s.live, f);
    assert Placed(s.handles, f, s.live[f]);
  }

  // ---- stat and truncate open and close a descriptor of their own ----

  /** Differs at most in errno and in calls that leave the tables alone. */
  predicate OnlyAsked(s: State, s': State) {
    s' == s.(errno := s'.errno, calls := s'.calls)
  }

  lemma FstatOnlyAsks(s: State, fileno: int, st: bool, env: Env)
    requires Formed(s)
    ensures OnlyAsked(s, Fstat(s, fileno, st, env).0)
  {
  }

  lemma FtruncateOnlyAsks(s: State, fileno: int, length: int, env: Env)
    requires Formed(s)
    ensures OnlyAsked(s, Ftruncate(s, fileno, length, env).0)
  {
  }

  /** Closing the fileno of a fresh allocation takes the binding out again, if its filesystem can close. */
  lemma CloseUndoesAllocate(s: State, s1: State, f: int, i: nat, h: Ptr, env: Env, s2: State)
    requires Bound(s, s1, f, i, h) && OnlyAsked(s1, s2) && h != 0
    requires i < |s.mounts| && s.mounts[i].fs.Some?
    ensures var s3 := Close(s2, f, env).0;
      if s.mounts[i].fs.value.hasClose then
        s3 == s.(handles := AfterGrowth(s.handles), errno := env.close.errno,
                 calls := s2.calls + [CloseCall(s.mounts[i].fs.value, h)])
      else
        s3.live == s1.live
  {
    hide Fileno.FsIndex, Lookup, Release, SlotOf;
    CloseLive(s1.handles, s1.live, f);
    assert s1.live - {f} == s.live;
  }

  ghost predicate SameUpToGrowth(s: State, s': State) {
    && s'.mounts == s.mounts && s'.live == s.live
    && (s'.handles == s.handles || s'.handles == Grow(s.handles))
  }

  lemma AllocateCases(s: State, h: Ptr, fs: nat, mem: bool)
    requires Tracked(s) && fs <= 14 && h != 0
    ensures var (s1, f) := AllocateFileno(s, h, fs, mem);
      if CanAllocate(s.handles, mem) then Bound(s, s1, f, fs, h)
      else f == -1 && SameUpToGrowth(s, s1) && s1.dropped == s.dropped + multiset{h}
  {
    hide Start, Probe, Bound;
    AllocOutcomes(s.handles, h, fs, mem);
    if CanAllocate(s.handles, mem) {
      AllocatedFileno(s, h, fs, mem);
    }
  }

  lemma OpenCases(s: State, file: CharPtr, flags: int, env: Env)
    requires Inv(s)
    ensures var (s1, fd) := Open(s, file, flags, env);
      if OpensHandle(s, file, env) && CanAllocate(s.handles, env.mem) then
        var i := Resolve(s.mounts, file);
        Bound(Dispatched(s, i, file.value, flags, env), s1, fd, i, env.handle)
      else
        fd == -1 && SameUpToGrowth(s, s1)
        && s1.dropped == if OpensHandle(s, file, env) then s.dropped + multiset{env.handle} else s.dropped
  {
    hide AllocateFileno, HandleTable.Valid, HandleMap.Refines, Bound;
    if OpensHandle(s, file, env) {
      var i := Resolve(s.mounts, file);
      AllocateCases(Dispatched(s, i, file.value, flags, env), env.handle, i, env.mem);
    }
  }

  /** A file opened, used and closed: the handle map is as it was, unless the filesystem cannot close. */
  lemma OpenUseClose(s: State, file: CharPtr, flags: int, env: Env, s2: State)
    requires Inv(s) && OpensHandle(s, file, env) && CanAllocate(s.handles, env.mem)
    requires OnlyAsked(Open(s, file, flags, env).0, s2)
    ensures var fs := s.mounts[Resolve(s.mounts, file)].fs.value;
      var s3 := Close(s2, Open(s, file, flags, env).1, env).0;
      if fs.hasClose then
        SameUpToGrowth(s, s3) && s3.calls == s2.calls + [CloseCall(fs, env.handle)]
      else s3.live != s.live
  {
    hide Open, Close, HandleTable.Valid, HandleMap.Refines, Release, Lookup, FsIndex;
    OpenCases(s, file, flags, env);
    var i := Resolve(s.mounts, file);
    var (s1, f) := Open(s, file, flags, env);
    CloseUndoesAllocate(Dispatched(s, i, file.value, flags, env), s1, f, i, env.handle, env, s2);
  }

  /** stat has to fall back on open, fstat and close. */
  predicate FallsBack(s: State, file: CharPtr, st: bool) {
    var i := Resolve(s.mounts, file);
    st && (i >= 0 ==> s.mounts[i].fs.Some? && !s.mounts[i].fs.value.hasStat)
  }

  /** The descriptor opened for the duration of the call is never closed. */
  predicate Leaks(s: State, file: CharPtr, env: Env) {
    OpensHandle(s, file, env) && CanAllocate(s.handles, env.mem)
    && !s.mounts[Resolve(s.mounts, file)].fs.value.hasClose
  }

  /**
   stat leaves the handle map as it found it, growth of the table aside, except exactly
   when it falls back on a filesystem that opens but cannot close.
   */
  lemma StatKeepsHandles(s: State, file: CharPtr, st: bool, env: Env)
    requires Inv(s)
    ensures var s' := Stat(s, file, st, env).0;
      && (s'.live == s.live <==> !(FallsBack(s, file, st) && Leaks(s, file, env)))
      && (s'.live == s.live ==> SameUpToGrowth(s, s'))
  {
    hide Open, Close, Fstat, HandleTable.Valid, HandleMap.Refines;
    if FallsBack(s, file, st) {
      OpenCases(s, file, O_RDONLY, env);
      var (s1, fd) := Open(s, file, O_RDONLY, env);
      if fd >= 0 {
        FstatOnlyAsks(s1, fd, true, env);
        OpenUseClose(s, file, O_RDONLY, env, Fstat(s1, fd, true, env).0);
      }
    }
  }

  /** What the filesystem sees of a stat that falls back: open, fstat and close, all with the one handle. */
  lemma StatFallbackCalls(s: State, file: CharPtr, env: Env)
    requires Inv(s) && FallsBack(s, file, true) && OpensHandle(s, file, env) && CanAllocate(s.handles, env.mem)
    ensures var m := s.mounts[Resolve(s.mounts, file)];
      var fs, h := m.fs.value, env.handle;
      var (s', ret) := Stat(s, file, true, env);
      fs.hasFstat && fs.hasClose ==>
        && ret == env.fstat.ret
        && s'.calls == s.calls + [OpenCall(fs, file.value[|m.prefix.value|..], O_RDONLY, h), FstatCall(fs, h), CloseCall(fs, h)]
  {
    hide Open, Close, HandleTable.Valid, HandleMap.Refines, Release, FsIndex, Alloc, Mounts.Valid;
    OpenCases(s, file, O_RDONLY, env);
    var (s1, fd) := Open(s, file, O_RDONLY, env);
    FstatOnlyAsks(s1, fd, true, env);
    OpenUseClose(s, file, O_RDONLY, env, Fstat(s1, fd, true, env).0);
  }

  /** truncate has no other way than open, ftruncate and close. */
  lemma TruncateKeepsHandles(s: State, file: CharPtr, length: int, env: Env)
    requires Inv(s)
    ensures var s' := Truncate(s, file, length, env).0;
      && (s'.live == s.live <==> !Leaks(s, file, env))
      && (s'.live == s.live ==> SameUpToGrowth(s, s'))
  {
    hide Open, Close, HandleTable.Valid, HandleMap.Refines;
    OpenCases(s, file, O_WRONLY, env);
    var (s1, fd) := Open(s, file, O_WRONLY, env);
    if fd >= 0 {
      FtruncateOnlyAsks(s1, fd, length, env);
      OpenUseClose(s, file, O_WRONLY, env, Ftruncate(s1, fd, length, env).0);
    }
  }

  /** What the filesystem sees of a truncate: open for writing, ftruncate and close, all with the one handle. */
  lemma TruncateCalls(s: State, file: CharPtr, length: int, env: Env)
    requires Inv(s) && OpensHandle(s, file, env) && CanAllocate(s.handles, env.mem) && length >= 0
    ensures var m := s.mounts[Resolve(s.mounts, file)];
      var fs, h := m.fs.value, env.handle;
      var (s', ret) := Truncate(s, file, length, env);
      fs.hasFtruncate && fs.hasClose ==>
        && ret == env.ftruncate.ret
        && s'.calls == s.calls + [OpenCall(fs, file.value[|m.prefix.value|..], O_WRONLY, h), FtruncateCall(fs, h, length), CloseCall(fs, h)]
  {
    hide Open, Close, HandleTable.Valid, HandleMap.Refines, Release, FsIndex, Alloc, Mounts.Valid;
    OpenCases(s, file, O_WRONLY, env);
    var (s1, fd) := Open(s, file, O_WRONLY, env);
    FtruncateOnlyAsks(s1, fd, length, env);
    OpenUseClose(s, file, O_WRONLY, env, Ftruncate(s1, fd, length, env).0);
  }

  // ---- Runs ----

  datatype Op =
    | OpOpen(file: CharPtr, flags: int)
    | OpClose(fileno: int)
    | OpFstat(fileno: int, st: bool)
    | OpStat(file: CharPtr, st: bool)
    | OpFtruncate(fileno: int, length: int)
    | OpTruncate(file: CharPtr, length: int)
    | OpAttach(prefix: CharPtr, fs: Option<Filesystem>)
    | OpDetach(prefix: CharPtr)

  ghost function Do(s: State, op: Op, env: Env): (r: (State, int))
    requires Formed(s)
    ensures Formed(r.0)
  {
    match op
    case OpOpen(file, flags) => Open(s, file, flags, env)
    case OpClose(fileno) => Close(s, fileno, env)
    case OpFstat(fileno, st) => Fstat(s, fileno, st, env)
    case OpStat(file, st) => Stat(s, file, st, env)
    case OpFtruncate(fileno, length) => Ftruncate(s, fileno, length, env)
    case OpTruncate(file, length) => Truncate(s, file, length, env)
    case OpAttach(prefix, fs) => AttachFilesystem(s, prefix, fs)
    case OpDetach(prefix) => DetachFilesystem(s, prefix)
  }

  lemma AskKeepsInv(s: State, call: Call, answer: Answer)
    requires Inv(s) && !call.OpenCall? && !call.CloseCall?
    ensures Inv(Ask(s, call, answer).0)
  {
    hide Obtained, Returned, HandleTable.Valid, HandleMap.Refines;
    OneMoreCall(s.calls, call);
  }

  lemma FstatKeepsInv(s: State, fileno: int, st: bool, env: Env)
    requires Inv(s)
    ensures Inv(Fstat(s, fileno, st, env).0)
  {
    hide HandleTable.Valid, HandleMap.Refines;
    var m := Mounted(s.mounts, fileno);
    if m.Some? {
      AskKeepsInv(s, FstatCall(m.value, Lookup(s.handles, fileno)), env.fstat);
    }
  }

  lemma FtruncateKeepsInv(s: State, fileno: int, length: int, env: Env)
    requires Inv(s)
    ensures Inv(Ftruncate(s, fileno, length, env).0)
  {
    hide HandleTable.Valid, HandleMap.Refines;
    var m := Mounted(s.mounts, fileno);
    if m.Some? {
      AskKeepsInv(s, FtruncateCall(m.value, Lookup(s.handles, fileno), length), env.ftruncate);
    }
  }

  lemma StatKeepsInv(s: State, file: CharPtr, st: bool, env: Env)
    requires Inv(s)
    ensures Inv(Stat(s, file, st, env).0)
  {
    hide Obtained, Returned, Open, Close, Fstat, HandleMap.Refines, HandleTable.Valid;
    var i := Resolve(s.mounts, file);
    if i >= 0 {
      AskKeepsInv(s, StatCall(s.mounts[i].fs.value, file.value[|s.mounts[i].prefix.value| - 1..]), env.stat);
    }
    OpenKeepsInv(s, file, O_RDONLY, env);
    var (s1, fd) := Open(s, file, O_RDONLY, env);
    FstatKeepsInv(s1, fd, true, env);
    CloseKeepsInv(Fstat(s1, fd, true, env).0, fd, env);
  }

  lemma TruncateKeepsInv(s: State, file: CharPtr, length: int, env: Env)
    requires Inv(s)
    ensures Inv(Truncate(s, file, length, env).0)
  {
    hide Obtained, Returned, Open, Close, Ftruncate, HandleMap.Refines, HandleTable.Valid;
    OpenKeepsInv(s, file, O_WRONLY, env);
    var (s1, fd) := Open(s, file, O_WRONLY, env);
    FtruncateKeepsInv(s1, fd, length, env);
    CloseKeepsInv(Ftruncate(s1, fd, length, env).0, fd, env);
  }

  lemma AttachKeepsInv(s: State, prefix: CharPtr, fs: Option<Filesystem>)
    requires Inv(s)
    ensures Inv(AttachFilesystem(s, prefix, fs).0)
  {
    hide Obtained, Returned, HandleTable.Valid, HandleMap.Refines;
    AttachKeepsValid(s.mounts, prefix, fs);
  }

  lemma DetachKeepsInv(s: State, prefix: CharPtr)
    requires Inv(s)
    ensures Inv(DetachFilesystem(s, prefix).0)
  {
    hide Obtained, Returned, HandleTable.Valid, HandleMap.Refines;
    DetachKeepsValid(s.mounts, prefix);
  }

  lemma DoKeepsInv(s: State, op: Op, env: Env)
    requires Inv(s)
    ensures Inv(Do(s, op, env).0)
  {
    hide AttachFilesystem, DetachFilesystem, Obtained, Returned, Open, Close, Stat, Truncate, Fstat, Ftruncate, HandleMap.Refines, HandleTable.Valid;
    match op
    case OpOpen(file, flags) => OpenKeepsInv(s, file, flags, env);
    case OpClose(fileno) => CloseKeepsInv(s, fileno, env);
    case OpFstat(fileno, st) => FstatKeepsInv(s, fileno, st, env);
    case OpStat(file, st) => StatKeepsInv(s, file, st, env);
    case OpFtruncate(fileno, length) => FtruncateKeepsInv(s, fileno, length, env);
    case OpTruncate(file, length) => TruncateKeepsInv(s, file, length, env);
    case OpAttach(prefix, fs) => AttachKeepsInv(s, prefix, fs);
    case OpDetach(prefix) => DetachKeepsInv(s, prefix);
  }

  /** No filesystem attached, no file open, nothing called yet. */
  predicate Fresh(s: State) {
    && |s.mounts| <= 15 && (forall i :: 0 <= i < |s.mounts| ==> s.mounts[i] == FREE)
    && s.handles == Empty() && s.live == map[] && s.calls == []
    && s.dropped == multiset{}
  }

  lemma FreshIsInv(s: State)
    requires Fresh(s)
    ensures Inv(s)
  {
    HandleMap.Initial();
  }

  ghost function Run(s: State, ops: seq<(Op, Env)>): (s': State)
    requires Formed(s)
    ensures Formed(s')
    decreases |ops|
  {
    if ops == [] then s
    else
      var last := ops[|ops| - 1];
      Do(Run(s, ops[..|ops| - 1]), last.0, last.1).0
  }

  /**
   After any sequence of calls, with any behaviour of the filesystems and of calloc: the
   handle table refines the map, its counter counts the live filenos, its load stays
   below the bound, prefixes stay distinct, and every handle a filesystem ever produced
   is in exactly one place: in the table, given to a close, or dropped by a failed open.
   */
  lemma {:induction false} EveryRun(s: State, ops: seq<(Op, Env)>)
    requires Fresh(s)
    ensures Formed(s) && Inv(Run(s, ops))
    decreases |ops|
  {
    hide Do, HandleTable.Valid, HandleMap.Refines;
    FreshIsInv(s);
    if ops != [] {
      var last := ops[|ops| - 1];
      EveryRun(s, ops[..|ops| - 1]);
      DoKeepsInv(Run(s, ops[..|ops| - 1]), last.0, last.1);
    }
  }
}
