/**
 The mount table as a value: which prefixes are attached, and which mount a path name resolves to.
 */
module Mounts {
  import opened CStrings
  import opened Options

  /** Which optional callbacks a filesystem supplies; `id` tells filesystem objects apart. */
  datatype Filesystem = Filesystem(id: nat, hasOpen: bool, hasClose: bool, hasFstat: bool, hasStat: bool, hasFtruncate: bool)

  datatype Mount = Mount(prefix: CharPtr, fs: Option<Filesystem>)

  const FREE := Mount(None, None)

  type Table = seq<Mount>

  predicate EndsInColonSlash(p: string) {
    |p| >= 2 && p[|p| - 2] == ':' && p[|p| - 1] == '/'
  }

  predicate GoodPrefix(p: string) {
    |p| >= 3 && EndsInColonSlash(p)
  }

  ghost predicate Valid(ms: Table) {
    && (forall i :: 0 <= i < |ms| ==> (ms[i].prefix.Some? <==> ms[i].fs.Some?))
    && (forall i :: 0 <= i < |ms| && ms[i].prefix.Some? ==> GoodPrefix(ms[i].prefix.value))
    && (forall i, j :: 0 <= i < j < |ms| && ms[i].prefix.Some? ==> ms[i].prefix != ms[j].prefix)
  }

  /** The first entry whose prefix is p, or |ms|. With p == None: the first free entry. */
  function Find(ms: Table, p: CharPtr): (i: nat)
    ensures i <= |ms|
    ensures i < |ms| ==> ms[i].prefix == p
    ensures forall j :: 0 <= j < i ==> ms[j].prefix != p
  {
    if ms == [] then 0
    else if ms[0].prefix == p then 0
    else
      var i := Find(ms[1..], p);
      assert forall j :: 0 < j <= i ==> ms[j].prefix == ms[1..][j - 1].prefix;
      1 + i
  }

  lemma FindIs(ms: Table, p: CharPtr, i: nat)
    requires i <= |ms| && (i < |ms| ==> ms[i].prefix == p)
    requires forall j :: 0 <= j < i ==> ms[j].prefix != p
    ensures Find(ms, p) == i
  {
  }

  // ---- Attach and detach ----

  datatype Status = Done | Invalid | AlreadyAttached | TableFull | NotAttached

  function Attach(ms: Table, prefix: CharPtr, fs: Option<Filesystem>): (Table, Status) {
    if prefix.None? || fs.None? || !GoodPrefix(prefix.value) then (ms, Invalid)
    else if Find(ms, prefix) < |ms| then (ms, AlreadyAttached)
    else if Find(ms, None) == |ms| then (ms, TableFull)
    else (ms[Find(ms, None) := Mount(prefix, fs)], Done)
  }

  function Detach(ms: Table, prefix: CharPtr): (Table, Status) {
    if prefix.None? then (ms, Invalid)
    else if Find(ms, prefix) < |ms| then (ms[Find(ms, prefix) := FREE], Done)
    else (ms, NotAttached)
  }

  /** Entry k was the first free one; now it holds m, and the others are as they were. */
  ghost predicate TakesFirstFree(ms: Table, ms': Table, k: int, m: Mount) {
    && |ms'| == |ms| && 0 <= k < |ms| && ms[k].prefix.None? && ms'[k] == m
    && (forall i :: 0 <= i < k ==> ms[i].prefix.Some?)
    && (forall i :: 0 <= i < |ms| && i != k ==> ms'[i] == ms[i])
  }

  /** Which prefix is refused and why; an accepted one takes the lowest free entry and changes no other. */
  lemma AttachOutcomes(ms: Table, prefix: CharPtr, fs: Option<Filesystem>)
    requires Valid(ms)
    ensures var (ms', status) := Attach(ms, prefix, fs);
      && |ms'| == |ms|
      && (status == Invalid <==> prefix.None? || fs.None? || !GoodPrefix(prefix.value))
      && (status == AlreadyAttached <==> status != Invalid && exists i :: 0 <= i < |ms| && ms[i].prefix == prefix)
      && (status != Done ==> ms' == ms)
      && (status == Done ==> exists k :: TakesFirstFree(ms, ms', k, Mount(prefix, fs)))
  {
    var k := Find(ms, None);
    if Attach(ms, prefix, fs).1 == Done {
      assert TakesFirstFree(ms, Attach(ms, prefix, fs).0, k, Mount(prefix, fs));
    }
    if i :| 0 <= i < |ms| && ms[i].prefix == prefix {
      assert Find(ms, prefix) <= i;
    }
  }

  /** Detaching frees the one entry with that prefix, or reports that there is none. */
  lemma DetachOutcomes(ms: Table, prefix: CharPtr)
    requires Valid(ms)
    ensures var (ms', status) := Detach(ms, prefix);
      && |ms'| == |ms|
      && (status == Invalid <==> prefix.None?)
      && (status == Done <==> prefix.Some? && exists i :: 0 <= i < |ms| && ms[i].prefix == prefix)
      && forall i :: 0 <= i < |ms| ==> ms'[i] == if prefix.Some? && ms[i].prefix == prefix then FREE else ms[i]
  {
  }

  lemma AttachKeepsValid(ms: Table, prefix: CharPtr, fs: Option<Filesystem>)
    requires Valid(ms)
    ensures Valid(Attach(ms, prefix, fs).0)
    ensures Attach(ms, prefix, fs).1 == TableFull <==>
      prefix.Some? && fs.Some? && GoodPrefix(prefix.value) &&
      forall i :: 0 <= i < |ms| ==> ms[i].prefix.Some? && ms[i].prefix != prefix
  {
  }

  lemma DetachKeepsValid(ms: Table, prefix: CharPtr)
    requires Valid(ms)
    ensures Valid(Detach(ms, prefix).0)
    ensures forall i :: 0 <= i < |ms| && prefix.Some? ==> Detach(ms, prefix).0[i].prefix != prefix
  {
  }

  /** Detaching what was just attached restores the table entry for entry. */
  lemma DetachUndoesAttach(ms: Table, prefix: CharPtr, fs: Option<Filesystem>)
    requires Valid(ms) && Attach(ms, prefix, fs).1 == Done
    ensures Detach(Attach(ms, prefix, fs).0, prefix) == (ms, Done)
  {
    var k := Find(ms, None);
    var ms' := Attach(ms, prefix, fs).0;
    FindIs(ms', prefix, k);
    assert ms[k] == FREE;
    assert ms'[k := FREE] == ms;
  }

  // ---- Name resolution ----

  predicate Matches(m: Mount, name: string) {
    m.prefix.Some? && m.prefix.value <= name
  }

  /** The lowest-numbered mount whose prefix begins the name, or -1. */
  function Resolve(ms: Table, name: CharPtr): (i: int)
    ensures -1 <= i < |ms|
    ensures name.None? ==> i == -1
    ensures i >= 0 ==> Matches(ms[i], name.value) && forall j :: 0 <= j < i ==> !Matches(ms[j], name.value)
    ensures i == -1 && name.Some? ==> forall j :: 0 <= j < |ms| ==> !Matches(ms[j], name.value)
  {
    if name.None? || ms == [] then -1
    else if Matches(ms[0], name.value) then 0
    else
      var i := Resolve(ms[1..], name);
      assert forall j :: 0 < j < |ms| ==> ms[j] == ms[1..][j - 1];
      if i == -1 then -1 else i + 1
  }

  /** Some mounted prefix begins another mounted prefix. */
  ghost predicate Overlapping(ms: Table) {
    exists i, j :: 0 <= i < |ms| && 0 <= j < |ms| && i != j
      && ms[i].prefix.Some? && ms[j].prefix.Some? && ms[i].prefix.value <= ms[j].prefix.value
  }

  lemma TwoMatchesOverlap(ms: Table, i: nat, j: nat, name: string)
    requires i < |ms| && j < |ms| && i != j && Matches(ms[i], name) && Matches(ms[j], name)
    ensures Overlapping(ms)
  {
  }

  ghost predicate Ambiguous(ms: Table, name: CString) {
    exists i, j :: 0 <= i < |ms| && 0 <= j < |ms| && i != j && Matches(ms[i], name) && Matches(ms[j], name)
  }

  /** At most one mount matches any name, exactly when no mounted prefix begins another. */
  lemma AtMostOneMatch(ms: Table)
    ensures (forall name: CString :: !Ambiguous(ms, name)) <==> !Overlapping(ms)
  {
    if Overlapping(ms) {
      var i, j :| 0 <= i < |ms| && 0 <= j < |ms| && i != j
        && ms[i].prefix.Some? && ms[j].prefix.Some? && ms[i].prefix.value <= ms[j].prefix.value;
      assert Matches(ms[i], ms[j].prefix.value) && Matches(ms[j], ms[j].prefix.value);
      assert Ambiguous(ms, ms[j].prefix.value);
    }
    forall name: CString | Ambiguous(ms, name) ensures Overlapping(ms) {
      var i, j :| 0 <= i < |ms| && 0 <= j < |ms| && i != j && Matches(ms[i], name) && Matches(ms[j], name);
      TwoMatchesOverlap(ms, i, j, name);
    }
  }

  /** No ":/" before the one at the end. */
  predicate Plain(p: string) {
    forall i :: 0 <= i < |p| - 2 ==> !(p[i] == ':' && p[i + 1] == '/')
  }

  lemma PrefixIsNotPlain(p: string, q: string)
    requires EndsInColonSlash(p) && p <= q && p != q
    ensures !Plain(q)
  {
  }

  /** Prefixes of the documented form "name:/" never overlap. */
  lemma PlainPrefixesDoNotOverlap(ms: Table)
    requires Valid(ms)
    requires forall i :: 0 <= i < |ms| && ms[i].prefix.Some? ==> Plain(ms[i].prefix.value)
    ensures !Overlapping(ms)
  {
    forall i, j | 0 <= i < |ms| && 0 <= j < |ms| && i != j && ms[i].prefix.Some? && ms[j].prefix.Some?
      ensures !(ms[i].prefix.value <= ms[j].prefix.value)
    {
      assert ms[i].prefix != ms[j].prefix;
      var p, q := ms[i].prefix.value, ms[j].prefix.value;
      if p <= q {
        PrefixIsNotPlain(p, q);
      }
    }
  }

  /** The same mounts, in any order, with any number of free entries. */
  ghost predicate SameMounts(ms: Table, ms': Table) {
    forall m: Mount :: m.prefix.Some? ==> (m in ms <==> m in ms')
  }

  function Resolved(ms: Table, name: CharPtr): Option<Mount> {
    var i := Resolve(ms, name);
    if i < 0 then None else Some(ms[i])
  }

  ghost predicate OrderIndependent(ms: Table) {
    forall ms', name :: Valid(ms') && SameMounts(ms, ms') ==> Resolved(ms', name) == Resolved(ms, name)
  }

  /** Resolution ignores the order of mounting exactly when no mounted prefix begins another. */
  lemma OrderIndependence(ms: Table)
    requires Valid(ms)
    ensures OrderIndependent(ms) <==> !Overlapping(ms)
  {
    if !Overlapping(ms) {
      forall ms', name | Valid(ms') && SameMounts(ms, ms') ensures Resolved(ms', name) == Resolved(ms, name) {
        SameResolution(ms, ms', name);
      }
    } else {
      AtMostOneMatch(ms);
      var name: CString :| Ambiguous(ms, name);
      var i, j :| 0 <= i < |ms| && 0 <= j < |ms| && i != j && Matches(ms[i], name) && Matches(ms[j], name);
      var k := Resolve(ms, Some(name));
      var ms' := SwapChangesResolution(ms, k, if i == k then j else i, name);
      assert Resolved(ms', Some(name)) != Resolved(ms, Some(name));
    }
  }

  lemma SameResolution(ms: Table, ms': Table, name: CharPtr)
    requires Valid(ms) && Valid(ms') && SameMounts(ms, ms') && !Overlapping(ms)
    ensures Resolved(ms', name) == Resolved(ms, name)
  {
  }

  lemma SwapChangesResolution(ms: Table, k: nat, m: nat, name: CString) returns (ms': Table)
    requires Valid(ms) && k < |ms| && m < |ms| && k != m
    requires k == Resolve(ms, Some(name)) && Matches(ms[m], name)
    ensures Valid(ms') && SameMounts(ms, ms')
    ensures Resolved(ms', Some(name)) == Some(ms[m]) && ms[m] != ms[k]
  {
    ms' := ms[k := ms[m]][m := ms[k]];
    assert ms'[k] == ms[m] && ms'[m] == ms[k];
    assert forall x :: 0 <= x < |ms| && x != k && x != m ==> ms'[x] == ms[x];
    assert k < m;
    assert Resolve(ms', Some(name)) == k;
    forall e: Mount | e in ms ensures e in ms' {
      var x :| 0 <= x < |ms| && ms[x] == e;
      assert ms'[if x == k then m else if x == m then k else x] == e;
    }
  }
}
