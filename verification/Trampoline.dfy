/**
 The entry point that borrows the game's thread: it saves every register on a stack of its
 own, calls the driver, and puts everything back.
 */
module Trampoline {
  import opened Wire

  datatype Reg =
    | At | V0 | V1 | A0 | A1 | A2 | A3 | T0 | T1 | T2 | T3 | T4 | T5 | T6 | T7
    | S0 | S1 | S2 | S3 | S4 | S5 | S6 | S7 | T8 | T9 | Gp | Sp | Fp | Ra

  datatype Instr =
    | Sw(r: Reg, offset: nat)         // store relative to $sp
    | Lw(r: Reg, offset: nat)         // load relative to $sp
    | SwGlobal(r: Reg, addr: nat)     // store to a variable; the assembler uses $at
    | LwGlobal(r: Reg, addr: nat)     // load from a variable, through the register itself
    | Load(r: Reg, value: word)       // lui or la
    | AddSp(n: int)

  datatype Cpu = Cpu(regs: map<Reg, word>, mem: map<nat, word>) {
    function Get(r: Reg): word {
      if r in regs then regs[r] else 0
    }

    function Mem(addr: nat): word {
      if addr in mem then mem[addr] else 0
    }
  }

  function Exec1(i: Instr, c: Cpu): Cpu {
    match i
    case Sw(r, offset) => c.(mem := c.mem[c.Get(Sp) + offset := c.Get(r)])
    case Lw(r, offset) => c.(regs := c.regs[r := c.Mem(c.Get(Sp) + offset)])
    case SwGlobal(r, addr) => c.(mem := c.mem[addr := c.Get(r)], regs := c.regs[At := addr / 0x1_0000 * 0x1_0000 % 0x1_0000_0000])
    case LwGlobal(r, addr) => c.(regs := c.regs[r := c.Mem(addr)])
    case Load(r, value) => c.(regs := c.regs[r := value])
    case AddSp(n) => c.(regs := c.regs[Sp := (c.Get(Sp) + n) % 0x1_0000_0000])
  }

  function Exec(p: seq<Instr>, c: Cpu): Cpu {
    if p == [] then c else Exec(p[1..], Exec1(p[0], c))
  }

  lemma {:induction false} ExecAppend(p: seq<Instr>, q: seq<Instr>, c: Cpu)
    ensures Exec(p + q, c) == Exec(q, Exec(p, c))
    decreases |p|
  {
    if p == [] {
      assert p + q == q;
    } else {
      assert (p + q)[0] == p[0] && (p + q)[1..] == p[1..] + q;
      ExecAppend(p[1..], q, Exec1(p[0], c));
    }
  }

  // ---- Saving and restoring any list of registers ----

  type Frame = seq<(Reg, nat)>

  function Saves(f: Frame): seq<Instr> {
    if f == [] then [] else [Sw(f[0].0, f[0].1)] + Saves(f[1..])
  }

  function Restores(f: Frame): seq<Instr> {
    if f == [] then [] else [Lw(f[0].0, f[0].1)] + Restores(f[1..])
  }

  /** Different registers, none of them $sp, in different words. */
  predicate Separate(f: Frame) {
    && (forall i :: 0 <= i < |f| ==> f[i].0 != Sp)
    && (forall i, j :: 0 <= i < j < |f| ==> f[i].0 != f[j].0 && f[i].1 != f[j].1)
  }

  lemma SavesUnfold(f: Frame, c: Cpu)
    requires f != []
    ensures Exec(Saves(f), c) == Exec(Saves(f[1..]), Exec1(Sw(f[0].0, f[0].1), c))
    ensures Exec(Restores(f), c) == Exec(Restores(f[1..]), Exec1(Lw(f[0].0, f[0].1), c))
  {
    assert Saves(f)[1..] == Saves(f[1..]) && Restores(f)[1..] == Restores(f[1..]);
  }

  /** Saving leaves the registers alone, and every word that is not in the frame. */
  lemma {:induction false} SavesElsewhere(f: Frame, c: Cpu, a: nat)
    requires forall i :: 0 <= i < |f| ==> a != c.Get(Sp) + f[i].1
    ensures Exec(Saves(f), c).Mem(a) == c.Mem(a) && Exec(Saves(f), c).regs == c.regs
    decreases |f|
  {
    if f != [] {
      SavesUnfold(f, c);
      assert a != c.Get(Sp) + f[0].1;
      SavesElsewhere(f[1..], Exec1(Sw(f[0].0, f[0].1), c), a);
    }
  }

  /** Each word of the frame ends up with its register's value. */
  lemma {:induction false} SavesAt(f: Frame, c: Cpu, i: nat)
    requires Separate(f) && i < |f|
    ensures Exec(Saves(f), c).Mem(c.Get(Sp) + f[i].1) == c.Get(f[i].0)
    decreases |f|
  {
    SavesUnfold(f, c);
    var c1 := Exec1(Sw(f[0].0, f[0].1), c);
    if i == 0 {
      SavesElsewhere(f[1..], c1, c.Get(Sp) + f[0].1);
    } else {
      assert f[1..][i - 1] == f[i];
      SavesAt(f[1..], c1, i - 1);
    }
  }

  /** Restoring leaves memory alone, and every register that is not in the frame. */
  lemma {:induction false} RestoresOthers(f: Frame, c: Cpu, r: Reg)
    requires forall i :: 0 <= i < |f| ==> r != f[i].0
    ensures Exec(Restores(f), c).Get(r) == c.Get(r) && Exec(Restores(f), c).mem == c.mem
    decreases |f|
  {
    if f != [] {
      SavesUnfold(f, c);
      assert r != f[0].0;
      RestoresOthers(f[1..], Exec1(Lw(f[0].0, f[0].1), c), r);
    }
  }

  /** Each register of the frame ends up with its word's value. */
  lemma {:induction false} RestoresAt(f: Frame, c: Cpu, i: nat)
    requires Separate(f) && i < |f|
    ensures Exec(Restores(f), c).Get(f[i].0) == c.Mem(c.Get(Sp) + f[i].1)
    decreases |f|
  {
    SavesUnfold(f, c);
    var c1 := Exec1(Lw(f[0].0, f[0].1), c);
    if i == 0 {
      RestoresOthers(f[1..], c1, f[0].0);
    } else {
      assert f[1..][i - 1] == f[i];
      RestoresAt(f[1..], c1, i - 1);
    }
  }

  /**
   Whatever runs in between, if it leaves $sp and the words of the frame alone, restoring
   gives every saved register the value it had when it was saved.
   */
  lemma {:induction false} RestoreUndoesSave(f: Frame, before: Cpu, after: Cpu)
    requires Separate(f)
    requires after.Get(Sp) == before.Get(Sp)
    requires forall i :: 0 <= i < |f| ==>
      after.Mem(before.Get(Sp) + f[i].1) == Exec(Saves(f), before).Mem(before.Get(Sp) + f[i].1)
    ensures forall i :: 0 <= i < |f| ==> Exec(Restores(f), after).Get(f[i].0) == before.Get(f[i].0)
  {
    forall i | 0 <= i < |f| ensures Exec(Restores(f), after).Get(f[i].0) == before.Get(f[i].0) {
      SavesAt(f, before, i);
      RestoresAt(f, after, i);
    }
  }

  // ---- The entry point ----

  const STACK: word := 0x8060_0000
  const FRAME_SIZE: nat := 128

  /** The order and offsets of the entry point. */
  function TheFrame(): Frame {
    [(At, 0), (V0, 4), (V1, 8), (A0, 12), (A1, 16), (A2, 20), (A3, 24),
     (T0, 28), (T1, 32), (T2, 36), (T3, 40), (T4, 44), (T5, 48), (T6, 52), (T7, 56),
     (S0, 60), (S1, 64), (S2, 68), (S3, 72), (S4, 76), (S5, 80), (S6, 84), (S7, 88),
     (T8, 92), (T9, 96), (Gp, 100), (Fp, 104), (Ra, 108)]
  }

  function Enter(spBackup: nat, gpBackup: nat, gp: word): seq<Instr> {
    [SwGlobal(Sp, spBackup), SwGlobal(Gp, gpBackup), Load(Sp, STACK), Load(Gp, gp), AddSp(-128)]
  }

  function Leave(spBackup: nat, gpBackup: nat): seq<Instr> {
    [AddSp(128), LwGlobal(Sp, spBackup), LwGlobal(Gp, gpBackup)]
  }

  function BeforeCall(spBackup: nat, gpBackup: nat, gp: word): seq<Instr> {
    Enter(spBackup, gpBackup, gp) + Saves(TheFrame())
  }

  function AfterCall(spBackup: nat, gpBackup: nat): seq<Instr> {
    Restores(TheFrame()) + Leave(spBackup, gpBackup)
  }

  /** A variable of the payload, away from the frame. */
  predicate Outside(addr: nat) {
    addr % 4 == 0 && !(STACK - FRAME_SIZE <= addr < STACK)
  }

  /** What the driver must respect: $sp, the frame, and the two backup words. */
  predicate Respects(called: Cpu, returned: Cpu, spBackup: nat, gpBackup: nat) {
    && returned.Get(Sp) == called.Get(Sp)
    && (forall a: nat :: STACK - FRAME_SIZE <= a < STACK ==> returned.Mem(a) == called.Mem(a))
    && returned.Mem(spBackup) == called.Mem(spBackup) && returned.Mem(gpBackup) == called.Mem(gpBackup)
  }

  /** Where a register is in the frame. */
  function Index(r: Reg): nat {
    match r
    case At => 0 case V0 => 1 case V1 => 2 case A0 => 3 case A1 => 4 case A2 => 5 case A3 => 6
    case T0 => 7 case T1 => 8 case T2 => 9 case T3 => 10 case T4 => 11 case T5 => 12 case T6 => 13 case T7 => 14
    case S0 => 15 case S1 => 16 case S2 => 17 case S3 => 18 case S4 => 19 case S5 => 20 case S6 => 21 case S7 => 22
    case T8 => 23 case T9 => 24 case Gp => 25 case Fp => 26 case Ra => 27 case Sp => 28
  }

  lemma FrameEntries()
    ensures |TheFrame()| == 28
    ensures forall i :: 0 <= i < 28 ==> TheFrame()[i].1 == 4 * i && Index(TheFrame()[i].0) == i
  {
  }

  lemma FrameLayout()
    ensures |TheFrame()| == 28 && Separate(TheFrame())
    ensures forall i :: 0 <= i < 28 ==> TheFrame()[i].1 == 4 * i && Index(TheFrame()[i].0) == i
    ensures forall r: Reg :: r != Sp ==> Index(r) < 28 && TheFrame()[Index(r)].0 == r
  {
    FrameEntries();
    forall r: Reg | r != Sp ensures Index(r) < 28 && TheFrame()[Index(r)].0 == r {
      InFrame(r);
    }
    hide TheFrame;
    assert Index(Sp) == 28;
    hide Index;
  }

  lemma InFrame(r: Reg)
    requires r != Sp
    ensures Index(r) < |TheFrame()| && TheFrame()[Index(r)].0 == r
  {
  }

  /** At the first save: our own stack and $gp, the game's kept in the two backup words, $at lost, the rest untouched. */
  lemma EnterState(game: Cpu, spBackup: nat, gpBackup: nat, gp: word)
    requires spBackup != gpBackup
    ensures var c := Exec(Enter(spBackup, gpBackup, gp), game);
      && c.Get(Sp) == STACK - FRAME_SIZE && c.Get(Gp) == gp
      && c.Mem(spBackup) == game.Get(Sp) && c.Mem(gpBackup) == game.Get(Gp)
      && forall r: Reg :: r != At && r != Sp && r != Gp ==> c.Get(r) == game.Get(r)
  {
    var c1 := Exec1(SwGlobal(Sp, spBackup), game);
    var c2 := Exec1(SwGlobal(Gp, gpBackup), c1);
    var c3 := Exec1(Load(Sp, STACK), c2);
    var c4 := Exec1(Load(Gp, gp), c3);
    ExecFirst(SwGlobal(Sp, spBackup), [SwGlobal(Gp, gpBackup), Load(Sp, STACK), Load(Gp, gp), AddSp(-128)], game);
    ExecFirst(SwGlobal(Gp, gpBackup), [Load(Sp, STACK), Load(Gp, gp), AddSp(-128)], c1);
    ExecFirst(Load(Sp, STACK), [Load(Gp, gp), AddSp(-128)], c2);
    ExecFirst(Load(Gp, gp), [AddSp(-128)], c3);
    ExecFirst(AddSp(-128), [], c4);
  }

  lemma ExecFirst(i: Instr, rest: seq<Instr>, c: Cpu)
    ensures Exec([i] + rest, c) == Exec(rest, Exec1(i, c))
  {
    assert ([i] + rest)[1..] == rest;
  }

  /** The driver is called on the payload's own stack, below the frame, with the payload's own $gp. */
  lemma CallState(game: Cpu, spBackup: nat, gpBackup: nat, gp: word)
    requires spBackup != gpBackup
    ensures var called := Exec(BeforeCall(spBackup, gpBackup, gp), game);
      called.Get(Sp) == 0x8060_0000 - 128 && called.Get(Gp) == gp
  {
    EnterState(game, spBackup, gpBackup, gp);
    ExecAppend(Enter(spBackup, gpBackup, gp), Saves(TheFrame()), game);
    hide TheFrame, Enter;
    SavesKeepRegisters(TheFrame(), Exec(Enter(spBackup, gpBackup, gp), game));
  }

  lemma {:induction false} SavesKeepRegisters(f: Frame, c: Cpu)
    ensures Exec(Saves(f), c).regs == c.regs
    decreases |f|
  {
    if f != [] {
      SavesUnfold(f, c);
      SavesKeepRegisters(f[1..], Exec1(Sw(f[0].0, f[0].1), c));
    }
  }

  lemma LeaveState(c: Cpu, spBackup: nat, gpBackup: nat)
    ensures var c' := Exec(Leave(spBackup, gpBackup), c);
      && c'.Get(Sp) == c.Mem(spBackup) && c'.Get(Gp) == c.Mem(gpBackup)
      && forall r: Reg :: r != Sp && r != Gp ==> c'.Get(r) == c.Get(r)
  {
    var c1 := Exec1(AddSp(128), c);
    var c2 := Exec1(LwGlobal(Sp, spBackup), c1);
    ExecFirst(AddSp(128), [LwGlobal(Sp, spBackup), LwGlobal(Gp, gpBackup)], c);
    ExecFirst(LwGlobal(Sp, spBackup), [LwGlobal(Gp, gpBackup)], c1);
    ExecFirst(LwGlobal(Gp, gpBackup), [], c2);
  }

  /** After the return: every register of the frame as it was saved, $sp and $gp from the backup words. */
  lemma LeaveRestores(saving: Cpu, returned: Cpu, spBackup: nat, gpBackup: nat, r: Reg)
    requires returned.Get(Sp) == saving.Get(Sp)
    requires forall i :: 0 <= i < |TheFrame()| ==>
      returned.Mem(saving.Get(Sp) + TheFrame()[i].1) == Exec(Saves(TheFrame()), saving).Mem(saving.Get(Sp) + TheFrame()[i].1)
    ensures Exec(AfterCall(spBackup, gpBackup), returned).Get(r) ==
      if r == Sp then returned.Mem(spBackup) else if r == Gp then returned.Mem(gpBackup) else saving.Get(r)
  {
    FrameLayout();
    hide TheFrame, Exec, Index, Restores, Saves, Leave;
    var f := TheFrame();
    ExecAppend(Restores(f), Leave(spBackup, gpBackup), returned);
    RestoreUndoesSave(f, saving, returned);
    RestoresOthers(f, returned, Sp);
    LeaveState(Exec(Restores(f), returned), spBackup, gpBackup);
    if r != Sp && r != Gp {
      assert f[Index(r)].0 == r;
    }
  }

  /** The game gets back every register but $at, $sp and $gp included, whatever the driver did in between. */
  lemma EntryRestoresGame(game: Cpu, gp: word, returned: Cpu, spBackup: nat, gpBackup: nat)
    requires Outside(spBackup) && Outside(gpBackup) && spBackup != gpBackup
    requires Respects(Exec(BeforeCall(spBackup, gpBackup, gp), game), returned, spBackup, gpBackup)
    ensures forall r: Reg :: r != At ==> Exec(AfterCall(spBackup, gpBackup), returned).Get(r) == game.Get(r)
  {
    var f := TheFrame();
    var saving := Exec(Enter(spBackup, gpBackup, gp), game);
    EnterState(game, spBackup, gpBackup, gp);
    ExecAppend(Enter(spBackup, gpBackup, gp), Saves(f), game);
    assert Exec(BeforeCall(spBackup, gpBackup, gp), game) == Exec(Saves(f), saving);
    hide TheFrame, Exec, Saves, AfterCall, BeforeCall, Enter;
    var called := Exec(Saves(f), saving);
    SavesOutside(saving, spBackup);
    SavesOutside(saving, gpBackup);
    FrameKept(called, returned, spBackup, gpBackup);
    hide Respects, Outside;
    forall r: Reg | r != At ensures Exec(AfterCall(spBackup, gpBackup), returned).Get(r) == game.Get(r) {
      LeaveRestores(saving, returned, spBackup, gpBackup, r);
    }
  }

  /** Filling the frame does not touch the payload's variables. */
  lemma SavesOutside(saving: Cpu, addr: nat)
    requires saving.Get(Sp) == STACK - FRAME_SIZE && Outside(addr)
    ensures var called := Exec(Saves(TheFrame()), saving);
      called.Mem(addr) == saving.Mem(addr) && called.regs == saving.regs
  {
    FrameLayout();
    hide TheFrame;
    SavesElsewhere(TheFrame(), saving, addr);
  }

  /** The words of the frame and the backup words are as the call found them. */
  lemma FrameKept(called: Cpu, returned: Cpu, spBackup: nat, gpBackup: nat)
    requires Respects(called, returned, spBackup, gpBackup)
    ensures returned.Get(Sp) == called.Get(Sp)
    ensures returned.Mem(spBackup) == called.Mem(spBackup) && returned.Mem(gpBackup) == called.Mem(gpBackup)
    ensures forall i :: 0 <= i < |TheFrame()| ==>
      returned.Mem(STACK - FRAME_SIZE + TheFrame()[i].1) == called.Mem(STACK - FRAME_SIZE + TheFrame()[i].1)
  {
    FrameLayout();
    hide TheFrame;
  }

  // ---- Running a program step by step ----

  class Machine {
    var regs: map<Reg, word>
    var mem: map<nat, word>

    ghost function State(): Cpu
      reads this
    {
      Cpu(regs, mem)
    }

    constructor (c: Cpu)
      ensures State() == c
    {
      regs, mem := c.regs, c.mem;
    }

    method Step(i: Instr)
      modifies this
      ensures State() == Exec1(i, old(State()))
    {
      var sp := if Sp in regs then regs[Sp] else 0;
      match i
      case Sw(r, offset) => mem := mem[sp + offset := if r in regs then regs[r] else 0];
      case Lw(r, offset) => regs := regs[r := if sp + offset in mem then mem[sp + offset] else 0];
      case SwGlobal(r, addr) =>
        mem := mem[addr := if r in regs then regs[r] else 0];
        regs := regs[At := addr / 0x1_0000 * 0x1_0000 % 0x1_0000_0000];
      case LwGlobal(r, addr) => regs := regs[r := if addr in mem then mem[addr] else 0];
      case Load(r, value) => regs := regs[r := value];
      case AddSp(n) => regs := regs[Sp := (sp + n) % 0x1_0000_0000];
    }

    method Execute(p: seq<Instr>)
      modifies this
      ensures State() == Exec(p, old(State()))
    {
      for i := 0 to |p|
        invariant Exec(p[i..], State()) == Exec(p, old(State()))
      {
        assert p[i..][1..] == p[i + 1..];
        Step(p[i]);
      }
    }
  }
}
