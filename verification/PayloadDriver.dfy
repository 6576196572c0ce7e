/**
 The per-frame entry point of the payload: count frames, initialise once, then run or show the error.
 */
module PayloadDriver {
  const BOOT_FRAMES: nat := 120

  datatype Phase = Uninitialized | Initialized | Error

  /** A call out of the driver. */
  datatype Event = UsbInit | AbiRegister | LoginAndStart | ClRun | ShowCoins(value: int)

  /** What the library calls return during one frame; 0 is CL_OK. */
  datatype Env = Env(usb: int, abi: int, login: int, session: int)

  datatype State = State(phase: Phase, bootFrames: nat, result: int, log: seq<Event>)

  const START := State(Uninitialized, 0, 0, [])

  /** The outcome of the one attempt to initialise. */
  function Outcome(e: Env): (Phase, int, seq<Event>) {
    if e.usb != 0 then (Error, 10, [UsbInit])
    else if e.abi != 0 then (Error, 20 + e.abi, [UsbInit, AbiRegister])
    else if e.login != 0 then (Error, 30 + e.login, [UsbInit, AbiRegister, LoginAndStart])
    else (Initialized, 40 + e.session, [UsbInit, AbiRegister, LoginAndStart])
  }

  function Step(s: State, e: Env): State {
    match s.phase
    case Uninitialized =>
      if s.bootFrames < BOOT_FRAMES then s.(bootFrames := s.bootFrames + 1)
      else
        var (phase, result, log) := Outcome(e);
        State(phase, s.bootFrames, s.result + result, s.log + log)
    case Error => s.(log := s.log + [ShowCoins(s.result % 0x1_0000)])
    case Initialized => s.(log := s.log + [ClRun])
  }

  function Run(envs: seq<Env>): State {
    if envs == [] then START else Step(Run(envs[..|envs| - 1]), envs[|envs| - 1])
  }

  function Repeat(e: Event, n: nat): seq<Event> {
    seq(n, _ => e)
  }

  /**
   The whole life of the driver: 120 frames of nothing, one attempt at the USB, the ABI and
   the login, in that order and stopping at the first failure, and from then on only ClRun
   if all three succeeded, or only the error display if one failed.
   */
  lemma {:induction false} LifeCycle(envs: seq<Env>)
    ensures var n, s := |envs|, Run(envs);
      if n <= BOOT_FRAMES then s == State(Uninitialized, n, 0, [])
      else
        var (phase, result, log) := Outcome(envs[BOOT_FRAMES]);
        s == State(phase, BOOT_FRAMES, result,
                   log + Repeat(if phase.Initialized? then ClRun else ShowCoins(result % 0x1_0000), n - BOOT_FRAMES - 1))
  {
    if envs != [] {
      var before := envs[..|envs| - 1];
      LifeCycle(before);
      if |before| > BOOT_FRAMES {
        assert before[BOOT_FRAMES] == envs[BOOT_FRAMES];
        var (phase, result, log) := Outcome(envs[BOOT_FRAMES]);
        var e := if phase.Initialized? then ClRun else ShowCoins(result % 0x1_0000);
        assert Repeat(e, |envs| - BOOT_FRAMES - 1) == Repeat(e, |before| - BOOT_FRAMES - 1) + [e];
      }
    }
  }

  function Count(log: seq<Event>, e: Event): nat {
    multiset(log)[e]
  }

  /** The calls frame 121 makes: each only if the ones before it answered CL_OK. */
  function InitCalls(o: Env): seq<Event> {
    [UsbInit] + (if o.usb == 0 then [AbiRegister] else []) + (if o.usb == 0 && o.abi == 0 then [LoginAndStart] else [])
  }

  /**
   The log and the phase, by the answers of frame 121 alone: nothing for 120 frames, then
   the calls above once, then one entry a frame, cl_run after success and the code of the
   failed step after a failure. The code is kept in `result`, which success sets too.
   */
  lemma WhatIsLogged(envs: seq<Env>)
    ensures |envs| <= 120 ==> Run(envs).log == [] && Run(envs).phase == Uninitialized && Run(envs).result == 0
    ensures |envs| > 120 ==>
      var o, s := envs[120], Run(envs);
      var k := |InitCalls(o)|;
      var code := if o.usb != 0 then 10 else if o.abi != 0 then 20 + o.abi else if o.login != 0 then 30 + o.login else 40 + o.session;
      && s.result == code && s.phase == (if o.usb == 0 && o.abi == 0 && o.login == 0 then Initialized else Error)
      && |s.log| == k + (|envs| - 121) && s.log[..k] == InitCalls(o)
      && forall j :: k <= j < |s.log| ==>
           s.log[j] == if o.usb == 0 && o.abi == 0 && o.login == 0 then ClRun else ShowCoins(code % 65536)
  {
    LifeCycle(envs);
    hide Run;
  }

  /** cl_run is called max(0, n - 121) times if the three calls of frame 121 answered CL_OK, and never otherwise; each of the three at most once. */
  lemma RunCount(envs: seq<Env>)
    ensures var n, log := |envs|, Run(envs).log;
      && Count(log, ClRun) == (if n > 120 && envs[120].usb == 0 && envs[120].abi == 0 && envs[120].login == 0 then n - 121 else 0)
      && Count(log, UsbInit) == (if n > 120 then 1 else 0)
      && Count(log, AbiRegister) == (if n > 120 && envs[120].usb == 0 then 1 else 0)
      && Count(log, LoginAndStart) == (if n > 120 && envs[120].usb == 0 && envs[120].abi == 0 then 1 else 0)
  {
    LifeCycle(envs);
    hide Run;
    var n := |envs|;
    if n > 120 {
      InitCounts(envs[120], n - 121);
    }
  }

  lemma InitCounts(o: Env, k: nat)
    ensures var (phase, result, log) := Outcome(o);
      var all := log + Repeat(if phase.Initialized? then ClRun else ShowCoins(result % 0x1_0000), k);
      && Count(all, ClRun) == (if o.usb == 0 && o.abi == 0 && o.login == 0 then k else 0)
      && Count(all, UsbInit) == 1 && Count(all, AbiRegister) == (if o.usb == 0 then 1 else 0)
      && Count(all, LoginAndStart) == (if o.usb == 0 && o.abi == 0 then 1 else 0)
  {
    var (phase, result, log) := Outcome(o);
    var e := if phase.Initialized? then ClRun else ShowCoins(result % 0x1_0000);
    RepeatCount(e, k);
    assert multiset(log + Repeat(e, k)) == multiset(log) + multiset(Repeat(e, k));
  }

  lemma {:induction false} RepeatCount(e: Event, n: nat)
    ensures multiset(Repeat(e, n)) == multiset{}[e := n]
  {
    if n > 0 {
      RepeatCount(e, n - 1);
      assert Repeat(e, n) == Repeat(e, n - 1) + [e];
    }
  }

  class Payload {
    var phase: Phase
    var bootFrames: nat
    var result: int
    ghost var log: seq<Event>

    ghost function Snapshot(): State
      reads this
    {
      State(phase, bootFrames, result, log)
    }

    constructor ()
      ensures Snapshot() == START
    {
      phase, bootFrames, result, log := Uninitialized, 0, 0, [];
    }

    method ClnRun(env: Env)
      modifies this
      ensures Snapshot() == Step(old(Snapshot()), env)
    {
      if phase == Uninitialized {
        if bootFrames < BOOT_FRAMES {
          bootFrames := bootFrames + 1;
          return;
        }
        result := result + 10;

        log := log + [UsbInit];
        if env.usb != 0 {
          phase := Error;
          return;
        }
        result := result + 10;

        log := log + [AbiRegister];
        if env.abi != 0 {
          phase := Error;
          result := result + env.abi;
          return;
        }
        result := result + 10;

        log := log + [LoginAndStart];
        if env.login != 0 {
          phase := Error;
          result := result + env.login;
          return;
        }
        result := result + 10;
        result := result + env.session;
        phase := Initialized;
        assert log == old(log) + [UsbInit, AbiRegister, LoginAndStart];
      } else if phase == Error {
        log := log + [ShowCoins(result % 0x1_0000)];
      } else if phase == Initialized {
        log := log + [ClRun];
      }
    }
  }
}
