/**
 * The standalone immunity script. Its LFSR, image generator, hex sender and
 * checks are the same as the GUI script's and are used from module Host;
 * what differs is the main sequence: fixed DIO settings, tool failures that
 * do not stop the run, and a polling loop that issues every check and never
 * ends.
 */
module Immunity {
  import opened Bits
  import Host

  /** The hard-wired DIO divider and mode of the immunity run. */
  const DIVIDER: int := 3
  const MODE: int := Host.DIO_MODE_IMMUNITY_PORT_PAIRS

  /** The settings the immunity run starts the DIO test with: phase 1 of
      divider 3 in port-pairs mode, the word 0x20103, written to offset
      0x0c and followed by the read of the status register at 0x10. */
  lemma ImmunitySettings()
    ensures Host.Phase(DIVIDER) == 1
    ensures Host.SettingsWord(MODE, Host.Phase(DIVIDER), DIVIDER) == 0x2_0103
    ensures Host.StartDioRequest(MODE, Host.Phase(DIVIDER), DIVIDER)
      == Host.WriteRequest(Host.DIO_SETTINGS_ADDR, 0x2_0103) + Host.ReadRequest(Host.DIO_STATUS_ADDR)
  {
    ImmunityWord();
  }

  /** Phase 1 of divider 3 in port-pairs mode is the word 0x20103. */
  lemma ImmunityWord()
    ensures Host.Phase(DIVIDER) == 1
    ensures Host.SettingsWord(MODE, Host.Phase(DIVIDER), DIVIDER) == 0x2_0103
  {
    InRangeSettingsWord(MODE, Host.Phase(DIVIDER), DIVIDER, 0x2_0103);
  }

  lemma InRangeSettingsWord(mode: int, phase: int, divider: int, w: int)
    requires 0 <= mode < 4 && 0 <= phase < 0x100 && 0 <= divider < 0x100
    requires w == mode * 0x1_0000 + phase * 0x100 + divider
    ensures Host.SettingsWord(mode, phase, divider) == w
  {
    assert mode % 4 == mode && phase % 0x100 == phase && divider % 0x100 == divider;
  }

  /** The settings under which `run_test` issues the same checks: all seven
      ticked. */
  const ALL_CHECKS: Host.Settings := Host.Settings(MODE, DIVIDER, true, true, true, true, true, true, true)

  /** One pass of the `while not done` loop: every check in the fixed order. */
  function Pass(): seq<Host.Action>
  {
    [Host.Issue(Host.XadcCheck), Host.Issue(Host.FlashIdCheck), Host.Issue(Host.FlashVerifyCheck),
     Host.Issue(Host.EchoCheck), Host.Issue(Host.DioCheck), Host.Issue(Host.MouseCheck), Host.Issue(Host.BramCheck)]
  }

  /** A pass is the GUI script's pass with every check ticked. */
  lemma PassIsFullCycle()
    ensures Pass() == Host.Cycle(ALL_CHECKS)
  {
    var cfg := ALL_CHECKS;
    assert Host.CycleUpTo(cfg, 1) == Pass()[..1];
    assert Host.CycleUpTo(cfg, 2) == Pass()[..2];
    assert Host.CycleUpTo(cfg, 3) == Pass()[..3];
    assert Host.CycleUpTo(cfg, 4) == Pass()[..4];
    assert Host.CycleUpTo(cfg, 5) == Pass()[..5];
    assert Host.CycleUpTo(cfg, 6) == Pass()[..6];
  }

  /** The first `passes` passes of the polling loop. */
  function Passes(passes: nat): seq<Host.Action>
  {
    if passes == 0 then [] else Passes(passes - 1) + Pass()
  }

  /** The actions of the `__main__` sequence up to the end of pass number
      `passes`: the QSPI write and the FPGA programming happen whatever
      they report, then the port is opened and the DIO test started. */
  function ImmunityTrace(seed: nat, passes: nat): seq<Host.Action>
  {
    [Host.WriteQspi(seed), Host.ProgramDevice, Host.OpenPort, Host.StartDio(0x2_0103)] + Passes(passes)
  }

  /** The `__main__` sequence observed until the end of pass number
      `observed`, given what the board answers: `dioReply` to the status
      read of `StartDio` and `replies` in the passes. A reply that does not
      parse raises and ends the script; otherwise the loop is still running
      when the observation stops, since nothing sets `done`. */
  function ImmunityRun(seed: nat, dioReply: seq<byte>, replies: Host.Replies, observed: nat): seq<Host.Action>
    requires |dioReply| == Host.Check.DioCheck.ReplyLength()
  {
    if !Host.ReplyParses(Host.DioCheck, dioReply) then ImmunityTrace(seed, 0) + [Host.ParseError]
    else LoopRun(ALL_CHECKS, seed, replies, observed)
  }

  /** The run once the DIO test has started: the passes up to the first
      one with a reply that does not parse, which ends with that check. */
  function LoopRun(cfg: Host.Settings, seed: nat, replies: Host.Replies, observed: nat): seq<Host.Action>
  {
    match Host.FailingPass(cfg, replies, observed)
    case None => ImmunityTrace(seed, observed)
    case Some(p) => ImmunityTrace(seed, p) + Host.PassOf(cfg, replies, p)
  }

  /** The `__main__` sequence: `write_qspi_binfile` and `program_device`
      return nothing and the script goes on whatever Vivado reports, so
      their exit codes are not parameters; `raised` tells whether a reply
      ended the script within the observation. */
  method RunImmunity(seed: u32, dioReply: seq<byte>, replies: Host.Replies, observed: nat)
    returns (trace: seq<Host.Action>, raised: bool)
    requires |dioReply| == Host.Check.DioCheck.ReplyLength()
    ensures trace == ImmunityRun(seed, dioReply, replies, observed)
    ensures raised <==> !Host.ReplyParses(Host.DioCheck, dioReply) || Host.FailingPass(ALL_CHECKS, replies, observed).Some?
  {
    var phase := Host.Phase(DIVIDER);
    ImmunityWord();
    trace := [Host.WriteQspi(seed), Host.ProgramDevice, Host.OpenPort, Host.StartDio(Host.SettingsWord(MODE, phase, DIVIDER))];
    assert trace == ImmunityTrace(seed, 0);
    raised := !Host.ReplyParses(Host.DioCheck, dioReply);
    if raised {
      trace := trace + [Host.ParseError];
    } else {
      PassIsFullCycle();
      trace, raised := PollForever(ALL_CHECKS, seed, replies, observed, trace);
    }
  }

  /** The `while not done` loop, observed for `observed` passes after
      `start`, the actions before it. */
  method PollForever(cfg: Host.Settings, seed: nat, replies: Host.Replies, observed: nat, start: seq<Host.Action>)
    returns (trace: seq<Host.Action>, raised: bool)
    requires Host.Cycle(cfg) == Pass() && start == ImmunityTrace(seed, 0)
    ensures trace == LoopRun(cfg, seed, replies, observed)
    ensures raised <==> Host.FailingPass(cfg, replies, observed).Some?
  {
    trace := start;
    var passes := 0;
    while passes < observed
      invariant passes <= observed
      invariant trace == ImmunityTrace(seed, passes) && Host.FailingPass(cfg, replies, passes).None?
    {
      var cycle;
      cycle, raised := Host.IssueCycle(cfg, replies, passes);
      if raised {
        RaisingPass(cfg, seed, replies, passes, observed);
        trace := trace + cycle;
        return;
      }
      NextPass(cfg, seed, replies, passes);
      trace := trace + cycle;
      passes := passes + 1;
    }
    raised := false;
  }

  /** The first pass that raises ends the observed run. */
  lemma RaisingPass(cfg: Host.Settings, seed: nat, replies: Host.Replies, p: nat, observed: nat)
    requires p < observed && Host.FailingPass(cfg, replies, p).None? && Host.Raises(cfg, replies, p)
    ensures Host.FailingPass(cfg, replies, observed) == Some(p)
    ensures LoopRun(cfg, seed, replies, observed) == ImmunityTrace(seed, p) + Host.PassOf(cfg, replies, p)
  {
    Host.FailingPassFirst(cfg, replies, p, observed);
  }

  /** A clean pass adds one full pass to the trace. */
  lemma NextPass(cfg: Host.Settings, seed: nat, replies: Host.Replies, p: nat)
    requires Host.Cycle(cfg) == Pass()
    requires Host.FailingPass(cfg, replies, p).None? && !Host.Raises(cfg, replies, p)
    ensures Host.FailingPass(cfg, replies, p + 1).None?
    ensures ImmunityTrace(seed, p) + Host.PassOf(cfg, replies, p) == ImmunityTrace(seed, p + 1)
  {
    Host.CleanPass(cfg, replies, p);
    Host.Regroup([Host.WriteQspi(seed), Host.ProgramDevice, Host.OpenPort, Host.StartDio(0x2_0103)], Passes(p), Pass());
  }

  lemma {:induction false} PassesLength(n: nat)
    ensures |Passes(n)| == 7 * n
  {
    if n > 0 {
      PassesLength(n - 1);
    }
  }

  lemma {:induction false} PassesPrefix(n: nat, m: nat)
    requires n <= m
    ensures Passes(n) <= Passes(m)
    decreases m
  {
    if n < m {
      PassesPrefix(n, m - 1);
    }
  }

  /** The run never finishes: every pass extends what was observed before
      it by another seven checks. */
  lemma NeverStops(seed: nat, n: nat, m: nat)
    requires n < m
    ensures ImmunityTrace(seed, n) < ImmunityTrace(seed, m)
    ensures |ImmunityTrace(seed, m)| - |ImmunityTrace(seed, n)| == 7 * (m - n)
  {
    PassesPrefix(n, m);
    PassesLength(n);
    PassesLength(m);
  }

  /** A reply that does not parse ends the script: the error occurs
      exactly when the status read of `StartDio` or some check of an
      observed pass does not parse; a run without it is the endless loop
      observed so far, and in a run with it the error is the last action
      and what precedes it is a prefix of that loop. */
  lemma ImmunityErrorEndsRun(seed: nat, dioReply: seq<byte>, replies: Host.Replies, observed: nat)
    requires |dioReply| == Host.Check.DioCheck.ReplyLength()
    ensures var t := ImmunityRun(seed, dioReply, replies, observed);
      (Host.ParseError in t <==>
        !Host.ReplyParses(Host.DioCheck, dioReply) || Host.FailingPass(ALL_CHECKS, replies, observed).Some?)
    ensures var t := ImmunityRun(seed, dioReply, replies, observed);
      Host.ParseError !in t ==> t == ImmunityTrace(seed, observed)
    ensures var t := ImmunityRun(seed, dioReply, replies, observed);
      (Host.ParseError in t ==>
        t[|t| - 1] == Host.ParseError && t[..|t| - 1] <= ImmunityTrace(seed, observed))
  {
    NoErrorInPasses(observed);
    var t := ImmunityRun(seed, dioReply, replies, observed);
    if !Host.ReplyParses(Host.DioCheck, dioReply) {
      assert t[..|t| - 1] == ImmunityTrace(seed, 0);
      TracePrefix(seed, 0, observed);
    } else if Host.FailingPass(ALL_CHECKS, replies, observed).Some? {
      var p := Host.FailingPass(ALL_CHECKS, replies, observed).value;
      var k := Host.FailingRank(ALL_CHECKS, replies, p, 7).value;
      var cut := Host.CycleUpTo(ALL_CHECKS, k + 1);
      assert t == ImmunityTrace(seed, p) + cut + [Host.ParseError];
      assert t[..|t| - 1] == ImmunityTrace(seed, p) + cut;
      CutInPass(seed, p, k, observed);
    }
  }

  lemma {:induction false} NoErrorInPasses(n: nat)
    ensures Host.ParseError !in Passes(n)
  {
    if n > 0 {
      NoErrorInPasses(n - 1);
    }
  }

  lemma TracePrefix(seed: nat, n: nat, m: nat)
    requires n <= m
    ensures ImmunityTrace(seed, n) <= ImmunityTrace(seed, m)
  {
    PassesPrefix(n, m);
  }

  /** The checks of pass p up to rank k come before the end of every
      longer observation. */
  lemma CutInPass(seed: nat, p: nat, k: nat, observed: nat)
    requires p < observed && k < 7
    ensures ImmunityTrace(seed, p) + Host.CycleUpTo(ALL_CHECKS, k + 1) <= ImmunityTrace(seed, observed)
  {
    Host.CycleUpToPrefix(ALL_CHECKS, k + 1, 7);
    PassIsFullCycle();
    TracePrefix(seed, p + 1, observed);
    assert ImmunityTrace(seed, p + 1) == ImmunityTrace(seed, p) + Pass();
  }

  /** Where the GUI script stops after a failed tool run without opening
      the port, the immunity script goes on and runs every check. */
  lemma FailuresDoNotStop(seed: nat, qspiOk: bool, programOk: bool, pressedAfter: nat, passes: nat, c: Host.Check)
    requires !(qspiOk && programOk) && passes >= 1
    ensures Host.OpenPort !in Host.RunTrace(ALL_CHECKS, seed, qspiOk, programOk, pressedAfter)
    ensures Host.Issue(c) !in Host.RunTrace(ALL_CHECKS, seed, qspiOk, programOk, pressedAfter)
    ensures Host.OpenPort in ImmunityTrace(seed, passes)
    ensures Host.Issue(c) in ImmunityTrace(seed, passes)
  {
    Host.RunTraceIssues(ALL_CHECKS, seed, qspiOk, programOk, pressedAfter, c);
    PassesPrefix(1, passes);
    assert Passes(1) == Pass();
    assert Host.Issue(c) in Pass() by {
      assert Pass()[c.Rank()] == Host.Issue(c);
    }
  }
}
