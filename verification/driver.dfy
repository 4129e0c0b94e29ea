// The driver `main`: argument checks, then calibration, segment creation,
// fork and the handoff loop, described by the exit code and the ordered
// externally visible effects of a run. Timestamps, elapsed times and the
// per-page / per-switch averages are not part of the model.
module Driver {
  import opened Config
  import opened Iterations
  import opened WorkingSet

  /** Outcome of the argument checks at the start of `main`. */
  datatype ArgCheck = UsageError | NegativeSize | Proceed(wsPages: nat)

  /**
   * Where stdout goes. On an interactive device it is line buffered, so a
   * report reaches the output when it is printed; on a pipe or a file it is
   * fully buffered, so a report reaches the output when the process that
   * holds it exits, and a forked child inherits a copy of what is buffered.
   */
  datatype StdoutKind = Terminal | Redirected

  /** One externally visible step of a run, in the order it takes effect. */
  datatype Effect =
    | UsageMessage                                 // usage line on stderr
    | NegativeSizeMessage                          // "must be positive" on stderr
    | Allocate(bytes: nat)                         // malloc of the calibration buffer
    | CalibrationPasses(passes: nat, bytes: nat)   // the timed memset loop
    | MemsetReport(iterations: nat, kib: nat)      // memset line reaching stdout
    | Release(bytes: nat)                          // free of the calibration buffer
    | CreateSegment(bytes: nat)                    // shmget of the shared segment
    | Fork                                         // the participant process starts
    | AttachSegment(bytes: nat)                    // shmat, in both processes
    | Handoffs(rounds: nat, touchBytes: nat)       // the timed two-process loop
    | ChildExit                                    // the participant returns from main
    | Wait                                         // the parent waits for the participant
    | SwitchReport(switches: nat, kib: nat)        // context-switch line reaching stdout
  {
    predicate IsStdout() { MemsetReport? || SwitchReport? }
    predicate IsStderr() { UsageMessage? || NegativeSizeMessage? }
    predicate Acquires() { Allocate? || CreateSegment? || Fork? || AttachSegment? }
  }

  /** Exit status and effects of one run of the benchmark. */
  datatype Run = Run(code: int, effects: seq<Effect>)

  /**
   * The argument checks: a wrong argument count is rejected before the
   * size is looked at; a negative size is rejected; anything else proceeds
   * with the parsed size as the page count.
   */
  function CheckArgs(argc: int, parsed: int): (c: ArgCheck)
    ensures c.Proceed? <==> argc == 2 && parsed >= 0
    ensures c.Proceed? ==> c.wsPages == parsed
    ensures c.UsageError? <==> argc != 2
  {
    if argc != 2 then UsageError
    else if parsed < 0 then NegativeSize
    else Proceed(parsed)
  }

  /** Context switches reported for a number of handoff rounds. */
  function SwitchCount(iterations: nat): (n: nat)
    ensures n % SwitchesPerIteration == 0
    ensures iterations <= MaxIterations ==> n <= 4196000 <= Int32Max
  {
    iterations * SwitchesPerIteration
  }

  /** Working-set size as printed, in KiB. */
  function Kib(ws: nat): (k: nat)
    ensures k * 1024 == WorkingSetBytes(ws)
  {
    ws * (PageSize / 1024)
  }

  /** The memset report, printed only for a non-empty working set. */
  function MemsetLines(ws: nat): seq<Effect>
  {
    if ws != 0 then [MemsetReport(IterationCount(ws), Kib(ws))] else []
  }

  /** Calibration: allocate, time the passes, report, release. */
  function Calibration(ws: nat, out: StdoutKind): seq<Effect>
  {
    var b := WorkingSetBytes(ws);
    if ws != 0 then
      [Allocate(b), CalibrationPasses(IterationCount(ws), b)] +
      (if out == Terminal then MemsetLines(ws) else []) +
      [Release(b)]
    else []
  }

  /** Segment creation, fork, attachment and the handoff loop. */
  function Exchange(ws: nat): seq<Effect>
  {
    [CreateSegment(SegmentSize(ws)), Fork, AttachSegment(SegmentSize(ws)),
     Handoffs(IterationCount(ws), WorkingSetBytes(ws))]
  }

  /** Reports still buffered when `fork` runs, so held by both processes. */
  function Pending(ws: nat, out: StdoutKind): seq<Effect>
  {
    if out == Redirected then MemsetLines(ws) else []
  }

  /**
   * The parent's end: on a terminal the switch report appears when printed,
   * before `wait`; redirected, the parent's buffer (pending reports, then
   * the switch report) is flushed when it returns after `wait`.
   */
  function Finish(ws: nat, out: StdoutKind): seq<Effect>
  {
    var report := SwitchReport(SwitchCount(IterationCount(ws)), Kib(ws));
    if out == Terminal then [report, Wait]
    else [Wait] + Pending(ws, out) + [report]
  }

  /**
   * `main` with `parsed` the value `strtol` produced from the argument.
   * The iteration count is the total IterationCount, so a zero-page run
   * completes with 1000 rounds. The participant flushes its inherited copy
   * of the pending reports when it returns; on a terminal that copy is
   * empty, so where its exit falls relative to the parent's report does not
   * change the output.
   */
  function Benchmark(argc: int, parsed: int, out: StdoutKind): Run
  {
    match CheckArgs(argc, parsed)
    case UsageError => Run(1, [UsageMessage])
    case NegativeSize => Run(1, [NegativeSizeMessage])
    case Proceed(ws) =>
      Run(0, Calibration(ws, out) + Exchange(ws) + Pending(ws, out) + [ChildExit] + Finish(ws, out))
  }

  /** The lines a sequence of effects writes to stdout, in order. */
  function Stdout(t: seq<Effect>): seq<Effect>
  {
    if t == [] then [] else Keep(t[0]) + Stdout(t[1..])
  }

  /** The stdout part of a single effect. */
  function Keep(e: Effect): seq<Effect>
  {
    if e.IsStdout() then [e] else []
  }

  lemma {:induction false} StdoutAppend(a: seq<Effect>, b: seq<Effect>)
    ensures Stdout(a + b) == Stdout(a) + Stdout(b)
  {
    if a == [] {
      assert a + b == b;
    } else {
      assert (a + b)[0] == a[0];
      assert (a + b)[1..] == a[1..] + b;
      assert Stdout(a + b) == Keep(a[0]) + Stdout(a[1..] + b);
      StdoutAppend(a[1..], b);
    }
  }

  lemma {:induction false} StdoutSilent(t: seq<Effect>)
    requires forall j :: 0 <= j < |t| ==> !t[j].IsStdout()
    ensures Stdout(t) == []
  {
    if t != [] {
      StdoutSilent(t[1..]);
    }
  }

  lemma {:induction false} StdoutReports(t: seq<Effect>)
    requires forall j :: 0 <= j < |t| ==> t[j].IsStdout()
    ensures Stdout(t) == t
  {
    if t != [] {
      StdoutReports(t[1..]);
    }
  }

  // ---------------------------------------------------------------------
  // Properties of a run

  /**
   * Exit code 1 exactly for a wrong argument count or a negative size; such
   * a run writes one diagnostic to stderr, nothing to stdout, and acquires
   * no memory, segment or process.
   */
  lemma BenchmarkRejects(argc: int, parsed: int, out: StdoutKind)
    ensures Benchmark(argc, parsed, out).code == 1 <==> argc != 2 || parsed < 0
    ensures Benchmark(argc, parsed, out).code == 1 ==>
      var t := Benchmark(argc, parsed, out).effects;
      |t| == 1 && t[0].IsStderr() && !t[0].Acquires() && Stdout(t) == [] &&
      (argc != 2 <==> t[0] == UsageMessage)
    ensures Benchmark(argc, parsed, out).code != 1 ==> Benchmark(argc, parsed, out).code == 0
  {
    var t := Benchmark(argc, parsed, out).effects;
    if Benchmark(argc, parsed, out).code == 1 {
      assert Stdout(t) == Stdout(t[1..]);
    }
  }

  /**
   * The stdout of a successful run: the memset line only for a non-empty
   * working set, once on a terminal and twice when redirected (the child
   * flushes the copy it inherited at `fork`), then the context-switch line,
   * whose count is four times the iteration count and fits a 32-bit `int`.
   */
  lemma {:induction false} BenchmarkOutput(ws: nat, out: StdoutKind)
    ensures
      var it := IterationCount(ws);
      var memset := if ws == 0 then [] else [MemsetReport(it, Kib(ws))];
      Benchmark(2, ws, out).code == 0 &&
      Stdout(Benchmark(2, ws, out).effects) ==
        (if out == Terminal then memset else memset + memset) +
        [SwitchReport(SwitchCount(it), Kib(ws))]
    ensures |Stdout(Benchmark(2, ws, out).effects)| ==
      if ws == 0 then 1 else if out == Terminal then 2 else 3
    ensures 4000 <= SwitchCount(IterationCount(ws)) <= 4196000 <= Int32Max
  {
    var lines := MemsetLines(ws);
    var report := SwitchReport(SwitchCount(IterationCount(ws)), Kib(ws));
    RunStdout(ws, out);
    if out == Terminal {
      assert Pending(ws, out) == [];
      assert Stdout(Benchmark(2, ws, out).effects) == lines + [report];
    } else {
      assert Stdout(Benchmark(2, ws, out).effects) == lines + lines + [report];
    }
  }

  /** The stdout of a successful run, assembled from its parts. */
  lemma RunStdout(ws: nat, out: StdoutKind)
    ensures Benchmark(2, ws, out).code == 0
    ensures Stdout(Benchmark(2, ws, out).effects) ==
      (if out == Terminal then MemsetLines(ws) else []) + Pending(ws, out) + Pending(ws, out) +
      [SwitchReport(SwitchCount(IterationCount(ws)), Kib(ws))]
  {
    BenchmarkEffects(ws, out);
    CalibrationStdout(ws, out);
    ExchangeSilent(ws);
    PendingReports(ws, out);
    FinishStdout(ws, out);
    StdoutOfRun(Calibration(ws, out), Exchange(ws), Pending(ws, out), Finish(ws, out));
  }

  /** A successful run is its five parts in order. */
  lemma BenchmarkEffects(ws: nat, out: StdoutKind)
    ensures Benchmark(2, ws, out).code == 0
    ensures Benchmark(2, ws, out).effects ==
      Calibration(ws, out) + Exchange(ws) + Pending(ws, out) + [ChildExit] + Finish(ws, out)
  {
  }

  lemma ExchangeSilent(ws: nat)
    ensures forall j :: 0 <= j < |Exchange(ws)| ==> !Exchange(ws)[j].IsStdout()
  {
  }

  lemma PendingReports(ws: nat, out: StdoutKind)
    ensures forall j :: 0 <= j < |Pending(ws, out)| ==> Pending(ws, out)[j].IsStdout()
  {
  }

  /** Stdout of a run built from silent exchange effects and pending reports. */
  lemma StdoutOfRun(cal: seq<Effect>, ex: seq<Effect>, pend: seq<Effect>, fin: seq<Effect>)
    requires forall j :: 0 <= j < |ex| ==> !ex[j].IsStdout()
    requires forall j :: 0 <= j < |pend| ==> pend[j].IsStdout()
    ensures Stdout(cal + ex + pend + [ChildExit] + fin) == Stdout(cal) + pend + Stdout(fin)
  {
    var a := cal + ex;
    var b := a + pend;
    var c := b + [ChildExit];
    StdoutSilent(ex);
    StdoutSilent([ChildExit]);
    StdoutReports(pend);
    StdoutAppend(cal, ex);
    assert Stdout(a) == Stdout(cal);
    StdoutAppend(a, pend);
    assert Stdout(b) == Stdout(cal) + pend;
    StdoutAppend(b, [ChildExit]);
    assert Stdout(c) == Stdout(b);
    StdoutAppend(c, fin);
  }

  lemma CalibrationStdout(ws: nat, out: StdoutKind)
    ensures Stdout(Calibration(ws, out)) == if out == Terminal then MemsetLines(ws) else []
  {
    if ws != 0 {
      var b := WorkingSetBytes(ws);
      var head := [Allocate(b), CalibrationPasses(IterationCount(ws), b)];
      var mid := if out == Terminal then MemsetLines(ws) else [];
      assert Calibration(ws, out) == head + mid + [Release(b)];
      StdoutSilent(head);
      StdoutSilent([Release(b)]);
      StdoutReports(mid);
      StdoutAppend(head, mid);
      StdoutAppend(head + mid, [Release(b)]);
    }
  }

  lemma FinishStdout(ws: nat, out: StdoutKind)
    ensures Stdout(Finish(ws, out)) ==
      Pending(ws, out) + [SwitchReport(SwitchCount(IterationCount(ws)), Kib(ws))]
  {
    var report := SwitchReport(SwitchCount(IterationCount(ws)), Kib(ws));
    var pend := Pending(ws, out);
    StdoutReports([report]);
    StdoutSilent([Wait]);
    if out == Terminal {
      assert Finish(ws, out) == [report] + [Wait];
      StdoutAppend([report], [Wait]);
    } else {
      assert Finish(ws, out) == [Wait] + pend + [report];
      StdoutReports(pend);
      StdoutAppend([Wait], pend);
      StdoutAppend([Wait] + pend, [report]);
    }
  }

  /**
   * A successful run creates the shared segment after any calibration
   * buffer is released, sized so that the working set at offset 4096 ends
   * at the segment's end; both processes attach it after the fork;
   * calibration runs only for a non-empty working set, with as many passes
   * as there are handoff rounds; the participant exits after the handoffs
   * and after flushing what it inherited.
   */
  lemma {:induction false} BenchmarkResources(ws: nat, out: StdoutKind)
    ensures
      var t := Benchmark(2, ws, out).effects;
      var k := |Calibration(ws, out)|;
      var c := k + 4 + |Pending(ws, out)|;
      |t| == c + 3 + |Pending(ws, out)| &&
      t[k] == CreateSegment(WorkingSetOffset + WorkingSetBytes(ws)) &&
      t[k + 1] == Fork &&
      t[k + 2] == AttachSegment(WorkingSetOffset + WorkingSetBytes(ws)) &&
      t[k + 3] == Handoffs(IterationCount(ws), WorkingSetBytes(ws)) &&
      t[c] == ChildExit &&
      (ws == 0 ==> k == 0) &&
      (ws != 0 ==> t[0] == Allocate(WorkingSetBytes(ws)) &&
                   t[1] == CalibrationPasses(IterationCount(ws), WorkingSetBytes(ws)) &&
                   t[k - 1] == Release(WorkingSetBytes(ws)))
  {
    var cal, ex, pend, fin := Calibration(ws, out), Exchange(ws), Pending(ws, out), Finish(ws, out);
    var t := Benchmark(2, ws, out).effects;
    assert t == cal + ex + pend + [ChildExit] + fin;
    assert |fin| == 2 + |pend|;
  }

  lemma CalibrationKinds(ws: nat, out: StdoutKind)
    ensures forall e :: e in Calibration(ws, out) ==> !e.CreateSegment? && !e.Fork? && !e.Wait?
  {
  }

  /**
   * In a successful run there is exactly one segment creation and one fork,
   * and the parent's `wait` happens once, after the participant has exited.
   */
  lemma {:induction false} BenchmarkSingleSegment(ws: nat, out: StdoutKind)
    ensures
      var t := Benchmark(2, ws, out).effects;
      var k := |Calibration(ws, out)|;
      var c := k + 4 + |Pending(ws, out)|;
      c < |t| && t[c] == ChildExit &&
      (forall j :: 0 <= j < |t| && t[j].CreateSegment? ==> j == k) &&
      (forall j :: 0 <= j < |t| && t[j].Fork? ==> j == k + 1) &&
      (exists j :: c < j < |t| && t[j] == Wait) &&
      (forall j :: 0 <= j < |t| && t[j].Wait? ==> c < j)
  {
    var cal, ex, pend, fin := Calibration(ws, out), Exchange(ws), Pending(ws, out), Finish(ws, out);
    var t := Benchmark(2, ws, out).effects;
    var k := |cal|;
    var c := k + 4 + |pend|;
    var pre := cal + ex + pend + [ChildExit];
    assert t == pre + fin;
    assert |pre| == c + 1;
    CalibrationKinds(ws, out);
    forall j | 0 <= j < |t|
      ensures (t[j].CreateSegment? ==> j == k) && (t[j].Fork? ==> j == k + 1) && (t[j].Wait? ==> c < j)
    {
      if j < k {
        assert t[j] == cal[j];
        assert t[j] in cal;
      } else if j < k + 4 {
        assert t[j] == ex[j - k];
      } else if j < c {
        assert t[j] == pend[j - k - 4];
      }
    }
    var w := if out == Terminal then c + 2 else c + 1;
    assert t[w] == Wait;
  }
}
