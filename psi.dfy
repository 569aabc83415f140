/** One solver run (psi.py): the precision chosen for it, the poll loop that
    watches the solver's progress log, and the density-bar helpers. Starting
    the solver, sleeping, killing it and echoing are effects outside the
    model: the log is given as the sequence of snapshots the loop polls, and
    the echoed lines are returned. */
module Psi {
  import opened Basics

  function Min(x: real, y: real): real { if x <= y then x else y }

  /** Python truthiness of the optional minimum: absent and 0.0 are both false. */
  predicate Truthy(minimum: Option<real>)
  {
    minimum.Some? && minimum.value != 0.0
  }

  /** The factor run applies to eps: none near a known minimum, and for an
      outer run over a wide step 10·min(1, E_diff). */
  function EpsFactor(minimum: Option<real>, outer: bool, eDiff: real): (f: real)
    ensures f != 1.0 <==> !Truthy(minimum) && outer && eDiff > 0.1
    ensures !Truthy(minimum) && outer && eDiff > 0.1 ==> f == 10.0 * Min(1.0, eDiff) && 1.0 < f <= 10.0
    ensures eDiff >= 1.0 && f != 1.0 ==> f == 10.0
  {
    if Truthy(minimum) && eDiff > 0.001 then 1.0
    else if outer && eDiff > 0.1 then 10.0 * Min(1.0, eDiff)
    else 1.0
  }

  class PsiRun {
    const outer: bool
    const eZ: real
    const eDiff: real
    const maxSeconds: real
    const sleepInterval: real
    const kpSkip: int
    const error: real
    const minimum: Option<real>
    var eps: real

    /** The solver precision starts as the configured eps times the factor of this run. */
    constructor (optionsEps: real, outer: bool := true, eZ: real := 0.0, epsFactor: real := 1.0,
                 eDiff: real := 1.0, maxSeconds: real := 180.2, sleepInterval: real := 0.1,
                 kpSkip: int := 20, error: real := 0.0, minimum: Option<real> := None)
      ensures eps == optionsEps * epsFactor
      ensures this.outer == outer && this.eZ == eZ && this.eDiff == eDiff
      ensures this.maxSeconds == maxSeconds && this.sleepInterval == sleepInterval
      ensures this.kpSkip == kpSkip && this.error == error && this.minimum == minimum
    {
      this.outer := outer;
      this.eZ := eZ;
      this.eDiff := eDiff;
      this.maxSeconds := maxSeconds;
      this.sleepInterval := sleepInterval;
      this.kpSkip := kpSkip;
      this.error := error;
      this.minimum := minimum;
      eps := optionsEps * epsFactor;
    }

    /** The checks of run before the solver starts: an error above 1 fails the
        assertion (ok is false, nothing changes); otherwise eps is relaxed. */
    method Prepare() returns (ok: bool)
      modifies this
      ensures ok <==> error <= 1.0
      ensures eps == (if ok then old(eps) * EpsFactor(minimum, outer, eDiff) else old(eps))
    {
      if error > 1.0 {
        return false;
      }
      ok := true;
      if Truthy(minimum) && eDiff > 0.001 {
      } else if outer && eDiff > 0.1 {
        eps := eps * (10.0 * Min(1.0, eDiff));
      }
    }
  }

  // ---------------------------------------------------------------------
  // Poll loop
  // ---------------------------------------------------------------------

  /** The loop's variables: the last line seen, the seconds it has stood
      unchanged, whether the loop ended, whether it ended by the timeout (the
      solver is killed), whether it stopped on an unreadable iteration number,
      and the progress lines echoed so far. */
  datatype PollState = PollState(lastLine: string, stall: real, done: bool, killed: bool,
                                 crashed: bool, echoed: seq<string>)

  const Start: PollState := PollState("", 0.0, false, false, false, [])

  function RStripNewlines(s: string): (r: string)
    ensures |r| <= |s| && r == s[..|r|]
    ensures r == [] || r[|r| - 1] != '\n'
  {
    if s != [] && s[|s| - 1] == '\n' then RStripNewlines(s[..|s| - 1]) else s
  }

  /** Whether an "EPS" line with iteration number n is echoed; None where the
      modulo by kp_skip divides by zero. */
  function EchoIteration(n: int, kpSkip: int): (r: Option<bool>)
    ensures 1 <= n <= 4 ==> r == Some(true)
    ensures kpSkip != 0 ==> r.Some? && (r.value <==> 1 <= n <= 4 || n % kpSkip == 0)
    ensures r.None? <==> kpSkip == 0 && !(1 <= n <= 4)
  {
    if 1 <= n <= 4 then Some(true)
    else if kpSkip == 0 then None
    else Some(n % kpSkip == 0)
  }

  /** One pass of the loop body on the log read after one sleep. */
  function PollStep(st: PollState, lines: seq<string>, sleepInterval: real, maxSeconds: real,
                    kpSkip: int): (r: PollState)
    requires !st.done && !st.crashed
    ensures lines == [] ==> r == st
    ensures lines != [] && lines[|lines| - 1] == st.lastLine ==>
      r.stall == st.stall + sleepInterval && r.lastLine == st.lastLine && r.echoed == st.echoed
    ensures lines != [] && lines[|lines| - 1] != st.lastLine ==>
      r.lastLine == lines[|lines| - 1] && (r.stall == 0.0 || r.crashed)
    ensures lines != [] && !r.crashed ==> (r.done <==> r.stall >= maxSeconds || Contains(r.lastLine, "Done"))
    ensures r.crashed ==> !r.done
    ensures r.killed <==> st.killed || (lines != [] && !r.crashed && r.stall >= maxSeconds)
    ensures lines != [] && lines[|lines| - 1] == st.lastLine ==> !r.crashed
    ensures lines != [] && lines[|lines| - 1] != st.lastLine && !Contains(lines[|lines| - 1], "EPS") ==>
              !r.crashed && r.echoed == st.echoed
    ensures lines != [] && lines[|lines| - 1] != st.lastLine && Contains(lines[|lines| - 1], "EPS") ==>
              var l := lines[|lines| - 1];
              var n := if FirstToken(l).Some? then ParseInt(FirstToken(l).value) else None;
              var show := if n.Some? then EchoIteration(n.value, kpSkip) else None;
              (r.crashed <==> show.None?) &&
              r.echoed == st.echoed + (if show == Some(true) then [RStripNewlines(l)] else [])
    ensures |st.echoed| <= |r.echoed| <= |st.echoed| + 1 && r.echoed[..|st.echoed|] == st.echoed
  {
    if lines == [] then st
    else
      var line := lines[|lines| - 1];
      if line == st.lastLine then Finish(st.(stall := st.stall + sleepInterval), maxSeconds)
      else
        var renewed := st.(lastLine := line, stall := 0.0);
        if Contains(line, "EPS") then
          match FirstToken(line)
          case None => renewed.(crashed := true)
          case Some(word) =>
            match ParseInt(word)
            case None => renewed.(crashed := true)
            case Some(n) =>
              match EchoIteration(n, kpSkip)
              case None => renewed.(crashed := true)
              case Some(show) =>
                var shown := if show then renewed.(echoed := st.echoed + [RStripNewlines(line)]) else renewed;
                Finish(shown, maxSeconds)
        else Finish(renewed, maxSeconds)
  }

  /** The two exit tests at the end of the loop body. */
  function Finish(st: PollState, maxSeconds: real): (r: PollState)
    ensures r.lastLine == st.lastLine && r.stall == st.stall && r.echoed == st.echoed && !r.crashed == !st.crashed
    ensures r.done <==> st.done || st.stall >= maxSeconds || Contains(st.lastLine, "Done")
    ensures r.killed <==> st.killed || st.stall >= maxSeconds
  {
    var timedOut := if st.stall >= maxSeconds then st.(done := true, killed := true) else st;
    if Contains(timedOut.lastLine, "Done") then timedOut.(done := true) else timedOut
  }

  /** The state after reading the snapshots in order, stopping at the first
      pass that ends the loop or crashes. */
  function PollRun(st: PollState, snapshots: seq<seq<string>>, sleepInterval: real, maxSeconds: real,
                   kpSkip: int): PollState
    decreases |snapshots|
  {
    if snapshots == [] || st.done || st.crashed then st
    else PollRun(PollStep(st, snapshots[0], sleepInterval, maxSeconds, kpSkip), snapshots[1..],
                 sleepInterval, maxSeconds, kpSkip)
  }

  /** The poll loop of run over the log snapshots it polls, one per sleep.
      It ends in the state PollRun describes; when the snapshots run out
      before the loop ends, the solver is still being waited for. */
  method Poll(snapshots: seq<seq<string>>, sleepInterval: real, maxSeconds: real, kpSkip: int)
    returns (st: PollState, polls: nat)
    ensures st == PollRun(Start, snapshots, sleepInterval, maxSeconds, kpSkip)
    ensures polls <= |snapshots|
    ensures st.done || st.crashed || polls == |snapshots|
  {
    st := Start;
    polls := 0;
    while !st.done && !st.crashed && polls < |snapshots|
      invariant polls <= |snapshots|
      invariant PollRun(st, snapshots[polls..], sleepInterval, maxSeconds, kpSkip)
        == PollRun(Start, snapshots, sleepInterval, maxSeconds, kpSkip)
    {
      assert snapshots[polls..][1..] == snapshots[polls + 1..];
      st := PollStep(st, snapshots[polls], sleepInterval, maxSeconds, kpSkip);
      polls := polls + 1;
    }
  }

  /** An empty log never ends the loop: no timeout, however long it stays empty. */
  lemma {:induction false} EmptyLogNeverTimesOut(st: PollState, snapshots: seq<seq<string>>,
                                                 sleepInterval: real, maxSeconds: real, kpSkip: int)
    requires forall k :: 0 <= k < |snapshots| ==> snapshots[k] == []
    ensures PollRun(st, snapshots, sleepInterval, maxSeconds, kpSkip) == st
  {
    if snapshots != [] && !st.done && !st.crashed {
      EmptyLogNeverTimesOut(st, snapshots[1..], sleepInterval, maxSeconds, kpSkip);
    }
  }

  /** The loop only ends for a reason: the stall timer reached the limit
      (and the solver was killed) or the last line says "Done". */
  lemma {:induction false} EndsForAReason(st: PollState, snapshots: seq<seq<string>>,
                                          sleepInterval: real, maxSeconds: real, kpSkip: int)
    requires !st.done
    decreases |snapshots|
    ensures var r := PollRun(st, snapshots, sleepInterval, maxSeconds, kpSkip);
      r.done && !r.crashed ==> r.killed || Contains(r.lastLine, "Done")
    ensures var r := PollRun(st, snapshots, sleepInterval, maxSeconds, kpSkip);
      r.killed && !st.killed ==> r.done && r.stall >= maxSeconds
  {
    if snapshots != [] && !st.crashed {
      var next := PollStep(st, snapshots[0], sleepInterval, maxSeconds, kpSkip);
      if !next.done {
        EndsForAReason(next, snapshots[1..], sleepInterval, maxSeconds, kpSkip);
      }
    }
  }

  /** A log whose last line stays the same for k polls after it appeared
      accumulates k sleep intervals on the stall timer. */
  lemma {:induction false} StallAccumulates(st: PollState, line: string, k: nat,
                                            sleepInterval: real, maxSeconds: real, kpSkip: int)
    requires st.lastLine == line && !st.done && !st.crashed
    requires st.stall + k as real * sleepInterval < maxSeconds && !Contains(line, "Done")
    requires sleepInterval >= 0.0
    ensures PollRun(st, seq(k, _ => [line]), sleepInterval, maxSeconds, kpSkip)
      == st.(stall := st.stall + k as real * sleepInterval)
    decreases k
  {
    if k > 0 {
      assert k as real * sleepInterval == (k - 1) as real * sleepInterval + sleepInterval;
      assert (k - 1) as real * sleepInterval >= 0.0;
      var snaps := seq(k, _ => [line]);
      var next := PollStep(st, snaps[0], sleepInterval, maxSeconds, kpSkip);
      assert next == st.(stall := st.stall + sleepInterval);
      assert snaps[1..] == seq(k - 1, _ => [line]);
      StallAccumulates(next, line, k - 1, sleepInterval, maxSeconds, kpSkip);
    }
  }

  // ---------------------------------------------------------------------
  // Density bar
  // ---------------------------------------------------------------------

  /** The density ramp of the progress bar, from empty to full. */
  const Ramp: string := ['\U{2550}', '\U{256A}', '\U{2591}', '\U{2592}', '\U{2593}', '\U{2588}']

  function IndexOf(s: string, c: char): (r: Option<nat>)
    ensures r.Some? <==> c in s
    ensures r.Some? ==> r.value < |s| && s[r.value] == c && c !in s[..r.value]
  {
    if s == [] then None
    else if s[0] == c then Some(0)
    else
      match IndexOf(s[1..], c)
      case None => None
      case Some(i) => Some(i + 1)
  }

  /** increase_char: one step up the ramp, staying at the full block; None
      for a character not on the ramp (ValueError). */
  function IncreaseChar(c: char): (r: Option<char>)
    ensures r.Some? <==> c in Ramp
    ensures r.Some? ==> r.value in Ramp
    ensures c == Ramp[5] ==> r == Some(Ramp[5])
    ensures forall k :: 0 <= k < 5 && c == Ramp[k] ==> r == Some(Ramp[k + 1])
  {
    match IndexOf(Ramp, c)
    case None => None
    case Some(i) => Some(Ramp[if |Ramp| - 1 <= i + 1 then |Ramp| - 1 else i + 1])
  }

  /** Raising a cell k times from empty lands on step min(k, 5) of the ramp. */
  function Raise(c: char, k: nat): Option<char>
  {
    if k == 0 then Some(c)
    else match Raise(c, k - 1)
      case None => None
      case Some(d) => IncreaseChar(d)
  }

  lemma {:induction false} RaiseFromEmpty(k: nat)
    ensures Raise(Ramp[0], k) == Some(Ramp[if k < 5 then k else 5])
  {
    if k > 0 {
      RaiseFromEmpty(k - 1);
    }
  }

  /** current_position: the bar cell of a relative position; positions in
      [0, 1) land on the interior cells 1..w of a bar of w + 2 cells. */
  function CurrentPosition(w: nat, position: real): (r: int)
    ensures 0.0 <= position < 1.0 ==> 1 <= r <= w + 1
    ensures 0.0 <= position < 1.0 && w > 0 ==> r <= w
  {
    var x := w as real * position;
    ScaledBelowWidth(w, position);
    Trunc(x) + 1
  }

  lemma ScaledBelowWidth(w: nat, position: real)
    ensures 0.0 <= position < 1.0 ==> 0.0 <= w as real * position
    ensures 0.0 <= position < 1.0 && w > 0 ==> w as real * position < w as real
    ensures 0.0 <= position < 1.0 && w > 0 ==> Trunc(w as real * position) < w
  {
    if 0.0 <= position < 1.0 {
      assert w as real - w as real * position == w as real * (1.0 - position);
    }
  }
}
