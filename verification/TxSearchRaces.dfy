/**
 * The scanner of TxSearch with every access to the two shared atomics as a step of its own. The source orders them in no
 * other way: set_searched_blk_no runs under searching_threads_map_mtx (so one call at a time), the end of a window does not.
 */
module TxSearchRaces {
  import opened TxSearch

  // Where the scanner is. Behind the last block of its window it tests the flag, writes searched_blk_no if the test said
  // no, and clears the flag.
  datatype ScanPc =
    | Between
    | InWindow(h1: nat, h2: nat, current: bool)
    | Tested(h2: nat, current: bool, sawUpdated: bool)
    | Written

  datatype Race = Race(searched: nat, updated: bool, scan: ScanPc, setting: bool, requested: nat, covered: set<nat>)

  datatype RaceStep =
    | Begin(last: nat)
    | TestFlag
    | WriteHeight
    | ClearFlag
    // the two writes of set_searched_blk_no
    | SetHeight(height: nat)
    | SetFlag

  function Start(scannedBlockHeight: nat): Race {
    Race(scannedBlockHeight, false, Between, false, scannedBlockHeight, {})
  }

  predicate CanTake(s: Race, step: RaceStep) {
    match step
    case Begin(_) => s.scan.Between?
    case TestFlag => s.scan.InWindow?
    case WriteHeight => s.scan.Tested?
    case ClearFlag => s.scan.Written?
    case SetHeight(_) => !s.setting
    case SetFlag => s.setting
  }

  function Outdated(scan: ScanPc): ScanPc {
    match scan
    case InWindow(h1, h2, _) => InWindow(h1, h2, false)
    case Tested(h2, _, saw) => Tested(h2, false, saw)
    case _ => scan
  }

  function Take(s: Race, step: RaceStep, lookahead: nat): Race
    requires CanTake(s, step)
  {
    match step
    case Begin(last) =>
      var h2 := WindowEnd(s.searched, lookahead, last);
      if s.searched <= h2 then s.(scan := InWindow(s.searched, h2, true)) else s
    case TestFlag =>
      var scan := s.scan;
      s.(scan := Tested(scan.h2, scan.current, s.updated),
         covered := s.covered + if scan.current then Heights(scan.h1, scan.h2) else {})
    case WriteHeight => s.(searched := if s.scan.sawUpdated then s.searched else s.scan.h2 + 1, scan := Written)
    case ClearFlag => s.(updated := false, scan := Between)
    case SetHeight(height) =>
      s.(searched := height, setting := true, scan := Outdated(s.scan), requested := height, covered := {})
    case SetFlag => s.(updated := true, setting := false)
  }

  ghost predicate RaceRun(s: Race, steps: seq<RaceStep>, lookahead: nat, t: Race)
    decreases |steps|
  {
    if steps == [] then s == t
    else CanTake(s, steps[0]) && RaceRun(Take(s, steps[0], lookahead), steps[1..], lookahead, t)
  }

  ghost predicate Covered(s: Race) {
    forall h | s.requested <= h < s.searched :: h in s.covered
  }

  // The two writes of a request may come at any time, in this order; so may the scanner's steps, in theirs.
  lemma RaceAnyTime(s: Race, height: nat, last: nat)
    ensures if s.setting then CanTake(s, SetFlag) else CanTake(s, SetHeight(height))
    ensures match s.scan
            case Between => CanTake(s, RaceStep.Begin(last))
            case InWindow(_, _, _) => CanTake(s, TestFlag)
            case Tested(_, _, _) => CanTake(s, WriteHeight)
            case Written => CanTake(s, ClearFlag)
  {
  }

  // The history is kept honestly: heights count as scanned only behind a window over them that was begun after the last
  // request; a request forgets them.
  lemma RaceHistoryIsHonest(s: Race, step: RaceStep, lookahead: nat)
    requires CanTake(s, step)
    ensures var t := Take(s, step, lookahead);
            && (forall h | h in t.covered ::
                  h in s.covered || (step.TestFlag? && s.scan.current && s.scan.h1 <= h <= s.scan.h2))
            && (if step.SetHeight? then t.requested == step.height && t.covered == {} else t.requested == s.requested)
            && (t.scan.InWindow? && t.scan.current ==> t.scan == s.scan || (step.Begin? && t.scan.h1 == s.searched))
  {
  }

  // What holds in every interleaving, lost requests or not.
  ghost predicate Sound(s: Race) {
    match s.scan
    case InWindow(h1, h2, current) => if current then h1 == s.searched <= h2 else s.covered == {}
    case Tested(h2, current, saw) =>
      if current then s.searched <= h2 + 1 && forall h | s.searched <= h <= h2 :: h in s.covered else s.covered == {}
    case _ => true
  }

  lemma SoundKept(s: Race, step: RaceStep, lookahead: nat)
    requires Sound(s) && CanTake(s, step)
    ensures Sound(Take(s, step, lookahead))
  {
  }

  // The write of searched_blk_no that overwrites a request: one that came after the window was begun, for a height the
  // window has passed, whose flag the test did not see.
  predicate Overwrites(s: Race, step: RaceStep) {
    step.WriteHeight? && s.scan.Tested? && !s.scan.sawUpdated && !s.scan.current && s.requested <= s.scan.h2
  }

  // From a state without gap a step leads to one with a gap exactly when it is such a write.
  lemma GapExactly(s: Race, step: RaceStep, lookahead: nat)
    requires Sound(s) && Covered(s) && CanTake(s, step)
    ensures !Covered(Take(s, step, lookahead)) <==> Overwrites(s, step)
  {
    if Overwrites(s, step) {
      assert s.requested !in Take(s, step, lookahead).covered;
    }
  }

  ghost predicate NeverOverwrites(s: Race, steps: seq<RaceStep>, lookahead: nat)
    decreases |steps|
  {
    steps == [] || (CanTake(s, steps[0]) && !Overwrites(s, steps[0])
                    && NeverOverwrites(Take(s, steps[0], lookahead), steps[1..], lookahead))
  }

  // A run without such a write leaves no gap.
  lemma {:induction false} CoveredUnlessOverwritten(s: Race, steps: seq<RaceStep>, lookahead: nat, t: Race)
    requires Sound(s) && Covered(s) && RaceRun(s, steps, lookahead, t) && NeverOverwrites(s, steps, lookahead)
    ensures Sound(t) && Covered(t)
    decreases |steps|
  {
    if steps != [] {
      SoundKept(s, steps[0], lookahead);
      GapExactly(s, steps[0], lookahead);
      CoveredUnlessOverwritten(Take(s, steps[0], lookahead), steps[1..], lookahead, t);
    }
  }

  // A run of the source that loses a request for height 0: the scanner tests the flag, the request is stored, and the
  // scanner overwrites it and clears its flag.
  const LOSING_RUN := [RaceStep.Begin(200), TestFlag, SetHeight(0), SetFlag, WriteHeight, ClearFlag]

  lemma RequestLost()
    ensures var t := Race(110, false, Between, false, 0, {});
            RaceRun(Start(100), LOSING_RUN, 10, t) && !Covered(t)
  {
    var t := Race(110, false, Between, false, 0, {});
    var s1 := Race(100, false, InWindow(100, 109, true), false, 100, {});
    var s2 := Race(100, false, Tested(109, true, false), false, 100, Heights(100, 109));
    var s3 := Race(0, false, Tested(109, false, false), true, 0, {});
    var s4 := Race(0, true, Tested(109, false, false), false, 0, {});
    var s5 := Race(110, true, Written, false, 0, {});
    assert Take(Start(100), RaceStep.Begin(200), 10) == s1;
    RunFrom(s5, [ClearFlag], 10, t);
    RunFrom(s4, [WriteHeight, ClearFlag], 10, t);
    RunFrom(s3, [SetFlag, WriteHeight, ClearFlag], 10, t);
    RunFrom(s2, [SetHeight(0), SetFlag, WriteHeight, ClearFlag], 10, t);
    RunFrom(s1, [TestFlag, SetHeight(0), SetFlag, WriteHeight, ClearFlag], 10, t);
    RunFrom(Start(100), LOSING_RUN, 10, t);
    assert 0 !in t.covered;
  }

  lemma RunFrom(s: Race, steps: seq<RaceStep>, lookahead: nat, t: Race)
    requires steps != [] && CanTake(s, steps[0])
    ensures RaceRun(s, steps, lookahead, t) <==> RaceRun(Take(s, steps[0], lookahead), steps[1..], lookahead, t)
  {
  }

  // A height between the requested one and searched_blk_no that the scanner has left behind.
  ghost predicate LeftBehind(s: Race, h: nat) {
    && s.requested <= h < s.searched && h !in s.covered
    && match s.scan
       case InWindow(h1, h2, _) => h < h1 <= h2
       case Tested(h2, _, _) => h <= h2
       case _ => true
  }

  lemma OverwriteLeavesBehind(s: Race, step: RaceStep, lookahead: nat)
    requires Sound(s) && CanTake(s, step) && Overwrites(s, step)
    ensures LeftBehind(Take(s, step, lookahead), s.requested)
  {
  }

  // It stays unscanned whatever the scanner does, until the next request.
  lemma {:induction false} LostUntilNextRequest(s: Race, steps: seq<RaceStep>, lookahead: nat, t: Race, h: nat)
    requires LeftBehind(s, h) && RaceRun(s, steps, lookahead, t)
    requires forall i | 0 <= i < |steps| :: !steps[i].SetHeight?
    ensures LeftBehind(t, h) && t.requested == s.requested
    decreases |steps|
  {
    if steps != [] {
      var next := Take(s, steps[0], lookahead);
      assert forall i | 0 <= i < |steps[1..]| :: steps[1..][i] == steps[i + 1];
      assert LeftBehind(next, h);
      LostUntilNextRequest(next, steps[1..], lookahead, t, h);
    }
  }

  // ---------- uninterrupted updates ----------

  // The scanner as TxSearch sees it, between its steps.
  predicate Settled(s: Race) {
    !s.setting && (s.scan.Between? || s.scan.InWindow?)
  }

  function Coarse(s: Race): Scanner
    requires Settled(s)
  {
    Scanner(s.searched, s.updated, if s.scan.Between? then Idle else Scanning(s.scan.h1, s.scan.h2, s.scan.current),
            s.requested, s.covered)
  }

  function Steps(step: Step): seq<RaceStep> {
    match step
    case Begin(last) => [RaceStep.Begin(last)]
    case End => [TestFlag, WriteHeight, ClearFlag]
    case Request(height) => [SetHeight(height), SetFlag]
  }

  // The steps of TxSearch are these steps with both updates uninterrupted.
  lemma Uninterrupted(s: Race, step: Step, lookahead: nat, t: Race)
    requires Settled(s) && RaceRun(s, Steps(step), lookahead, t)
    ensures Settled(t) && Enabled(Coarse(s), step) && Coarse(t) == Next(Coarse(s), step, lookahead)
  {
    var steps := Steps(step);
    RunFrom(s, steps, lookahead, t);
    var a := Take(s, steps[0], lookahead);
    if !step.Begin? {
      RunFrom(a, steps[1..], lookahead, t);
      assert steps[1..][1..] == steps[2..];
      if step.End? {
        RunFrom(Take(a, steps[1], lookahead), steps[2..], lookahead, t);
      }
    }
  }
}
