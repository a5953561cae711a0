/**
 * The block scanner of one account (src/TxSearch.cpp): a thread that walks the chain in windows while other threads send
 * it to another height with set_searched_blk_no. Here set_searched_blk_no and the update at the end of a window are one
 * step each; TxSearchRaces takes them apart.
 */
module TxSearch {
  const UINT64: nat := 0x1_0000_0000_0000_0000

  // Between two windows, or inside the window h1..h2; current says that no request came since the window was begun.
  datatype Pc = Idle | Scanning(h1: nat, h2: nat, current: bool)

  // searched_blk_no and searched_block_got_updated; the window; and as history the last requested height and the heights
  // scanned by windows begun after that request.
  datatype Scanner = Scanner(searched: nat, updated: bool, pc: Pc, requested: nat, covered: set<nat>)

  datatype Step =
    // the scanner looks for a window, on a chain whose last block is `last`; finishes its window
    | Begin(last: nat)
    | End
    // another thread calls set_searched_blk_no
    | Request(height: nat)

  function Initial(scannedBlockHeight: nat): Scanner {
    Scanner(scannedBlockHeight, false, Idle, scannedBlockHeight, {})
  }

  // h2 of the window that starts at h1, in 64-bit arithmetic
  function WindowEnd(h1: nat, lookahead: nat, last: nat): nat {
    var end := (h1 + lookahead - 1) % UINT64;
    if end < last then end else last
  }

  predicate Between(h: nat, from: nat, to: nat) {
    from <= h <= to
  }

  function Heights(from: nat, to: nat): set<nat> {
    set h | from <= h <= to && Between(h, from, to)
  }

  function BeginWindow(s: Scanner, lookahead: nat, last: nat): Scanner {
    var h2 := WindowEnd(s.searched, lookahead, last);
    if s.searched <= h2 then s.(pc := Scanning(s.searched, h2, true)) else s
  }

  function EndWindow(s: Scanner): Scanner
    requires s.pc.Scanning?
  {
    Scanner(
      if s.updated then s.searched else s.pc.h2 + 1,
      false,
      Idle,
      s.requested,
      s.covered + if s.pc.current then Heights(s.pc.h1, s.pc.h2) else {})
  }

  function SetSearched(s: Scanner, height: nat): Scanner {
    Scanner(height, true, if s.pc.Scanning? then s.pc.(current := false) else Idle, height, {})
  }

  predicate Enabled(s: Scanner, step: Step) {
    match step
    case Begin(_) => s.pc.Idle?
    case End => s.pc.Scanning?
    case Request(_) => true
  }

  function Next(s: Scanner, step: Step, lookahead: nat): Scanner
    requires Enabled(s, step)
  {
    match step
    case Begin(last) => BeginWindow(s, lookahead, last)
    case End => EndWindow(s)
    case Request(height) => SetSearched(s, height)
  }

  ghost predicate Run(s: Scanner, steps: seq<Step>, lookahead: nat, t: Scanner)
    decreases |steps|
  {
    if steps == [] then s == t
    else Enabled(s, steps[0]) && Run(Next(s, steps[0], lookahead), steps[1..], lookahead, t)
  }

  // ---------- no block is skipped ----------

  // All heights from the last requested one up to searched_blk_no were scanned by windows begun after that request.
  ghost predicate Coverage(s: Scanner) {
    forall h | s.requested <= h < s.searched :: h in s.covered
  }

  ghost predicate Invariant(s: Scanner) {
    && Coverage(s)
    && (s.updated ==> s.searched == s.requested)
    && (s.pc.Scanning? ==> if s.pc.current then s.pc.h1 == s.searched <= s.pc.h2 else s.updated)
  }

  lemma {:induction false} RunKeeps(s: Scanner, steps: seq<Step>, lookahead: nat, t: Scanner)
    requires Invariant(s) && Run(s, steps, lookahead, t)
    ensures Invariant(t)
    decreases |steps|
  {
    if steps != [] {
      RunKeeps(Next(s, steps[0], lookahead), steps[1..], lookahead, t);
    }
  }

  // In every interleaving of windows and requests, whatever the chain and the lookahead, no height is skipped.
  lemma AlwaysCovered(start: nat, steps: seq<Step>, lookahead: nat, t: Scanner)
    requires Run(Initial(start), steps, lookahead, t)
    ensures Coverage(t)
  {
    RunKeeps(Initial(start), steps, lookahead, t);
  }

  // Requests may come at any time, between windows and inside them; a window ends before the next is looked for.
  lemma AnyTime(s: Scanner, height: nat, last: nat)
    ensures Enabled(s, Request(height))
    ensures Enabled(s, Begin(last)) <==> s.pc == Idle
    ensures Enabled(s, End) <==> s.pc != Idle
  {
  }

  // The history is kept honestly: heights count as scanned only when a window over them ends that was begun after the
  // last request, at the height where the scan stood; a request forgets them.
  lemma HistoryIsHonest(s: Scanner, step: Step, lookahead: nat)
    requires Enabled(s, step)
    ensures var t := Next(s, step, lookahead);
            && (forall h | h in t.covered ::
                  h in s.covered || (step.End? && s.pc.current && s.pc.h1 <= h <= s.pc.h2))
            && (if step.Request? then t.requested == step.height && t.covered == {} else t.requested == s.requested)
            && (t.pc.Scanning? && t.pc.current ==> t.pc == s.pc || (step.Begin? && t.pc.h1 == s.searched && t.pc.h2 <= step.last))
            && (step.Request? ==> t.pc.Scanning? ==> !t.pc.current)
  {
  }

  // A request is not overwritten by the window it arrived in.
  lemma RequestSurvivesWindow(s: Scanner, height: nat)
    requires s.pc.Scanning?
    ensures EndWindow(SetSearched(s, height)).searched == height
  {
  }

  // ---------- how soon the chain is covered ----------

  // There is a window to scan exactly when the chain is long enough and the 64-bit sum does not wrap around (or wraps
  // around below zero).
  lemma WindowBegins(h1: nat, lookahead: nat, last: nat)
    requires h1 < UINT64 && lookahead < UINT64 && last < UINT64
    ensures h1 <= WindowEnd(h1, lookahead, last)
            <==> h1 <= last && if lookahead == 0 then h1 == 0 else h1 + lookahead <= UINT64
    ensures 0 < lookahead && h1 + lookahead <= 0x1_0000_0000_0000_0000 ==>
              WindowEnd(h1, lookahead, last) == if h1 + lookahead <= last then h1 + lookahead - 1 else last
  {
  }

  // The first window of a new scanner begins at the stored height.
  lemma FirstWindow(scannedBlockHeight: nat, lookahead: nat, last: nat)
    requires scannedBlockHeight <= last && 0 < lookahead && last + lookahead < UINT64
    ensures var s := Next(Initial(scannedBlockHeight), Begin(last), lookahead);
            && s.pc.Scanning? && s.pc.h1 == scannedBlockHeight <= s.pc.h2 <= last
            && s.searched == s.requested == scannedBlockHeight && s.covered == {}
  {
    WindowDone(scannedBlockHeight, last, lookahead);
  }

  function Ends(steps: seq<Step>): nat {
    if steps == [] then 0 else (if steps[0].End? then 1 else 0) + Ends(steps[1..])
  }

  // No requests come, and the last block stays at height `last`.
  predicate Quiet(steps: seq<Step>, last: nat) {
    forall i | 0 <= i < |steps| :: steps[i] == Begin(last) || steps[i] == End
  }

  // The number of windows of this length that reach from a height to the last block.
  function Windows(from: nat, last: nat, lookahead: nat): (w: nat)
    requires lookahead > 0
    ensures w == 0 <==> from > last
    decreases if from <= last then last + 1 - from else 0
  {
    if from > last then 0 else 1 + Windows(from + lookahead, last, lookahead)
  }

  // It is the number of blocks divided by the length, rounded up.
  lemma {:induction false} WindowsIsCeiling(from: nat, last: nat, lookahead: nat)
    requires lookahead > 0 && from <= last
    ensures var w := Windows(from, last, lookahead);
            (w - 1) * lookahead < last + 1 - from <= w * lookahead
    decreases last - from
  {
    var w := Windows(from, last, lookahead);
    assert w * lookahead == (w - 1) * lookahead + lookahead;
    if from + lookahead <= last {
      WindowsIsCeiling(from + lookahead, last, lookahead);
      assert (w - 1) * lookahead == (w - 2) * lookahead + lookahead;
    }
  }

  // The windows that are still needed: the flag costs one more.
  function Needed(s: Scanner, last: nat, lookahead: nat): nat
    requires lookahead > 0
  {
    Windows(s.searched, last, lookahead) + if s.updated then 1 else 0
  }

  // A window of full length, or one that reaches the last block, leaves one window less to do.
  lemma WindowDone(from: nat, last: nat, lookahead: nat)
    requires 0 < lookahead && from <= last && last + lookahead < UINT64
    ensures from <= WindowEnd(from, lookahead, last) <= last
    ensures Windows(WindowEnd(from, lookahead, last) + 1, last, lookahead) + 1 == Windows(from, last, lookahead)
  {
  }

  // A window begun after the last request reaches as far as this chain and lookahead let it.
  predicate OnChain(s: Scanner, lookahead: nat, last: nat) {
    && s.searched <= last + 1
    && (s.pc.Scanning? && s.pc.current ==> s.pc.h2 == WindowEnd(s.searched, lookahead, last))
  }

  lemma ProgressStep(s: Scanner, step: Step, lookahead: nat, last: nat)
    requires Invariant(s) && OnChain(s, lookahead, last) && Enabled(s, step) && (step == Begin(last) || step == End)
    requires 0 < lookahead && last + lookahead < UINT64
    ensures var t := Next(s, step, lookahead);
            && OnChain(t, lookahead, last) && t.requested == s.requested
            && Needed(t, last, lookahead) + (if step.End? then 1 else 0) == Needed(s, last, lookahead)
  {
  }

  // On a chain that stays as it is, every completed window brings the number of windows still needed down by one.
  lemma {:induction false} Progress(s: Scanner, steps: seq<Step>, lookahead: nat, last: nat, t: Scanner)
    requires Invariant(s) && OnChain(s, lookahead, last) && Run(s, steps, lookahead, t) && Quiet(steps, last)
    requires 0 < lookahead && last + lookahead < UINT64
    ensures OnChain(t, lookahead, last) && t.requested == s.requested
    ensures Ends(steps) + Needed(t, last, lookahead) == Needed(s, last, lookahead)
    decreases |steps|
  {
    if steps != [] {
      ProgressStep(s, steps[0], lookahead, last);
      RunKeeps(s, [steps[0]], lookahead, Next(s, steps[0], lookahead));
      assert forall i | 0 <= i < |steps[1..]| :: steps[1..][i] == steps[i + 1];
      Progress(Next(s, steps[0], lookahead), steps[1..], lookahead, last, t);
    }
  }

  // After a request for a height on the chain, at most 1 + Windows(height, last, lookahead) windows are completed;
  // as long as there are fewer the scanner finds a window to begin or is inside one; and when there are that many every
  // height from the requested one to the last block was scanned after the request.
  lemma RequestIsServed(s: Scanner, height: nat, steps: seq<Step>, lookahead: nat, last: nat, t: Scanner)
    requires Invariant(s) && height <= last && 0 < lookahead && last + lookahead < UINT64
    requires Run(SetSearched(s, height), steps, lookahead, t) && Quiet(steps, last)
    ensures var bound := 1 + Windows(height, last, lookahead);
            && Ends(steps) <= bound
            && (Ends(steps) < bound ==> t.pc.Scanning? || BeginWindow(t, lookahead, last).pc.Scanning?)
            && (Ends(steps) == bound ==> forall h | height <= h <= last :: h in t.covered)
  {
    var r := SetSearched(s, height);
    Progress(r, steps, lookahead, last, t);
    RunKeeps(r, steps, lookahead, t);
    if t.searched <= last {
      WindowDone(t.searched, last, lookahead);
    }
  }

  // ---------- the class ----------

  // The fields of TxSearch that the scan loop and set_searched_blk_no share. Window and history are kept beside them.
  class TxSearch {
    var searchedBlkNo: nat
    var searchedBlockGotUpdated: bool
    ghost var pc: Pc
    ghost var requested: nat
    ghost var covered: set<nat>

    constructor (scannedBlockHeight: nat)
      ensures View() == Initial(scannedBlockHeight)
      ensures searchedBlkNo == scannedBlockHeight && !searchedBlockGotUpdated
    {
      searchedBlkNo, searchedBlockGotUpdated := scannedBlockHeight, false;
      pc, requested, covered := Idle, scannedBlockHeight, {};
    }

    ghost function View(): Scanner
      reads this
    {
      Scanner(searchedBlkNo, searchedBlockGotUpdated, pc, requested, covered)
    }

    method SetSearchedBlkNo(newValue: nat)
      modifies this
      ensures View() == SetSearched(old(View()), newValue)
    {
      searchedBlkNo := newValue;
      searchedBlockGotUpdated := true;
      if pc.Scanning? {
        pc := pc.(current := false);
      }
      requested, covered := newValue, {};
    }

    // The head of the scan loop: the window, or nothing but waiting when there are no blocks to read.
    method ChooseWindow(blocksLookahead: nat, lastBlockHeight: nat) returns (h1: nat, h2: nat)
      requires pc.Idle?
      modifies this`pc
      ensures View() == BeginWindow(old(View()), blocksLookahead, lastBlockHeight)
      ensures h1 == searchedBlkNo && h2 == WindowEnd(h1, blocksLookahead, lastBlockHeight)
      ensures h1 <= h2 ==> pc == Scanning(h1, h2, true)
    {
      h1 := searchedBlkNo;
      h2 := (h1 + blocksLookahead - 1) % UINT64;
      if lastBlockHeight <= h2 {
        h2 := lastBlockHeight;
      }
      if h1 <= h2 {
        pc := Scanning(h1, h2, true);
      }
    }

    // The end of the scan loop, for the window that ends at h2.
    method FinishWindow(h2: nat)
      requires pc.Scanning? && pc.h2 == h2
      modifies this
      ensures View() == EndWindow(old(View()))
    {
      if !searchedBlockGotUpdated {
        searchedBlkNo := h2 + 1;
      }
      searchedBlockGotUpdated := false;
      if pc.current {
        covered := covered + Heights(pc.h1, pc.h2);
      }
      pc := Idle;
    }
  }
}
