/**
 * Picking decoy outputs (src/RandomOutputs.cpp): for each requested amount a bounded number of random draws until
 * outs_count different indices are found.
 */
module RandomOutputs {
  import opened Options

  const MAX_UINT64: nat := 0xFFFF_FFFF_FFFF_FFFF
  const MAX_NO_OF_TRIALS: nat := 100

  // An entry of the output histogram; out_entry, whose key is missing when it could not be fetched; outs_for_amount.
  datatype HistogramEntry = HistogramEntry(amount: nat, unlockedInstances: nat)

  datatype OutEntry = OutEntry(globalAmountIndex: nat, outKey: Option<string>)

  datatype OutsForAmount = OutsForAmount(amount: nat, outs: seq<OutEntry>)

  // What the world outside answers: the histogram (or an error), the random numbers by position in the request and
  // trial, and the keys by amount and index.
  datatype World = World(
    histogram: Option<seq<HistogramEntry>>,
    random: (nat, nat) -> nat,
    key: (nat, nat) -> Option<string>)

  // get_random_output_index: any number from 0 to num_outs, and one less if it is num_outs, in 64-bit arithmetic. (The
  // square root decides how likely each number is.)
  function RandomIndex(random: nat, numOuts: nat): (i: nat)
    ensures if numOuts > 0 then i < numOuts else i == 0xFFFF_FFFF_FFFF_FFFF
  {
    var i := random % (numOuts + 1);
    if i == numOuts then if i == 0 then MAX_UINT64 else i - 1 else i
  }

  // Every output can come out.
  lemma EveryIndexDrawn(i: nat, numOuts: nat)
    requires i < numOuts
    ensures RandomIndex(i, numOuts) == i
  {
  }

  // std::find_if over the histogram
  function EntryFor(histogram: seq<HistogramEntry>, amount: nat): (e: Option<HistogramEntry>)
    ensures e.None? <==> forall i | 0 <= i < |histogram| :: histogram[i].amount != amount
    ensures e.Some? ==> exists i | 0 <= i < |histogram| ::
                          e.value == histogram[i] && histogram[i].amount == amount
                          && forall k | 0 <= k < i :: histogram[k].amount != amount
  {
    if histogram == [] then None
    else if histogram[0].amount == amount then Some(histogram[0])
    else EntryFor(histogram[1..], amount)
  }

  // ---------- what is picked ----------

  // The first n indices drawn for the amount at this position.
  function Drawn(w: World, position: nat, numOuts: nat, n: nat): (d: seq<nat>)
    ensures |d| == n
  {
    if n == 0 then [] else Drawn(w, position, numOuts, n - 1) + [RandomIndex(w.random(position, n - 1), numOuts)]
  }

  // The different elements of s in the order in which they first occur.
  function Distinct(s: seq<nat>): (d: seq<nat>)
    ensures forall x :: x in d <==> x in s
    ensures forall i, j | 0 <= i < j < |d| :: d[i] != d[j]
    ensures |d| <= |s|
  {
    if s == [] then []
    else
      var d := Distinct(s[..|s| - 1]);
      if s[|s| - 1] in d then d else d + [s[|s| - 1]]
  }

  // The outputs for the amount at this position: the first outs_count different indices of the first 101 drawn, if there
  // are so many.
  function Pick(w: World, histogram: seq<HistogramEntry>, amount: nat, position: nat, outsCount: nat): Option<OutsForAmount> {
    match EntryFor(histogram, amount)
    case None => None
    case Some(entry) =>
      var indices := Distinct(Drawn(w, position, entry.unlockedInstances, MAX_NO_OF_TRIALS + 1));
      if |indices| < outsCount then None else Some(OutsForAmount(amount, Entries(w, amount, indices[..outsCount])))
  }

  function Entries(w: World, amount: nat, indices: seq<nat>): (e: seq<OutEntry>)
    ensures |e| == |indices|
  {
    seq(|indices|, i requires 0 <= i < |indices| => OutEntry(indices[i], w.key(amount, indices[i])))
  }

  // The picks for the amounts from a position on, up to the first that fails.
  function Picks(w: World, histogram: seq<HistogramEntry>, amounts: seq<nat>, position: nat, outsCount: nat): (p: seq<OutsForAmount>)
    requires position <= |amounts|
    ensures |p| <= |amounts| - position
    decreases |amounts| - position
  {
    if position == |amounts| then []
    else
      match Pick(w, histogram, amounts[position], position, outsCount)
      case None => []
      case Some(outs) => [outs] + Picks(w, histogram, amounts, position + 1, outsCount)
  }

  // The k-th index drawn comes from the k-th random number.
  lemma {:induction false} DrawnAt(w: World, position: nat, numOuts: nat, n: nat, k: nat)
    requires k < n
    ensures Drawn(w, position, numOuts, n)[k] == RandomIndex(w.random(position, k), numOuts)
    decreases n
  {
    hide RandomIndex;
    if k < n - 1 {
      DrawnAt(w, position, numOuts, n - 1, k);
    }
  }

  lemma DistinctNext(s: seq<nat>, x: nat)
    ensures Distinct(s + [x]) == if x in s then Distinct(s) else Distinct(s) + [x]
  {
  }

  lemma EntriesNext(w: World, amount: nat, indices: seq<nat>, x: nat)
    ensures Entries(w, amount, indices + [x]) == Entries(w, amount, indices) + [OutEntry(x, w.key(amount, x))]
  {
  }

  // ---------- the class ----------

  class RandomOutputs {
    const amounts: seq<nat>
    const outsCount: nat
    var foundOutputs: seq<OutsForAmount>

    constructor (amounts: seq<nat>, outsCount: nat)
      ensures this.amounts == amounts && this.outsCount == outsCount && foundOutputs == []
    {
      this.amounts, this.outsCount, foundOutputs := amounts, outsCount, [];
    }

    // find_random_outputs
    method FindRandomOutputs(w: World) returns (ok: bool)
      modifies this
      ensures w.histogram.None? ==> !ok && foundOutputs == old(foundOutputs)
      ensures w.histogram.Some? ==> foundOutputs == Picks(w, w.histogram.value, amounts, 0, outsCount)
      ensures w.histogram.Some? ==> (ok <==> |foundOutputs| == |amounts|)
    {
      ok := false;
      if w.histogram.Some? {
        ok := FindIn(w, w.histogram.value);
      }
    }

    // The outer loop of find_random_outputs.
    method FindIn(w: World, histogram: seq<HistogramEntry>) returns (ok: bool)
      modifies this
      ensures foundOutputs == Picks(w, histogram, amounts, 0, outsCount)
      ensures ok <==> |foundOutputs| == |amounts|
    {
      hide Pick;
      foundOutputs := [];
      for position := 0 to |amounts|
        invariant |foundOutputs| == position
        invariant Picks(w, histogram, amounts, 0, outsCount)
                  == foundOutputs + Picks(w, histogram, amounts, position, outsCount)
      {
        var outs := PickOne(w, histogram, amounts[position], position);
        if outs.None? {
          return false;
        }
        foundOutputs := foundOutputs + [outs.value];
      }
      ok := true;
    }

    // One turn of the outer loop.
    method PickOne(w: World, histogram: seq<HistogramEntry>, amount: nat, position: nat) returns (outs: Option<OutsForAmount>)
      ensures outs == Pick(w, histogram, amount, position, outsCount)
    {
      hide Distinct, Drawn, Entries, EntryFor;
      var entry := EntryFor(histogram, amount);
      if entry.None? {
        return None;
      }
      var found := Sample(w, amount, position, entry.value.unlockedInstances);
      outs := if found.None? then None else Some(OutsForAmount(amount, found.value));
    }

    // The loop of find_random_outputs for one amount.
    method Sample(w: World, amount: nat, position: nat, numOuts: nat) returns (outs: Option<seq<OutEntry>>)
      ensures var indices := Distinct(Drawn(w, position, numOuts, MAX_NO_OF_TRIALS + 1));
              outs == if |indices| < outsCount then None else Some(Entries(w, amount, indices[..outsCount]))
    {
      hide Distinct, Entries, RandomIndex;
      var seenIndices: set<nat> := {};
      var found: seq<OutEntry> := [];
      var trial := 0;
      ghost var drawn: seq<nat>, indices: seq<nat> := [], [];
      while |seenIndices| < outsCount
        invariant trial <= MAX_NO_OF_TRIALS + 1
        invariant drawn == Drawn(w, position, numOuts, trial) && indices == Distinct(drawn)
        invariant |indices| == |seenIndices| <= outsCount && forall x :: x in seenIndices <==> x in indices
        invariant found == Entries(w, amount, indices)
        decreases MAX_NO_OF_TRIALS + 1 - trial
      {
        if trial > MAX_NO_OF_TRIALS {
          return None;
        }
        var index := RandomIndex(w.random(position, trial), numOuts);
        trial := trial + 1;
        DistinctNext(drawn, index);
        EntriesNext(w, amount, indices, index);
        drawn := drawn + [index];
        if index in seenIndices {
          continue;
        }
        seenIndices, indices := seenIndices + {index}, indices + [index];
        found := found + [OutEntry(index, w.key(amount, index))];
      }
      MoreDraws(w, position, numOuts, trial, MAX_NO_OF_TRIALS + 1);
      assert indices == Distinct(Drawn(w, position, numOuts, MAX_NO_OF_TRIALS + 1))[..outsCount];
      outs := Some(found);
    }
  }

  // Further draws only add indices at the end.
  lemma {:induction false} MoreDraws(w: World, position: nat, numOuts: nat, m: nat, n: nat)
    requires m <= n
    ensures Distinct(Drawn(w, position, numOuts, m)) <= Distinct(Drawn(w, position, numOuts, n))
    decreases n
  {
    if m < n {
      MoreDraws(w, position, numOuts, m, n - 1);
      var d := Drawn(w, position, numOuts, n);
      assert d[..n - 1] == Drawn(w, position, numOuts, n - 1);
    }
  }

  // ---------- what the picks are like ----------

  ghost predicate NoRepeats(s: seq<nat>) {
    forall i, j | 0 <= i < j < |s| :: s[i] != s[j]
  }

  // As many different elements fit into t as t has places.
  lemma {:induction false} Pigeonhole(s: seq<nat>, t: seq<nat>)
    requires NoRepeats(s) && forall x :: x in s ==> x in t
    ensures |s| <= |t|
  {
    if s != [] {
      var front, last := s[..|s| - 1], s[|s| - 1];
      assert last in s;
      var k :| 0 <= k < |t| && t[k] == last;
      var rest := t[..k] + t[k + 1..];
      forall x | x in front ensures x in rest {
        var i :| 0 <= i < |front| && front[i] == x;
        assert s[i] == x && x in s;
        var m :| 0 <= m < |t| && t[m] == x;
        assert m != k;
        assert rest[if m < k then m else m - 1] == x;
      }
      Pigeonhole(front, rest);
    }
  }

  predicate InRange(d: nat, numOuts: nat) {
    if numOuts > 0 then d < numOuts else d == MAX_UINT64
  }

  lemma {:induction false} DrawnRange(w: World, position: nat, numOuts: nat, n: nat)
    ensures forall d :: d in Drawn(w, position, numOuts, n) ==> InRange(d, numOuts)
  {
    hide RandomIndex;
    if n > 0 {
      DrawnRange(w, position, numOuts, n - 1);
    }
  }

  ghost predicate GoodPick(w: World, o: OutsForAmount, amount: nat, numOuts: nat, outsCount: nat) {
    && o.amount == amount && |o.outs| == outsCount
    && (forall i, j | 0 <= i < j < |o.outs| :: o.outs[i].globalAmountIndex != o.outs[j].globalAmountIndex)
    && (forall i | 0 <= i < |o.outs| :: o.outs[i].outKey == w.key(amount, o.outs[i].globalAmountIndex))
    && (forall i | 0 <= i < |o.outs| :: InRange(o.outs[i].globalAmountIndex, numOuts))
  }

  // A successful pick has outs_count different indices, all below the number of outputs if there are any, each with the
  // key found for it; and so many can only be asked for if there are as many outputs and trials.
  lemma PickIsGood(w: World, histogram: seq<HistogramEntry>, amount: nat, position: nat, outsCount: nat)
    requires Pick(w, histogram, amount, position, outsCount).Some?
    ensures EntryFor(histogram, amount).Some?
    ensures var numOuts := EntryFor(histogram, amount).value.unlockedInstances;
            && GoodPick(w, Pick(w, histogram, amount, position, outsCount).value, amount, numOuts, outsCount)
            && outsCount <= 101
            && outsCount <= if numOuts > 0 then numOuts else 1
  {
    var numOuts := EntryFor(histogram, amount).value.unlockedInstances;
    var drawn := Drawn(w, position, numOuts, MAX_NO_OF_TRIALS + 1);
    hide EntryFor, Drawn, Distinct, InRange;
    DrawnRange(w, position, numOuts, MAX_NO_OF_TRIALS + 1);
    var indices := Distinct(drawn)[..outsCount];
    assert forall i | 0 <= i < |indices| :: indices[i] == Distinct(drawn)[i] && indices[i] in drawn;
    RangeSize(indices, numOuts);
  }

  lemma RangeSize(s: seq<nat>, numOuts: nat)
    requires NoRepeats(s) && forall i | 0 <= i < |s| :: InRange(s[i], numOuts)
    ensures |s| <= if numOuts > 0 then numOuts else 1
  {
    var all := if numOuts > 0 then seq(numOuts, i => i) else [MAX_UINT64];
    forall x | x in s ensures x in all {
      assert InRange(x, numOuts);
      assert numOuts > 0 ==> all[x] == x;
    }
    Pigeonhole(s, all);
  }

  // A choice of n different drawn indices.
  ghost predicate Chosen(indices: seq<nat>, n: nat, drawn: seq<nat>) {
    |indices| == n && NoRepeats(indices) && forall i | 0 <= i < |indices| :: indices[i] in drawn
  }

  // The amount has an entry, and outs_count different indices can be chosen from its first 101 draws.
  ghost predicate EnoughDrawn(w: World, histogram: seq<HistogramEntry>, amount: nat, position: nat, outsCount: nat) {
    && EntryFor(histogram, amount).Some?
    && var drawn := Drawn(w, position, EntryFor(histogram, amount).value.unlockedInstances, 101);
       exists indices :: Chosen(indices, outsCount, drawn)
  }

  // Distinct holds as many indices as can be chosen without repeats.
  lemma PickPossible(w: World, histogram: seq<HistogramEntry>, amount: nat, position: nat, outsCount: nat)
    ensures Pick(w, histogram, amount, position, outsCount).Some? <==> EnoughDrawn(w, histogram, amount, position, outsCount)
  {
    hide EntryFor, Drawn, Distinct, Entries;
    var entry := EntryFor(histogram, amount);
    if entry.Some? {
      var drawn := Drawn(w, position, entry.value.unlockedInstances, MAX_NO_OF_TRIALS + 1);
      if |Distinct(drawn)| >= outsCount {
        var indices := Distinct(drawn)[..outsCount];
        assert forall i | 0 <= i < |indices| :: indices[i] == Distinct(drawn)[i] && indices[i] in drawn;
        assert NoRepeats(indices);
        assert Chosen(indices, outsCount, drawn);
      }
      if indices :| Chosen(indices, outsCount, drawn) {
        Pigeonhole(indices, Distinct(drawn));
      }
    }
  }

  // The picks stop before the first amount that fails.
  lemma {:induction false} PicksStop(w: World, histogram: seq<HistogramEntry>, amounts: seq<nat>, position: nat, outsCount: nat)
    requires position <= |amounts|
    ensures var p := Picks(w, histogram, amounts, position, outsCount);
            && (forall q | position <= q < position + |p| :: Pick(w, histogram, amounts[q], q, outsCount) == Some(p[q - position]))
            && (position + |p| < |amounts| ==> Pick(w, histogram, amounts[position + |p|], position + |p|, outsCount) == None)
    decreases |amounts| - position
  {
    hide Pick;
    if position < |amounts| {
      PicksStop(w, histogram, amounts, position + 1, outsCount);
    }
  }

  // find_random_outputs succeeds exactly when every amount is in the histogram and its first 101 draws hold outs_count
  // different indices; then there is one good entry for each amount, in order.
  lemma SuccessExactly(w: World, histogram: seq<HistogramEntry>, amounts: seq<nat>, outsCount: nat)
    ensures var found := Picks(w, histogram, amounts, 0, outsCount);
            && (|found| == |amounts| <==> forall p | 0 <= p < |amounts| :: EnoughDrawn(w, histogram, amounts[p], p, outsCount))
            && (forall p | 0 <= p < |found| ::
                  && EntryFor(histogram, amounts[p]).Some?
                  && GoodPick(w, found[p], amounts[p], EntryFor(histogram, amounts[p]).value.unlockedInstances, outsCount))
            && (found != [] ==> outsCount <= 101)
  {
    var found := Picks(w, histogram, amounts, 0, outsCount);
    PicksStop(w, histogram, amounts, 0, outsCount);
    hide EntryFor, Drawn, Distinct, Picks, Entries, GoodPick;
    hide Pick, EnoughDrawn;
    forall p | 0 <= p < |amounts|
      ensures EnoughDrawn(w, histogram, amounts[p], p, outsCount) <==> Pick(w, histogram, amounts[p], p, outsCount).Some?
    {
      PickPossible(w, histogram, amounts[p], p, outsCount);
    }
    forall p | 0 <= p < |found|
      ensures EntryFor(histogram, amounts[p]).Some?
      ensures GoodPick(w, found[p], amounts[p], EntryFor(histogram, amounts[p]).value.unlockedInstances, outsCount)
      ensures outsCount <= 101
    {
      PickIsGood(w, histogram, amounts[p], p, outsCount);
    }
    if found != [] {
      PickIsGood(w, histogram, amounts[0], 0, outsCount);
    }
  }

  // Nothing but bad luck fails otherwise: whenever outs_count is at most 101 and at most the number of outputs (or 1 when
  // there are none) some random numbers make the pick succeed, here those that count upwards.
  lemma PickCanSucceed(w: World, histogram: seq<HistogramEntry>, amount: nat, position: nat, outsCount: nat)
    requires forall k :: w.random(position, k) == k
    requires EntryFor(histogram, amount).Some?
    requires outsCount <= 101
    requires var numOuts := EntryFor(histogram, amount).value.unlockedInstances;
             outsCount <= if numOuts > 0 then numOuts else 1
    ensures Pick(w, histogram, amount, position, outsCount).Some?
  {
    var numOuts := EntryFor(histogram, amount).value.unlockedInstances;
    var drawn := Drawn(w, position, numOuts, 101);
    hide EntryFor, Drawn, Pick;
    var indices := seq(outsCount, k requires 0 <= k < outsCount => RandomIndex(k, numOuts));
    forall k | 0 <= k < outsCount ensures indices[k] in drawn && (numOuts > 0 ==> indices[k] == k) {
      DrawnAt(w, position, numOuts, 101, k);
      assert drawn[k] == indices[k];
      if numOuts > 0 {
        EveryIndexDrawn(k, numOuts);
      }
    }
    assert Chosen(indices, outsCount, drawn);
    PickPossible(w, histogram, amount, position, outsCount);
  }
}
