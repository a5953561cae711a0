/**
 * What the scanner sees of the chain: the blocks of a window flattened into parallel vectors (src/CurrentBlockchainStatus.cpp)
 * and walked with one running index (src/TxSearch.cpp). Block ranges are complete, and the transaction store answers in
 * the order of the request.
 */
module BlockStream {
  import opened Options
  import TxSearch

  type Hash = nat

  datatype Transaction = Transaction(blob: string)

  // A block; height is what its coinbase transaction says.
  datatype Block = Block(height: nat, timestamp: nat, minerTx: Hash, txHashes: seq<Hash>)

  // txs_tuple_t
  datatype TxData = TxData(height: nat, timestamp: nat, coinbase: bool)

  // One turn of the scanner's loop: what it knows about the transaction at hand.
  datatype Entry = Entry(hash: Hash, tx: Transaction, data: TxData)

  type Store = map<Hash, Transaction>

  // ---------- flattening a window ----------

  function BlockHashes(b: Block): seq<Hash> {
    [b.minerTx] + b.txHashes
  }

  function BlockData(b: Block, height: nat): (d: seq<TxData>)
    ensures |d| == |BlockHashes(b)|
  {
    [TxData(height, b.timestamp, true)] + seq(|b.txHashes|, _ => TxData(height, b.timestamp, false))
  }

  function Hashes(blocks: seq<Block>): seq<Hash> {
    if blocks == [] then [] else BlockHashes(blocks[0]) + Hashes(blocks[1..])
  }

  // Numbered from height on.
  function Data(blocks: seq<Block>, height: nat): (d: seq<TxData>)
    ensures |d| == |Hashes(blocks)|
  {
    if blocks == [] then [] else BlockData(blocks[0], height) + Data(blocks[1..], height + 1)
  }

  lemma {:induction false} OneMoreBlock(blocks: seq<Block>, i: nat, height: nat)
    requires i < |blocks|
    ensures Hashes(blocks[..i + 1]) == Hashes(blocks[..i]) + BlockHashes(blocks[i])
    ensures Data(blocks[..i + 1], height) == Data(blocks[..i], height) + BlockData(blocks[i], height + i)
  {
    if i == 0 {
      assert blocks[..1][1..] == [];
    } else {
      OneMoreBlock(blocks[1..], i - 1, height + 1);
      assert blocks[..i + 1][1..] == blocks[1..][..i] && blocks[..i][1..] == blocks[1..][..i - 1];
    }
  }

  // init_txs_data_vector
  method InitTxsDataVector(blocks: seq<Block>) returns (txsToGet: seq<Hash>, txsData: seq<TxData>)
    requires blocks != []
    ensures txsToGet == Hashes(blocks) && txsData == Data(blocks, blocks[0].height)
  {
    var h1 := blocks[0].height;
    txsToGet, txsData := [], [];
    for i := 0 to |blocks|
      invariant txsToGet == Hashes(blocks[..i]) && txsData == Data(blocks[..i], h1)
    {
      hide Hashes, Data;
      var blk, blkHeight := blocks[i], h1 + i;
      ghost var hashes, data := BlockHashes(blk), BlockData(blk, blkHeight);
      ghost var hashesBefore, dataBefore := txsToGet, txsData;
      txsData := txsData + [TxData(blkHeight, blk.timestamp, true)];
      txsToGet := txsToGet + [blk.minerTx];
      for k := 0 to |blk.txHashes|
        invariant txsToGet == hashesBefore + hashes[..k + 1] && txsData == dataBefore + data[..k + 1]
      {
        assert hashes[..k + 2] == hashes[..k + 1] + [blk.txHashes[k]];
        assert data[..k + 2] == data[..k + 1] + [TxData(blkHeight, blk.timestamp, false)];
        txsData := txsData + [TxData(blkHeight, blk.timestamp, false)];
        txsToGet := txsToGet + [blk.txHashes[k]];
      }
      OneMoreBlock(blocks, i, h1);
    }
    assert blocks[..|blocks|] == blocks;
  }

  // get_txs: the known transactions in the order asked for, and the unknown hashes
  function Found(store: Store, hashes: seq<Hash>): seq<Transaction> {
    if hashes == [] then [] else (if hashes[0] in store then [store[hashes[0]]] else []) + Found(store, hashes[1..])
  }

  function Missed(store: Store, hashes: seq<Hash>): seq<Hash> {
    if hashes == [] then [] else (if hashes[0] in store then [] else [hashes[0]]) + Missed(store, hashes[1..])
  }

  ghost predicate Known(store: Store, hashes: seq<Hash>) {
    forall i | 0 <= i < |hashes| :: hashes[i] in store
  }

  lemma {:induction false} FoundInOrder(store: Store, hashes: seq<Hash>)
    ensures |Found(store, hashes)| + |Missed(store, hashes)| == |hashes|
    ensures Missed(store, hashes) == [] <==> Known(store, hashes)
    ensures Known(store, hashes) ==> forall i | 0 <= i < |hashes| :: Found(store, hashes)[i] == store[hashes[i]]
  {
    if hashes != [] {
      FoundInOrder(store, hashes[1..]);
      assert forall i | 0 <= i < |hashes[1..]| :: hashes[1..][i] == hashes[i + 1];
      if Missed(store, hashes) == [] {
        assert forall i | 0 < i < |hashes| :: hashes[i] == hashes[1..][i - 1];
      }
    }
  }

  // get_txs_in_blocks
  method GetTxsInBlocks(blocks: seq<Block>, store: Store)
    returns (ok: bool, txsHashes: seq<Hash>, txs: seq<Transaction>, txsData: seq<TxData>)
    requires blocks != []
    ensures txsHashes == Hashes(blocks) && txsData == Data(blocks, blocks[0].height)
    ensures ok <==> Known(store, txsHashes)
    ensures ok ==> |txs| == |txsHashes| && forall i | 0 <= i < |txs| :: txs[i] == store[txsHashes[i]]
  {
    txsHashes, txsData := InitTxsDataVector(blocks);
    txs := Found(store, txsHashes);
    var missedTxs := Missed(store, txsHashes);
    ok := !(missedTxs != [] || |txsHashes| != |txs|);
    FoundInOrder(store, txsHashes);
  }

  // ---------- block by block ----------

  // All transactions of a block are in the store.
  ghost predicate KnownBlock(store: Store, b: Block) {
    b.minerTx in store && forall k | 0 <= k < |b.txHashes| :: b.txHashes[k] in store
  }

  // The transactions of one block: the coinbase transaction first, each with the block's own height and timestamp.
  function BlockEntries(store: Store, b: Block): (e: seq<Entry>)
    requires KnownBlock(store, b)
    ensures |e| == 1 + |b.txHashes|
  {
    [Entry(b.minerTx, store[b.minerTx], TxData(b.height, b.timestamp, true))]
    + seq(|b.txHashes|, k requires 0 <= k < |b.txHashes| =>
        Entry(b.txHashes[k], store[b.txHashes[k]], TxData(b.height, b.timestamp, false)))
  }

  ghost predicate KnownChain(store: Store, blocks: seq<Block>) {
    forall i | 0 <= i < |blocks| :: KnownBlock(store, blocks[i])
  }

  function Stream(store: Store, blocks: seq<Block>): seq<Entry>
    requires KnownChain(store, blocks)
  {
    if blocks == [] then [] else BlockEntries(store, blocks[0]) + Stream(store, blocks[1..])
  }

  // In the stream of a single block the miner transaction comes first and is the only coinbase one; the others follow in
  // the block's order.
  lemma StreamOfBlock(store: Store, b: Block)
    requires KnownBlock(store, b)
    ensures KnownChain(store, [b]) && |Stream(store, [b])| == 1 + |b.txHashes|
    ensures Stream(store, [b])[0] == Entry(b.minerTx, store[b.minerTx], TxData(b.height, b.timestamp, true))
    ensures forall k | 0 <= k < |b.txHashes| ::
              Stream(store, [b])[k + 1] == Entry(b.txHashes[k], store[b.txHashes[k]], TxData(b.height, b.timestamp, false))
  {
    assert [b][1..] == [];
    assert Stream(store, [b]) == BlockEntries(store, b);
  }

  // Consecutive blocks, the first at this height.
  ghost predicate Chained(blocks: seq<Block>, height: nat) {
    forall i | 0 <= i < |blocks| :: blocks[i].height == height + i
  }

  lemma ChainedRest(blocks: seq<Block>, height: nat)
    requires Chained(blocks, height) && blocks != []
    ensures Chained(blocks[1..], height + 1)
  {
  }

  lemma {:induction false} KnownHashes(store: Store, blocks: seq<Block>)
    ensures Known(store, Hashes(blocks)) <==> KnownChain(store, blocks)
  {
    if blocks != [] {
      KnownHashes(store, blocks[1..]);
      KnownParts(store, BlockHashes(blocks[0]), Hashes(blocks[1..]));
      KnownInBlock(store, blocks[0]);
      assert KnownChain(store, blocks) <==> KnownBlock(store, blocks[0]) && KnownChain(store, blocks[1..]) by {
        assert forall i | 0 < i < |blocks| :: blocks[i] == blocks[1..][i - 1];
      }
    }
  }

  lemma KnownInBlock(store: Store, b: Block)
    ensures Known(store, BlockHashes(b)) <==> KnownBlock(store, b)
  {
    var hashes := BlockHashes(b);
    assert hashes[0] == b.minerTx && forall k | 0 <= k < |b.txHashes| :: b.txHashes[k] == hashes[k + 1];
  }

  lemma KnownParts(store: Store, a: seq<Hash>, b: seq<Hash>)
    ensures Known(store, a + b) <==> Known(store, a) && Known(store, b)
  {
    if Known(store, a + b) {
      assert forall i | 0 <= i < |a| :: a[i] == (a + b)[i];
      assert forall i | 0 <= i < |b| :: b[i] == (a + b)[|a| + i];
    }
  }

  // The entry that the parallel vectors hold at position i.
  function At(store: Store, hashes: seq<Hash>, data: seq<TxData>, i: nat): Entry
    requires i < |hashes| == |data| && hashes[i] in store
  {
    Entry(hashes[i], store[hashes[i]], data[i])
  }

  // The vectors, read in lockstep, are the block-by-block stream.
  lemma {:induction false} Lockstep(store: Store, blocks: seq<Block>, height: nat, i: nat)
    requires KnownChain(store, blocks) && Chained(blocks, height) && i < |Hashes(blocks)|
    ensures |Stream(store, blocks)| == |Hashes(blocks)| && Hashes(blocks)[i] in store
    ensures Stream(store, blocks)[i] == At(store, Hashes(blocks), Data(blocks, height), i)
    decreases |blocks|
  {
    var b, rest := blocks[0], blocks[1..];
    var n := |BlockHashes(b)|;
    assert KnownBlock(store, b);
    ChainedRest(blocks, height);
    KnownHashes(store, blocks);
    StreamLength(store, rest);
    if i < n {
      assert Data(blocks, height)[i] == BlockData(b, height)[i];
    } else {
      Lockstep(store, rest, height + 1, i - n);
    }
  }

  lemma {:induction false} StreamLength(store: Store, blocks: seq<Block>)
    requires KnownChain(store, blocks)
    ensures |Stream(store, blocks)| == |Hashes(blocks)|
  {
    if blocks != [] {
      StreamLength(store, blocks[1..]);
    }
  }

  // ---------- the scan of one window ----------

  // A stored row with the timestamp it is stored under.
  datatype Row = Row(entry: Entry, timestamp: nat)

  // What the scanner makes of a transaction: whether outputs or inputs of the account are identified in it, and whether
  // their rows are stored.
  datatype Account = Account(ours: Entry -> bool, stores: Entry -> bool)

  // The rows of one window. The timestamp is taken from the first transaction of ours and then kept.
  function Rows(a: Account, seen: seq<Entry>, stamp: Option<nat>): seq<Row> {
    if seen == [] then []
    else if !a.ours(seen[0]) then Rows(a, seen[1..], stamp)
    else
      var kept := if stamp.None? then seen[0].data.timestamp else stamp.value;
      (if a.stores(seen[0]) then [Row(seen[0], kept)] else []) + Rows(a, seen[1..], Some(kept))
  }

  // The transactions of which something is stored.
  function Stored(a: Account, seen: seq<Entry>): seq<Entry> {
    if seen == [] then []
    else (if a.ours(seen[0]) && a.stores(seen[0]) then [seen[0]] else []) + Stored(a, seen[1..])
  }

  function RowsAt(entries: seq<Entry>, timestamp: nat): seq<Row> {
    seq(|entries|, i requires 0 <= i < |entries| => Row(entries[i], timestamp))
  }

  lemma {:induction false} RowsAfterFind(a: Account, seen: seq<Entry>, timestamp: nat)
    ensures Rows(a, seen, Some(timestamp)) == RowsAt(Stored(a, seen), timestamp)
  {
    if seen != [] {
      RowsAfterFind(a, seen[1..], timestamp);
    }
  }

  // A window stores exactly the transactions it should, all under the timestamp of the first one that is ours, at f.
  lemma {:induction false} RowsOfWindow(a: Account, seen: seq<Entry>, f: nat)
    requires f <= |seen| && forall i | 0 <= i < f :: !a.ours(seen[i])
    requires f < |seen| ==> a.ours(seen[f])
    ensures f == |seen| ==> Rows(a, seen, None) == []
    ensures f < |seen| ==> Rows(a, seen, None) == RowsAt(Stored(a, seen), seen[f].data.timestamp)
  {
    if seen != [] {
      if f > 0 {
        RowsOfWindow(a, seen[1..], f - 1);
      } else {
        RowsAfterFind(a, seen, seen[0].data.timestamp);
      }
    }
  }

  // The loop of the scanner over one window.
  method ScanWindow(blocks: seq<Block>, store: Store, a: Account)
    returns (ok: bool, ghost seen: seq<Entry>, rows: seq<Row>)
    requires blocks != [] && Chained(blocks, blocks[0].height)
    ensures ok <==> KnownChain(store, blocks)
    ensures ok ==> seen == Stream(store, blocks) && rows == Rows(a, Stream(store, blocks), None)
  {
    var txsHashes, txs, txsData;
    ok, txsHashes, txs, txsData := GetTxsInBlocks(blocks, store);
    KnownHashes(store, blocks);
    rows, seen := [], [];
    if !ok {
      return;
    }
    ghost var stream := Stream(store, blocks);
    StreamLength(store, blocks);
    var txIdx := 0;
    var blkTimestamp: Option<nat> := None;
    for i := 0 to |txsData|
      invariant txIdx == i && seen == stream[..i]
      invariant Rows(a, stream, None) == rows + Rows(a, stream[i..], blkTimestamp)
    {
      Lockstep(store, blocks, blocks[0].height, i);
      var txHash, tx := txsHashes[txIdx], txs[txIdx];
      txIdx := txIdx + 1;
      var entry := Entry(txHash, tx, txsData[i]);
      seen := seen + [entry];
      assert stream[i..][0] == entry && stream[i..][1..] == stream[i + 1..];
      if a.ours(entry) {
        if blkTimestamp.None? {
          blkTimestamp := Some(entry.data.timestamp);
        }
        if !a.stores(entry) {
          continue;
        }
        rows := rows + [Row(entry, blkTimestamp.value)];
      }
    }
  }

  // ---------- whole runs ----------

  lemma {:induction false} StreamConcat(store: Store, a: seq<Block>, b: seq<Block>)
    requires KnownChain(store, a) && KnownChain(store, b)
    ensures KnownChain(store, a + b) && Stream(store, a + b) == Stream(store, a) + Stream(store, b)
  {
    hide BlockEntries, KnownBlock;
    if a == [] {
      assert a + b == b;
    } else {
      assert (a + b)[1..] == a[1..] + b;
      StreamConcat(store, a[1..], b);
    }
  }

  // What the scanner sees from a height to the end of the chain, window by window.
  function SeenBy(store: Store, chain: seq<Block>, from: nat, lookahead: nat): seq<Entry>
    requires KnownChain(store, chain) && 0 < lookahead && |chain| + lookahead <= TxSearch.UINT64
    decreases if from < |chain| then |chain| - from else 0
  {
    if from >= |chain| then []
    else
      var h2 := TxSearch.WindowEnd(from, lookahead, |chain| - 1);
      Stream(store, chain[from..h2 + 1]) + SeenBy(store, chain, h2 + 1, lookahead)
  }

  // The lookahead does not matter: the windows show the blocks one after the other, each transaction once.
  lemma {:induction false} WindowsDoNotMatter(store: Store, chain: seq<Block>, from: nat, lookahead: nat)
    requires KnownChain(store, chain) && 0 < lookahead && |chain| + lookahead <= TxSearch.UINT64 && from <= |chain|
    ensures SeenBy(store, chain, from, lookahead) == Stream(store, chain[from..])
    decreases |chain| - from
  {
    hide TxSearch.WindowEnd, Stream, TxSearch.Windows;
    if from < |chain| {
      TxSearch.WindowDone(from, |chain| - 1, lookahead);
      var h2 := TxSearch.WindowEnd(from, lookahead, |chain| - 1);
      WindowsDoNotMatter(store, chain, h2 + 1, lookahead);
      StreamConcat(store, chain[from..h2 + 1], chain[h2 + 1..]);
      assert chain[from..] == chain[from..h2 + 1] + chain[h2 + 1..];
    } else {
      StreamLength(store, chain[from..]);
    }
  }

  // ---------- the stored timestamps ----------

  // The rows as they should be: each with the timestamp of its own block.
  function TrueRows(a: Account, seen: seq<Entry>): seq<Row> {
    if seen == [] then []
    else
      (if a.ours(seen[0]) && a.stores(seen[0]) then [Row(seen[0], seen[0].data.timestamp)] else []) + TrueRows(a, seen[1..])
  }

  // Everything stored from these transactions has this timestamp.
  ghost predicate StoredAt(a: Account, seen: seq<Entry>, timestamp: nat) {
    forall i | 0 <= i < |seen| && a.ours(seen[i]) && a.stores(seen[i]) :: seen[i].data.timestamp == timestamp
  }

  // Everything stored has the timestamp of the first transaction of ours.
  ghost predicate OneTimestamp(a: Account, seen: seq<Entry>) {
    seen == [] || if a.ours(seen[0]) then StoredAt(a, seen, seen[0].data.timestamp) else OneTimestamp(a, seen[1..])
  }

  lemma StoredAtRest(a: Account, seen: seq<Entry>, timestamp: nat)
    requires seen != []
    ensures StoredAt(a, seen, timestamp) <==>
            (a.ours(seen[0]) && a.stores(seen[0]) ==> seen[0].data.timestamp == timestamp) && StoredAt(a, seen[1..], timestamp)
  {
  }

  lemma {:induction false} RowsOnceStamped(a: Account, seen: seq<Entry>, timestamp: nat)
    ensures |Rows(a, seen, Some(timestamp))| == |TrueRows(a, seen)|
    ensures Rows(a, seen, Some(timestamp)) == TrueRows(a, seen) <==> StoredAt(a, seen, timestamp)
  {
    if seen != [] {
      StoredAtRest(a, seen, timestamp);
      RowsOnceStamped(a, seen[1..], timestamp);
      SplitRows(if a.ours(seen[0]) && a.stores(seen[0]) then [Row(seen[0], timestamp)] else [],
                Rows(a, seen[1..], Some(timestamp)),
                if a.ours(seen[0]) && a.stores(seen[0]) then [Row(seen[0], seen[0].data.timestamp)] else [],
                TrueRows(a, seen[1..]));
    }
  }

  lemma SplitRows<T>(a: seq<T>, b: seq<T>, c: seq<T>, d: seq<T>)
    requires |a| == |c|
    ensures a + b == c + d <==> a == c && b == d
  {
    assert a == (a + b)[..|a|] && b == (a + b)[|a|..] && c == (c + d)[..|c|] && d == (c + d)[|c|..];
  }

  // A window stores the right timestamps exactly when all it stores has the timestamp of its first find. The source means
  // the timestamp to be made once for a block, but makes it once for a window.
  lemma {:induction false} TimestampsOfWindow(a: Account, seen: seq<Entry>)
    ensures |Rows(a, seen, None)| == |TrueRows(a, seen)|
    ensures Rows(a, seen, None) == TrueRows(a, seen) <==> OneTimestamp(a, seen)
  {
    if seen != [] {
      if a.ours(seen[0]) {
        var timestamp := seen[0].data.timestamp;
        assert Rows(a, seen, None) == Rows(a, seen, Some(timestamp));
        RowsOnceStamped(a, seen, timestamp);
      } else {
        TimestampsOfWindow(a, seen[1..]);
      }
    }
  }

  // The rows stored from a height to the end of the chain, window by window.
  function StoredBy(store: Store, a: Account, chain: seq<Block>, from: nat, lookahead: nat): seq<Row>
    requires KnownChain(store, chain) && 0 < lookahead && |chain| + lookahead <= TxSearch.UINT64
    decreases if from < |chain| then |chain| - from else 0
  {
    if from >= |chain| then []
    else
      var h2 := TxSearch.WindowEnd(from, lookahead, |chain| - 1);
      Rows(a, Stream(store, chain[from..h2 + 1]), None) + StoredBy(store, a, chain, h2 + 1, lookahead)
  }

  ghost predicate EveryWindow(store: Store, a: Account, chain: seq<Block>, from: nat, lookahead: nat)
    requires KnownChain(store, chain) && 0 < lookahead && |chain| + lookahead <= TxSearch.UINT64
    decreases if from < |chain| then |chain| - from else 0
  {
    from >= |chain| ||
    var h2 := TxSearch.WindowEnd(from, lookahead, |chain| - 1);
    OneTimestamp(a, Stream(store, chain[from..h2 + 1])) && EveryWindow(store, a, chain, h2 + 1, lookahead)
  }

  lemma {:induction false} TrueRowsConcat(a: Account, s: seq<Entry>, t: seq<Entry>)
    ensures TrueRows(a, s + t) == TrueRows(a, s) + TrueRows(a, t)
  {
    if s == [] {
      assert s + t == t;
    } else {
      assert (s + t)[1..] == s[1..] + t;
      TrueRowsConcat(a, s[1..], t);
    }
  }

  // A whole scan stores what a block-by-block scan should store, exactly when every window stores one timestamp only.
  lemma {:induction false} TimestampsOfRun(store: Store, a: Account, chain: seq<Block>, from: nat, lookahead: nat)
    requires KnownChain(store, chain) && 0 < lookahead && |chain| + lookahead <= TxSearch.UINT64 && from <= |chain|
    ensures |StoredBy(store, a, chain, from, lookahead)| == |TrueRows(a, Stream(store, chain[from..]))|
    ensures StoredBy(store, a, chain, from, lookahead) == TrueRows(a, Stream(store, chain[from..]))
            <==> EveryWindow(store, a, chain, from, lookahead)
    decreases |chain| - from
  {
    hide TxSearch.WindowEnd, TxSearch.Windows, Stream, Rows, TrueRows, OneTimestamp;
    if from < |chain| {
      TxSearch.WindowDone(from, |chain| - 1, lookahead);
      var h2 := TxSearch.WindowEnd(from, lookahead, |chain| - 1);
      var window, rest := chain[from..h2 + 1], chain[h2 + 1..];
      TimestampsOfRun(store, a, chain, h2 + 1, lookahead);
      TimestampsOfWindow(a, Stream(store, window));
      assert chain[from..] == window + rest;
      StreamConcat(store, window, rest);
      TrueRowsConcat(a, Stream(store, window), Stream(store, rest));
      SplitRows(Rows(a, Stream(store, window), None), StoredBy(store, a, chain, h2 + 1, lookahead),
                TrueRows(a, Stream(store, window)), TrueRows(a, Stream(store, rest)));
    } else {
      NoRows(store, a, chain[from..]);
    }
  }

  lemma NoRows(store: Store, a: Account, blocks: seq<Block>)
    requires blocks == []
    ensures TrueRows(a, Stream(store, blocks)) == []
  {
  }

  // With a lookahead of one block the timestamps are always right.
  lemma {:induction false} SingleBlocks(store: Store, a: Account, chain: seq<Block>, from: nat)
    requires KnownChain(store, chain) && |chain| < TxSearch.UINT64
    ensures EveryWindow(store, a, chain, from, 1)
    decreases if from < |chain| then |chain| - from else 0
  {
    if from < |chain| {
      assert TxSearch.WindowEnd(from, 1, |chain| - 1) == from;
      SingleBlocks(store, a, chain, from + 1);
      var b := chain[from];
      assert chain[from..from + 1] == [b] && [b][1..] == [];
      assert Stream(store, [b]) == BlockEntries(store, b);
      SameTimestamp(a, BlockEntries(store, b), b.timestamp);
    }
  }

  lemma {:induction false} SameTimestamp(a: Account, seen: seq<Entry>, timestamp: nat)
    requires forall i | 0 <= i < |seen| :: seen[i].data.timestamp == timestamp
    ensures OneTimestamp(a, seen)
  {
    if seen != [] {
      SameTimestamp(a, seen[1..], timestamp);
    }
  }

  lemma RowsOfTwo(a: Account, e: Entry, f: Entry)
    requires a.ours(e) && a.stores(e) && a.ours(f) && a.stores(f)
    ensures Rows(a, [e], None) == [Row(e, e.data.timestamp)] && Rows(a, [f], None) == [Row(f, f.data.timestamp)]
    ensures Rows(a, [e, f], None) == [Row(e, e.data.timestamp), Row(f, e.data.timestamp)]
  {
  }

  // Two blocks with one transaction of ours each, scanned in one window: the second is stored under the first one's time.
  lemma WrongTimestamp(store: Store, a: Account, chain: seq<Block>)
    requires 1 in store && 2 in store && chain == [Block(0, 1000, 1, []), Block(1, 1120, 2, [])]
    requires forall e :: a.ours(e) && a.stores(e)
    ensures KnownChain(store, chain)
    ensures var first, second := Entry(1, store[1], TxData(0, 1000, true)), Entry(2, store[2], TxData(1, 1120, true));
            && StoredBy(store, a, chain, 0, 2) == [Row(first, 1000), Row(second, 1000)]
            && StoredBy(store, a, chain, 0, 1) == [Row(first, 1000), Row(second, 1120)]
  {
    var first, second := Entry(1, store[1], TxData(0, 1000, true)), Entry(2, store[2], TxData(1, 1120, true));
    forall i | 0 <= i < 2 ensures Stream(store, [chain[i]]) == [[first, second][i]] {
      assert BlockEntries(store, chain[i]) == [[first, second][i]];
      assert [chain[i]][1..] == [];
    }
    assert chain == [chain[0]] + [chain[1]] && [first, second] == [first] + [second];
    StreamConcat(store, [chain[0]], [chain[1]]);
    assert chain[0..2] == chain && chain[0..1] == [chain[0]] && chain[1..2] == [chain[1]];
    assert TxSearch.WindowEnd(0, 2, 1) == 1 && TxSearch.WindowEnd(0, 1, 1) == 0 && TxSearch.WindowEnd(1, 1, 1) == 1;
    hide TxSearch.WindowEnd, Stream, BlockEntries;
    RowsOfTwo(a, first, second);
    hide Rows;
    assert StoredBy(store, a, chain, 2, 1) == [] && StoredBy(store, a, chain, 2, 2) == [];
    assert StoredBy(store, a, chain, 1, 1) == [Row(second, 1120)];
  }
}
