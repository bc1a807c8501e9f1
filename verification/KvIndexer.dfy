/**
 The Ethereum transaction index: `IndexBlock` turns a block into a batch of writes, and the
 lookups read them back. Decoding of transactions and of events is an input of the model.
 */
module KvIndexer {
  import opened Wire
  import opened Keys
  import opened Order
  import opened TxResultCodec

  // ---------------------------------------------------------------------------------------
  // Blocks, as the indexer sees them
  // ---------------------------------------------------------------------------------------

  datatype EthMsg = EthMsg(hash: Hash, gas: uint64)

  /** What the events of a transaction say about one message. */
  datatype ParsedTx = ParsedTx(gasUsed: uint64, failed: bool)

  datatype DecodedTx = Undecodable | NotEth | Eth(msgs: seq<EthMsg>)

  datatype ParsedTxs = Unparsable | Parsed(txs: seq<ParsedTx>)

  /**
   A transaction and its result. `expectedFailure` says that a non-zero code comes from the
   block gas limit or from a failed commit.
   */
  datatype BlockTx = BlockTx(code: uint32, expectedFailure: bool, tx: DecodedTx, events: ParsedTxs)

  datatype Block = Block(height: int64, txs: seq<BlockTx>)

  /** The checks that make `IndexBlock` skip a whole transaction. */
  predicate TxIndexed(t: BlockTx) {
    (t.code == 0 || t.expectedFailure) && t.tx.Eth? && t.events.Parsed?
  }

  /** Message `j` of an indexed transaction is skipped when the events do not mention it. */
  predicate MsgIndexed(t: BlockTx, j: nat)
    requires TxIndexed(t)
  {
    t.code != 0 || j < |t.events.txs|
  }

  function GasUsed(t: BlockTx, j: nat): uint64
    requires TxIndexed(t) && j < |t.tx.msgs| && MsgIndexed(t, j)
  {
    if t.code != 0 then t.tx.msgs[j].gas else t.events.txs[j].gasUsed
  }

  function Failed(t: BlockTx, j: nat): bool
    requires TxIndexed(t) && MsgIndexed(t, j)
  {
    if t.code != 0 then true else t.events.txs[j].failed
  }

  // ---------------------------------------------------------------------------------------
  // What a block adds to the index
  // ---------------------------------------------------------------------------------------

  /** A message of a block, by transaction and message index. */
  datatype Position = Position(tx: nat, msg: nat)

  /** The message at `p` is to be indexed. */
  predicate Indexed(block: Block, p: Position) {
    && p.tx < |block.txs|
    && TxIndexed(block.txs[p.tx])
    && p.msg < |block.txs[p.tx].tx.msgs|
    && MsgIndexed(block.txs[p.tx], p.msg)
  }

  /** Gas used by the indexed messages of `t` before message `j`, without wrap-around. */
  function GasBefore(t: BlockTx, j: nat): nat
    requires TxIndexed(t) && j <= |t.tx.msgs|
  {
    if j == 0 then 0
    else GasBefore(t, j - 1) + if MsgIndexed(t, j - 1) then GasUsed(t, j - 1) else 0
  }

  datatype Entry = Entry(hash: Hash, result: TxResult)

  /** The entry for message `j` of transaction `i`, if it is the `n`-th indexed one of the block. */
  function EntryAt(block: Block, i: nat, j: nat, n: nat): Entry
    requires Indexed(block, Position(i, j))
  {
    var t := block.txs[i];
    Entry(
      t.tx.msgs[j].hash,
      TxResult(block.height, Low32(i), Low32(j), Signed32(n), Failed(t, j), GasUsed(t, j), Low64(GasBefore(t, j + 1))))
  }

  /** Entries from message `j` of transaction `i` on, when `n` messages were indexed before it. */
  function EntriesFrom(block: Block, i: nat, j: nat, n: nat): seq<Entry>
    requires i <= |block.txs|
    requires i < |block.txs| && TxIndexed(block.txs[i]) ==> j <= |block.txs[i].tx.msgs|
    decreases |block.txs| - i, if i < |block.txs| && TxIndexed(block.txs[i]) then |block.txs[i].tx.msgs| - j else 0
  {
    if i == |block.txs| then []
    else if !TxIndexed(block.txs[i]) || j == |block.txs[i].tx.msgs| then EntriesFrom(block, i + 1, 0, n)
    else if !MsgIndexed(block.txs[i], j) then EntriesFrom(block, i, j + 1, n)
    else [EntryAt(block, i, j, n)] + EntriesFrom(block, i, j + 1, n + 1)
  }

  /** What `IndexBlock` saves, in order. */
  function Entries(block: Block): seq<Entry> {
    EntriesFrom(block, 0, 0, 0)
  }

  /** The indexed messages from message `j` of transaction `i` on, in block order. */
  function PositionsFrom(block: Block, i: nat, j: nat): seq<Position>
    requires i <= |block.txs|
    requires i < |block.txs| && TxIndexed(block.txs[i]) ==> j <= |block.txs[i].tx.msgs|
    decreases |block.txs| - i, if i < |block.txs| && TxIndexed(block.txs[i]) then |block.txs[i].tx.msgs| - j else 0
  {
    if i == |block.txs| then []
    else if !TxIndexed(block.txs[i]) || j == |block.txs[i].tx.msgs| then PositionsFrom(block, i + 1, 0)
    else (if MsgIndexed(block.txs[i], j) then [Position(i, j)] else []) + PositionsFrom(block, i, j + 1)
  }

  predicate Before(p: Position, q: Position) {
    p.tx < q.tx || (p.tx == q.tx && p.msg < q.msg)
  }

  /** The positions are exactly the indexed messages that are not before the given one, in strict order. */
  ghost predicate Lists(block: Block, from: Position, ps: seq<Position>) {
    && (forall p :: p in ps <==> Indexed(block, p) && !Before(p, from))
    && (forall m, n | 0 <= m < n < |ps| :: Before(ps[m], ps[n]))
  }

  lemma NextTx(block: Block, i: nat, j: nat, ps: seq<Position>)
    requires i < |block.txs| && Lists(block, Position(i + 1, 0), ps)
    requires TxIndexed(block.txs[i]) ==> j == |block.txs[i].tx.msgs|
    ensures Lists(block, Position(i, j), ps)
  {
    forall p | Indexed(block, p)
      ensures Before(p, Position(i, j)) <==> Before(p, Position(i + 1, 0))
    {
    }
  }

  lemma InFrontOf(p: Position, rest: seq<Position>)
    requires forall q | q in rest :: Before(p, q)
    requires forall m, n | 0 <= m < n < |rest| :: Before(rest[m], rest[n])
    ensures var ps := [p] + rest; forall m, n | 0 <= m < n < |ps| :: Before(ps[m], ps[n])
  {
    var ps := [p] + rest;
    forall m, n | 0 <= m < n < |ps|
      ensures Before(ps[m], ps[n])
    {
      assert ps[n] == rest[n - 1] && rest[n - 1] in rest;
    }
  }

  lemma NextMsg(block: Block, i: nat, j: nat, rest: seq<Position>)
    requires i < |block.txs| && TxIndexed(block.txs[i]) && j < |block.txs[i].tx.msgs|
    requires Lists(block, Position(i, j + 1), rest)
    ensures Lists(block, Position(i, j), (if MsgIndexed(block.txs[i], j) then [Position(i, j)] else []) + rest)
  {
    var here := Position(i, j);
    assert forall p | Indexed(block, p) && p != here :: Before(p, here) <==> Before(p, Position(i, j + 1));
    if Indexed(block, here) {
      InFrontOf(here, rest);
    } else {
      assert [] + rest == rest;
    }
  }

  /** Positions are exactly the indexed messages, in strict block order. */
  lemma {:induction false} PositionsExact(block: Block, i: nat, j: nat)
    requires i <= |block.txs|
    requires i < |block.txs| && TxIndexed(block.txs[i]) ==> j <= |block.txs[i].tx.msgs|
    ensures Lists(block, Position(i, j), PositionsFrom(block, i, j))
    decreases |block.txs| - i, if i < |block.txs| && TxIndexed(block.txs[i]) then |block.txs[i].tx.msgs| - j else 0
  {
    if i < |block.txs| {
      if !TxIndexed(block.txs[i]) || j == |block.txs[i].tx.msgs| {
        PositionsExact(block, i + 1, 0);
        NextTx(block, i, j, PositionsFrom(block, i + 1, 0));
      } else {
        PositionsExact(block, i, j + 1);
        NextMsg(block, i, j, PositionsFrom(block, i, j + 1));
      }
    }
  }

  ghost predicate IsEntry(block: Block, e: Entry, p: Position, n: nat) {
    Indexed(block, p) && e == EntryAt(block, p.tx, p.msg, n)
  }

  lemma {:induction false} EntriesAtPositions(block: Block, i: nat, j: nat, n: nat, k: nat)
    requires i <= |block.txs|
    requires i < |block.txs| && TxIndexed(block.txs[i]) ==> j <= |block.txs[i].tx.msgs|
    requires k < |EntriesFrom(block, i, j, n)| && k < |PositionsFrom(block, i, j)|
    ensures IsEntry(block, EntriesFrom(block, i, j, n)[k], PositionsFrom(block, i, j)[k], n + k)
    decreases |block.txs| - i, if i < |block.txs| && TxIndexed(block.txs[i]) then |block.txs[i].tx.msgs| - j else 0
  {
    var t := block.txs[i];
    if !TxIndexed(t) || j == |t.tx.msgs| {
      EntriesAtPositions(block, i + 1, 0, n, k);
    } else if !MsgIndexed(t, j) {
      EntriesAtPositions(block, i, j + 1, n, k);
    } else {
      assert PositionsFrom(block, i, j) == [Position(i, j)] + PositionsFrom(block, i, j + 1);
      if k > 0 {
        EntriesAtPositions(block, i, j + 1, n + 1, k - 1);
      }
    }
  }

  lemma {:induction false} EntriesCount(block: Block, i: nat, j: nat, n: nat)
    requires i <= |block.txs|
    requires i < |block.txs| && TxIndexed(block.txs[i]) ==> j <= |block.txs[i].tx.msgs|
    ensures |EntriesFrom(block, i, j, n)| == |PositionsFrom(block, i, j)|
    decreases |block.txs| - i, if i < |block.txs| && TxIndexed(block.txs[i]) then |block.txs[i].tx.msgs| - j else 0
  {
    if i < |block.txs| {
      var t := block.txs[i];
      if !TxIndexed(t) || j == |t.tx.msgs| {
        EntriesCount(block, i + 1, 0, n);
      } else {
        EntriesCount(block, i, j + 1, if MsgIndexed(t, j) then n + 1 else n);
      }
    }
  }

  function LimitSum(msgs: seq<EthMsg>): nat {
    if msgs == [] then 0 else LimitSum(msgs[..|msgs| - 1]) + msgs[|msgs| - 1].gas
  }

  /**
   A transaction that failed as expected has all its messages indexed, whatever its events say: each
   as failed and charged its gas limit, so that cumulative gas is the sum of the limits.
   */
  lemma FailedTxCharged(block: Block, i: nat, j: nat, n: nat)
    requires i < |block.txs| && TxIndexed(block.txs[i]) && block.txs[i].code != 0 && j < |block.txs[i].tx.msgs|
    ensures Indexed(block, Position(i, j))
    ensures var msgs, r := block.txs[i].tx.msgs, EntryAt(block, i, j, n).result;
            r.failed && r.gasUsed == msgs[j].gas && r.cumulativeGasUsed == Low64(LimitSum(msgs[..j + 1]))
  {
    FailedGas(block.txs[i], j + 1);
  }

  lemma {:induction false} FailedGas(t: BlockTx, j: nat)
    requires TxIndexed(t) && t.code != 0 && j <= |t.tx.msgs|
    ensures GasBefore(t, j) == LimitSum(t.tx.msgs[..j])
  {
    if j > 0 {
      FailedGas(t, j - 1);
      assert t.tx.msgs[..j][..j - 1] == t.tx.msgs[..j - 1];
    }
  }

  function EventSum(txs: seq<ParsedTx>): nat {
    if txs == [] then 0 else EventSum(txs[..|txs| - 1]) + txs[|txs| - 1].gasUsed
  }

  /**
   A transaction with code zero has exactly those messages indexed that its events mention, each
   with the outcome the events tell, so that cumulative gas is the sum of what they say was used.
   */
  lemma ParsedTxReported(block: Block, i: nat, j: nat, n: nat)
    requires i < |block.txs| && TxIndexed(block.txs[i]) && block.txs[i].code == 0 && j < |block.txs[i].tx.msgs|
    ensures Indexed(block, Position(i, j)) <==> j < |block.txs[i].events.txs|
    ensures j < |block.txs[i].events.txs| ==>
              var events, r := block.txs[i].events.txs, EntryAt(block, i, j, n).result;
              && r.failed == events[j].failed && r.gasUsed == events[j].gasUsed
              && r.cumulativeGasUsed == Low64(EventSum(events[..j + 1]))
  {
    if j < |block.txs[i].events.txs| {
      ParsedGas(block.txs[i], j + 1);
    }
  }

  lemma {:induction false} ParsedGas(t: BlockTx, j: nat)
    requires TxIndexed(t) && t.code == 0 && j <= |t.tx.msgs| && j <= |t.events.txs|
    ensures GasBefore(t, j) == EventSum(t.events.txs[..j])
  {
    if j > 0 {
      ParsedGas(t, j - 1);
      assert t.events.txs[..j][..j - 1] == t.events.txs[..j - 1];
    }
  }

  /**
   The messages that belong in the index: those of Ethereum transactions with readable events that
   succeeded, if the events mention them, or that failed in one of the expected ways.
   */
  predicate Belongs(block: Block, p: Position) {
    && p.tx < |block.txs|
    && var t := block.txs[p.tx];
    && t.tx.Eth? && t.events.Parsed? && p.msg < |t.tx.msgs|
    && (if t.code == 0 then p.msg < |t.events.txs| else t.expectedFailure)
  }

  /** The entry is that of the message at `p`, as number `n` of the block. */
  predicate Reports(block: Block, e: Entry, p: Position, n: nat)
    requires Belongs(block, p)
  {
    var t, r := block.txs[p.tx], e.result;
    && e.hash == t.tx.msgs[p.msg].hash
    && r.height == block.height && r.txIndex == Low32(p.tx) && r.msgIndex == Low32(p.msg)
    && r.ethTxIndex == Signed32(n)
    && (if t.code == 0 then
          && r.failed == t.events.txs[p.msg].failed && r.gasUsed == t.events.txs[p.msg].gasUsed
          && r.cumulativeGasUsed == Low64(EventSum(t.events.txs[..p.msg + 1]))
        else
          && r.failed && r.gasUsed == t.tx.msgs[p.msg].gas
          && r.cumulativeGasUsed == Low64(LimitSum(t.tx.msgs[..p.msg + 1])))
  }

  lemma IndexedIsReported(block: Block, e: Entry, p: Position, n: nat)
    ensures Indexed(block, p) <==> Belongs(block, p)
    ensures IsEntry(block, e, p, n) ==> Reports(block, e, p, n)
  {
    if Indexed(block, p) {
      if block.txs[p.tx].code == 0 {
        ParsedTxReported(block, p.tx, p.msg, n);
      } else {
        FailedTxCharged(block, p.tx, p.msg, n);
      }
    }
  }

  /**
   The saved entries are exactly those of the messages that belong in the index, in strict block
   order, and the `k`-th one is numbered `k`, whatever was skipped in between.
   */
  lemma EntriesExact(block: Block) returns (ps: seq<Position>)
    ensures |ps| == |Entries(block)|
    ensures forall p :: p in ps <==> Belongs(block, p)
    ensures forall m, n | 0 <= m < n < |ps| :: Before(ps[m], ps[n])
    ensures forall k | 0 <= k < |ps| :: ps[k] in ps && Reports(block, Entries(block)[k], ps[k], k)
  {
    ps := PositionsFrom(block, 0, 0);
    PositionsExact(block, 0, 0);
    EntriesCount(block, 0, 0, 0);
    forall p
      ensures p in ps <==> Belongs(block, p)
    {
      IndexedIsReported(block, Entry(seq(32, _ => 0), FRESH), p, 0);
    }
    forall k | 0 <= k < |ps|
      ensures ps[k] in ps && Reports(block, Entries(block)[k], ps[k], k)
    {
      EntriesAtPositions(block, 0, 0, 0, k);
      IndexedIsReported(block, Entries(block)[k], ps[k], k);
    }
  }

  // ---------------------------------------------------------------------------------------
  // The database
  // ---------------------------------------------------------------------------------------

  type Store = map<Bytes, Bytes>

  datatype Write = Write(key: Bytes, value: Bytes)

  /** `saveTxResult`: two writes, one under each key. */
  function SaveWrites(e: Entry): seq<Write> {
    [Write(TxHashKey(e.hash), Encode(e.result)),
     Write(TxIndexKey(e.result.height, e.result.ethTxIndex), e.hash)]
  }

  function Writes(es: seq<Entry>): seq<Write> {
    if es == [] then [] else Writes(es[..|es| - 1]) + SaveWrites(es[|es| - 1])
  }

  /** Writing a batch: in order, all of it. */
  function Apply(db: Store, batch: seq<Write>): Store {
    if batch == [] then db
    else Apply(db, batch[..|batch| - 1])[batch[|batch| - 1].key := batch[|batch| - 1].value]
  }

  function IndexedStore(db: Store, block: Block): Store {
    Apply(db, Writes(Entries(block)))
  }

  class KVIndexer {
    var db: Store

    constructor (db: Store)
      ensures this.db == db
    {
      this.db := db;
    }

    /**
     Builds the batch message by message and writes it at the end; `writable` says whether the
     database accepts the write. The batch is kept as the list of `saveTxResult` calls.
     */
    method IndexBlock(block: Block, writable: bool) returns (ok: bool)
      modifies this
      ensures ok == writable
      ensures db == if ok then IndexedStore(old(db), block) else old(db)
    {
      var batch: seq<Entry> := [];
      var ethTxIndex: int32 := 0;
      for txIndex := 0 to |block.txs|
        invariant db == old(db)
        invariant ethTxIndex == Signed32(|batch|)
        invariant batch + EntriesFrom(block, txIndex, 0, |batch|) == Entries(block)
      {
        var t := block.txs[txIndex];
        if !(t.code == 0 || t.expectedFailure) || !t.tx.Eth? || t.events.Unparsable? {
          continue;
        }
        batch, ethTxIndex := IndexTx(block, txIndex, batch, ethTxIndex);
      }
      assert batch == Entries(block);
      if writable {
        db := Apply(db, Writes(batch));
      }
      ok := writable;
    }

    method GetByTxHash(hash: Hash) returns (r: Lookup)
      requires TxHashKey(hash) in db ==> |db[TxHashKey(hash)]| < TWO_63
      ensures r == LookupHash(db, hash)
    {
      var key := TxHashKey(hash);
      var bz := if key in db then db[key] else [];
      if |bz| == 0 {
        return NotFound;
      }
      var txKey := new Message();
      var err := txKey.Unmarshal(bz);
      if err != NoError {
        return Corrupt(err);
      }
      return Found(txKey.Value());
    }

    method GetByBlockAndIndex(blockNumber: int64, txIndex: int32) returns (r: Lookup)
      requires forall key | key in db :: |db[key]| < TWO_63
      ensures r == LookupPosition(db, blockNumber, txIndex)
    {
      var key := TxIndexKey(blockNumber, txIndex);
      var bz := if key in db then db[key] else [];
      if |bz| == 0 {
        return NotFound;
      }
      r := GetByTxHash(BytesToHash(bz));
    }
  }

  /** The message loop of `IndexBlock`. */
  method IndexTx(block: Block, txIndex: nat, saved: seq<Entry>, next: int32)
    returns (batch: seq<Entry>, ethTxIndex: int32)
    requires txIndex < |block.txs| && TxIndexed(block.txs[txIndex]) && next == Signed32(|saved|)
    ensures ethTxIndex == Signed32(|batch|)
    ensures batch + EntriesFrom(block, txIndex + 1, 0, |batch|) == saved + EntriesFrom(block, txIndex, 0, |saved|)
  {
    batch, ethTxIndex := saved, next;
    var t := block.txs[txIndex];
    var cumulativeGasUsed: uint64 := 0;
    for msgIndex := 0 to |t.tx.msgs|
      invariant ethTxIndex == Signed32(|batch|) && cumulativeGasUsed == Low64(GasBefore(t, msgIndex))
      invariant batch + EntriesFrom(block, txIndex, msgIndex, |batch|) == saved + EntriesFrom(block, txIndex, 0, |saved|)
    {
      if t.code == 0 && msgIndex >= |t.events.txs| {
        continue;
      }
      ghost var rest := EntriesFrom(block, txIndex, msgIndex + 1, |batch| + 1);
      NextEntry(block, txIndex, msgIndex, |batch|);
      var gasUsed, failed := MsgOutcome(t, msgIndex);
      cumulativeGasUsed := Low64(cumulativeGasUsed + gasUsed);
      var txResult := TxResult(block.height, Low32(txIndex), Low32(msgIndex), ethTxIndex, failed, gasUsed, cumulativeGasUsed);
      ethTxIndex := Signed32(ethTxIndex + 1);
      AppendFirst(batch, Entry(t.tx.msgs[msgIndex].hash, txResult), rest);
      batch := batch + [Entry(t.tx.msgs[msgIndex].hash, txResult)];
    }
  }

  /** A failed transaction is charged its gas limit; otherwise the events tell. */
  method MsgOutcome(t: BlockTx, msgIndex: nat) returns (gasUsed: uint64, failed: bool)
    requires TxIndexed(t) && msgIndex < |t.tx.msgs| && MsgIndexed(t, msgIndex)
    ensures gasUsed == GasUsed(t, msgIndex) && failed == Failed(t, msgIndex)
  {
    if t.code != 0 {
      gasUsed, failed := t.tx.msgs[msgIndex].gas, true;
    } else {
      gasUsed, failed := t.events.txs[msgIndex].gasUsed, t.events.txs[msgIndex].failed;
    }
  }

  lemma NextEntry(block: Block, i: nat, j: nat, n: nat)
    requires Indexed(block, Position(i, j))
    ensures var t := block.txs[i];
            var cumulative := Low64(Low64(GasBefore(t, j)) + GasUsed(t, j));
            && cumulative == Low64(GasBefore(t, j + 1))
            && EntryAt(block, i, j, n) ==
               Entry(t.tx.msgs[j].hash,
                     TxResult(block.height, Low32(i), Low32(j), Signed32(n), Failed(t, j), GasUsed(t, j), cumulative))
    ensures Signed32(Signed32(n) + 1) == Signed32(n + 1)
  {
    CounterSteps(n, GasBefore(block.txs[i], j), GasUsed(block.txs[i], j));
  }

  lemma CounterSteps(n: nat, gas: nat, more: nat)
    ensures Signed32(Signed32(n) + 1) == Signed32(n + 1)
    ensures Low64(Low64(gas) + more) == Low64(gas + more)
  {
  }

  lemma AppendFirst(es: seq<Entry>, e: Entry, rest: seq<Entry>)
    ensures es + ([e] + rest) == (es + [e]) + rest
  {
  }

  // ---------------------------------------------------------------------------------------
  // Lookups
  // ---------------------------------------------------------------------------------------

  datatype Lookup = Found(result: TxResult) | NotFound | Corrupt(err: Error)

  /** An empty value counts as missing. */
  ghost function LookupHash(db: Store, hash: Hash): Lookup {
    var key := TxHashKey(hash);
    if key !in db || db[key] == [] then NotFound
    else
      var d := Decode(FRESH, db[key]);
      if d.err == NoError then Found(d.msg) else Corrupt(d.err)
  }

  /** `common.BytesToHash`: keeps the last 32 bytes, padding on the left. */
  function BytesToHash(bz: Bytes): Hash {
    if |bz| >= 32 then bz[|bz| - 32..] else seq(32 - |bz|, _ => 0) + bz
  }

  ghost function LookupPosition(db: Store, blockNumber: int64, txIndex: int32): Lookup {
    var key := TxIndexKey(blockNumber, txIndex);
    if key !in db || db[key] == [] then NotFound else LookupHash(db, BytesToHash(db[key]))
  }

  // ---------------------------------------------------------------------------------------
  // First and last indexed block
  // ---------------------------------------------------------------------------------------

  /** The range `[prefix, prefix + 1)` of index keys. */
  predicate InRange(key: Bytes) {
    !Less(key, [KEY_PREFIX_TX_INDEX]) && Less(key, [KEY_PREFIX_TX_INDEX + 1])
  }

  ghost predicate IsFirstKey(db: Store, key: Bytes) {
    key in db && InRange(key) && forall k | k in db && InRange(k) :: !Less(k, key)
  }

  ghost predicate IsLastKey(db: Store, key: Bytes) {
    key in db && InRange(key) && forall k | k in db && InRange(k) :: !Less(key, k)
  }

  /** The answer of `LoadFirstBlock`: -1 without index keys, else the block of the least one. */
  ghost predicate IsFirstBlock(db: Store, r: BlockNumber) {
    if exists k :: k in db && InRange(k)
    then exists k :: IsFirstKey(db, k) && r == ParseBlockNumber(k)
    else r == BlockNumber(-1)
  }

  ghost predicate IsLastBlock(db: Store, r: BlockNumber) {
    if exists k :: k in db && InRange(k)
    then exists k :: IsLastKey(db, k) && r == ParseBlockNumber(k)
    else r == BlockNumber(-1)
  }

  datatype Cursor = Invalid | Standing(key: Bytes)

  /** A database iterator over the index keys, positioned at its first element. */
  method Seek(db: Store, reverse: bool) returns (it: Cursor)
    ensures it.Invalid? <==> !exists k :: k in db && InRange(k)
    ensures it.Standing? ==> if reverse then IsLastKey(db, it.key) else IsFirstKey(db, it.key)
  {
    it := Invalid;
    var rest := db.Keys;
    while rest != {}
      invariant rest <= db.Keys
      invariant it.Invalid? ==> forall k | k in db.Keys - rest :: !InRange(k)
      invariant it.Standing? ==> it.key in db && InRange(it.key)
      invariant it.Standing? ==> forall k | k in db.Keys - rest && InRange(k) ::
                  k == it.key || if reverse then Less(k, it.key) else Less(it.key, k)
      decreases |rest|
    {
      var k :| k in rest;
      if InRange(k) {
        if it.Invalid? {
          it := Standing(k);
        } else {
          LessTotal(k, it.key);
          if if reverse then Less(it.key, k) else Less(k, it.key) {
            forall x | x in db.Keys - rest && InRange(x)
              ensures if reverse then Less(x, k) else Less(k, x)
            {
              if x != it.key {
                if reverse {
                  LessTransitive(x, it.key, k);
                } else {
                  LessTransitive(k, it.key, x);
                }
              }
            }
            it := Standing(k);
          }
        }
      }
      rest := rest - {k};
    }
    if it.Standing? {
      forall k | k in db && InRange(k)
        ensures if reverse then !Less(it.key, k) else !Less(k, it.key)
      {
        NotBoth(k, it.key);
      }
    }
  }

  lemma NotBoth(a: Bytes, b: Bytes)
    ensures !(Less(a, b) && Less(b, a)) && !Less(a, a)
  {
    LessIrreflexive(a);
    if Less(a, b) && Less(b, a) {
      LessTransitive(a, b, a);
    }
  }

  method LoadFirstBlock(db: Store) returns (r: BlockNumber)
    ensures IsFirstBlock(db, r)
  {
    var it := Seek(db, false);
    if it.Invalid? {
      return BlockNumber(-1);
    }
    r := ParseBlockNumber(it.key);
  }

  method LoadLastBlock(db: Store) returns (r: BlockNumber)
    ensures IsLastBlock(db, r)
  {
    var it := Seek(db, true);
    if it.Invalid? {
      return BlockNumber(-1);
    }
    r := ParseBlockNumber(it.key);
  }
}
