/**
 The `index-eth-tx` command: catching up with history, backward from the first indexed block
 or forward from the last. A run may stop at any height: the block or its results may be
 missing, the write may fail, or the process may be interrupted.
 */
module IndexerCmd {
  import opened Wire
  import opened Keys
  import opened Order
  import opened KvIndexer
  import opened IndexRefinement

  /** The blocks of a chain; the block of height `h` is `chain[h - 1]`. */
  type Chain = c: seq<Block> | |c| < TWO_63 witness []

  /** Heights count from one, and no transaction hash occurs in two blocks. */
  ghost predicate ValidChain(chain: Chain) {
    && (forall k | 0 <= k < |chain| :: chain[k].height == k + 1)
    && forall j, k {:trigger Hashes(Entries(chain[j])), Hashes(Entries(chain[k]))} | 0 <= j < k < |chain| ::
         Hashes(Entries(chain[j])) !! Hashes(Entries(chain[k]))
  }

  /** What each block writes, height by height. */
  type Parts = seq<Store>

  ghost predicate PartsOf(parts: Parts, chain: Chain) {
    |parts| == |chain| && forall k {:trigger BlockStore(chain[k])} | 0 <= k < |chain| :: parts[k] == BlockStore(chain[k])
  }

  ghost function Written(chain: Chain): (parts: Parts)
    ensures PartsOf(parts, chain)
  {
    assert PartsOf(seq(|chain|, k requires 0 <= k < |chain| => BlockStore(chain[k])), chain);
    var parts :| PartsOf(parts, chain);
    parts
  }

  /** The index of exactly the heights from `a` to `b`. */
  ghost function RangeStore(parts: Parts, a: nat, b: nat): Store
    requires 1 <= a <= b + 1 && b <= |parts|
    decreases b
  {
    if b < a then map[] else RangeStore(parts, a, b - 1) + parts[b - 1]
  }

  // ---------------------------------------------------------------------------------------
  // The two loops
  // ---------------------------------------------------------------------------------------

  datatype RunEnd = RunEnd(db: Store, completed: bool)

  /** The loop `for i := i; i > 0; i--`, which stops at the first height in `faults`. */
  function IndexDown(db: Store, parts: Parts, i: int, faults: set<int>): RunEnd
    decreases i
  {
    if i <= 0 then RunEnd(db, true)
    else if i > |parts| || i in faults then RunEnd(db, false)
    else IndexDown(db + parts[i - 1], parts, i - 1, faults)
  }

  /** The loop `for i := i; i <= height; i++`, which stops at the first height in `faults`. */
  function IndexUp(db: Store, parts: Parts, i: int, faults: set<int>): RunEnd
    decreases |parts| - i
  {
    if i > |parts| then RunEnd(db, true)
    else if i <= 0 || i in faults then RunEnd(db, false)
    else IndexUp(db + parts[i - 1], parts, i + 1, faults)
  }

  /** A run of `backward`, when the first indexed block was found to be `first`. */
  function BackwardRun(db: Store, first: BlockNumber, parts: Parts, faults: set<int>): RunEnd {
    if first.WrongKeyLength? then RunEnd(db, false)
    else IndexDown(db, parts, (if first.number == -1 then |parts| else first.number) - 1, faults)
  }

  function ForwardRun(db: Store, last: BlockNumber, parts: Parts, faults: set<int>): RunEnd {
    if last.WrongKeyLength? then RunEnd(db, false)
    else IndexUp(db, parts, (if last.number == -1 then 0 else last.number) + 1, faults)
  }

  /** The closure `indexBlock`: load a block and index it. */
  method IndexHeight(kv: KVIndexer, chain: Chain, height: int, faults: set<int>, ghost parts: Parts) returns (ok: bool)
    requires PartsOf(parts, chain)
    modifies kv
    ensures ok <==> 1 <= height <= |chain| && height !in faults
    ensures kv.db == if ok then old(kv.db) + parts[height - 1] else old(kv.db)
  {
    if height < 1 || height > |chain| {
      return false;
    }
    assert parts[height - 1] == BlockStore(chain[height - 1]);
    IndexIsUnion(kv.db, chain[height - 1]);
    ok := kv.IndexBlock(chain[height - 1], height !in faults);
  }

  method Backward(kv: KVIndexer, chain: Chain, faults: set<int>) returns (completed: bool)
    modifies kv
    ensures exists first :: IsFirstBlock(old(kv.db), first) &&
              RunEnd(kv.db, completed) == BackwardRun(old(kv.db), first, Written(chain), faults)
  {
    var r := LoadFirstBlock(kv.db);
    if r.WrongKeyLength? {
      return false;
    }
    var first: int := r.number;
    if first == -1 {
      first := |chain|;
    }
    ghost var parts := Written(chain);
    var i := first - 1;
    while i > 0
      invariant IndexDown(kv.db, parts, i, faults) == BackwardRun(old(kv.db), r, parts, faults)
      decreases i
    {
      var ok := IndexHeight(kv, chain, i, faults, parts);
      if !ok {
        return false;
      }
      i := i - 1;
    }
    completed := true;
  }

  method Forward(kv: KVIndexer, chain: Chain, faults: set<int>) returns (completed: bool)
    modifies kv
    ensures exists last :: IsLastBlock(old(kv.db), last) &&
              RunEnd(kv.db, completed) == ForwardRun(old(kv.db), last, Written(chain), faults)
  {
    var r := LoadLastBlock(kv.db);
    if r.WrongKeyLength? {
      return false;
    }
    var latest: int := r.number;
    if latest == -1 {
      latest := 0;
    }
    ghost var parts := Written(chain);
    var i := latest + 1;
    while i <= |chain|
      invariant IndexUp(kv.db, parts, i, faults) == ForwardRun(old(kv.db), r, parts, faults)
      decreases |chain| - i
    {
      var ok := IndexHeight(kv, chain, i, faults, parts);
      if !ok {
        return false;
      }
      i := i + 1;
    }
    completed := true;
  }

  // ---------------------------------------------------------------------------------------
  // Facts about the parts of a valid chain
  // ---------------------------------------------------------------------------------------

  /** Different heights write different keys. */
  ghost predicate Separate(parts: Parts) {
    forall j, k {:trigger parts[j].Keys, parts[k].Keys} | 0 <= j < k < |parts| :: parts[j].Keys !! parts[k].Keys
  }

  /** Height `h` writes index keys of block `h` only, and at least one if it writes at all. */
  ghost predicate OwnKeys(part: Store, h: int64) {
    && (forall key | key in part && InRange(key) :: exists i: int32 :: IsKeyOf(key, h, i))
    && (part != map[] ==> exists i: int32 :: TxIndexKey(h, i) in part)
  }

  ghost predicate IsKeyOf(key: Bytes, h: int64, i: int32) {
    key == TxIndexKey(h, i)
  }

  ghost predicate OwnKeysAt(parts: Parts, k: nat) {
    k < |parts| < TWO_63 && OwnKeys(parts[k], k + 1)
  }

  ghost predicate ChainParts(parts: Parts) {
    |parts| < TWO_63 && Separate(parts) && forall k: nat {:trigger OwnKeysAt(parts, k)} | k < |parts| :: OwnKeysAt(parts, k)
  }

  lemma BlockOwnKeys(block: Block)
    ensures OwnKeys(BlockStore(block), block.height)
  {
    forall key | key in BlockStore(block) && InRange(key)
      ensures exists i: int32 :: IsKeyOf(key, block.height, i)
    {
      var i := KeyOfOwnHeight(block, key);
    }
    if BlockStore(block) != map[] {
      var e := SomeEntry(block);
      HasIndexKey(block, e);
    }
  }

  lemma KeyOfOwnHeight(block: Block, key: Bytes) returns (i: int32)
    requires key in BlockStore(block) && InRange(key)
    ensures IsKeyOf(key, block.height, i)
  {
    BlockKeys(block);
    var p := RangeIsPositions(BlockStore(block), SaveAll(EMPTY, Entries(block)), key);
    i := p.1;
  }

  lemma HasIndexKey(block: Block, e: Entry)
    requires e in Entries(block)
    ensures TxIndexKey(block.height, e.result.ethTxIndex) in BlockStore(block)
  {
    var x := SaveAll(EMPTY, Entries(block));
    BlockKeys(block);
    EverySaved(EMPTY, Entries(block), e);
    EntryHeights(block);
    assert HoldsPosition(BlockStore(block), x.byPosition, block.height, e.result.ethTxIndex);
  }

  lemma SomeEntry(block: Block) returns (e: Entry)
    requires BlockStore(block) != map[]
    ensures e in Entries(block)
  {
    e := Entries(block)[0];
  }

  lemma WrittenSeparate(chain: Chain)
    requires ValidChain(chain)
    ensures Separate(Written(chain))
  {
    var parts := Written(chain);
    forall j, k | 0 <= j < k < |parts|
      ensures parts[j].Keys !! parts[k].Keys
    {
      assert Hashes(Entries(chain[j])) !! Hashes(Entries(chain[k]));
      DisjointBlocks(chain[j], chain[k]);
      assert parts[j] == BlockStore(chain[j]) && parts[k] == BlockStore(chain[k]);
    }
  }

  lemma WrittenChain(chain: Chain)
    requires ValidChain(chain)
    ensures ChainParts(Written(chain))
  {
    var parts := Written(chain);
    WrittenSeparate(chain);
    forall k: nat | k < |parts|
      ensures OwnKeysAt(parts, k)
    {
      WrittenOwnKeys(parts, chain, k);
    }
  }

  lemma WrittenOwnKeys(parts: Parts, chain: Chain, k: nat)
    requires PartsOf(parts, chain) && k < |chain| && chain[k].height == k + 1
    ensures OwnKeysAt(parts, k)
  {
    var part, block := parts[k], chain[k];
    assert part == BlockStore(block);
    BlockOwnKeys(block);
    assert OwnKeys(part, k + 1);
  }

  // ---------------------------------------------------------------------------------------
  // Growing a range
  // ---------------------------------------------------------------------------------------

  /** Some height from `a` to `b` writes `key`. */
  ghost predicate WrittenIn(parts: Parts, a: nat, b: nat, key: Bytes) {
    exists k: nat :: a <= k + 1 <= b && k < |parts| && key in parts[k]
  }

  lemma {:induction false} RangeKeys(parts: Parts, a: nat, b: nat, key: Bytes)
    requires 1 <= a <= b + 1 && b <= |parts|
    ensures key in RangeStore(parts, a, b) <==> WrittenIn(parts, a, b, key)
    decreases b
  {
    if a <= b {
      RangeKeys(parts, a, b - 1, key);
    }
  }

  lemma {:induction false} ExtendDown(parts: Parts, a: nat, b: nat)
    requires Separate(parts) && 2 <= a <= b + 1 && b <= |parts|
    ensures RangeStore(parts, a, b) + parts[a - 2] == RangeStore(parts, a - 1, b)
    decreases b
  {
    if a <= b {
      ExtendDown(parts, a, b - 1);
      assert parts[a - 2].Keys !! parts[b - 1].Keys;
      UnionCommutes(RangeStore(parts, a, b - 1), parts[b - 1], parts[a - 2]);
    }
  }

  /** Heights that write nothing at the lower end of a range do not matter. */
  lemma {:induction false} DropEmptyBelow(parts: Parts, a: nat, f: nat, b: nat)
    requires Separate(parts) && 1 <= a <= f <= b + 1 && b <= |parts|
    requires forall k | a - 1 <= k < f - 1 :: parts[k] == map[]
    ensures RangeStore(parts, a, b) == RangeStore(parts, f, b)
    decreases f - a
  {
    if a < f {
      DropEmptyBelow(parts, a + 1, f, b);
      ExtendDown(parts, a + 1, b);
    }
  }

  lemma {:induction false} DropEmptyAbove(parts: Parts, a: nat, f: nat, b: nat)
    requires 1 <= a <= f + 1 && f <= b <= |parts|
    requires forall k | f <= k < b :: parts[k] == map[]
    ensures RangeStore(parts, a, b) == RangeStore(parts, a, f)
    decreases b
  {
    if f < b {
      DropEmptyAbove(parts, a, f, b - 1);
    }
  }

  // ---------------------------------------------------------------------------------------
  // Where a run starts
  // ---------------------------------------------------------------------------------------

  lemma KeyInRange(parts: Parts, a: nat, b: nat, k: nat) returns (i: int32)
    requires ChainParts(parts) && 1 <= a <= k + 1 <= b <= |parts| && parts[k] != map[]
    ensures TxIndexKey(k + 1, i) in RangeStore(parts, a, b) && InRange(TxIndexKey(k + 1, i))
  {
    assert OwnKeysAt(parts, k);
    i :| TxIndexKey(k + 1, i) in parts[k];
    RangeKeys(parts, a, b, TxIndexKey(k + 1, i));
    KeyRanges(seq(32, _ => 0), k + 1, i);
  }

  lemma RangeHasKeys(parts: Parts, a: nat, b: nat)
    requires ChainParts(parts) && 1 <= a <= b + 1 && b <= |parts|
    ensures RangeStore(parts, a, b) != map[] <==> exists key :: key in RangeStore(parts, a, b) && InRange(key)
  {
    var db := RangeStore(parts, a, b);
    if key :| key in db {
      RangeKeys(parts, a, b, key);
      var k: nat :| a <= k + 1 <= b && k < |parts| && key in parts[k];
      var i := KeyInRange(parts, a, b, k);
    }
  }

  lemma HeightOfKey(parts: Parts, a: nat, b: nat, key: Bytes) returns (k: nat, i: int32)
    requires ChainParts(parts) && 1 <= a <= b + 1 && b <= |parts|
    requires key in RangeStore(parts, a, b) && InRange(key)
    ensures a <= k + 1 <= b && parts[k] != map[] && key == TxIndexKey(k + 1, i)
    ensures ParseBlockNumber(key) == BlockNumber(k + 1)
  {
    RangeKeys(parts, a, b, key);
    k :| a <= k + 1 <= b && k < |parts| && key in parts[k];
    assert OwnKeysAt(parts, k);
    i :| IsKeyOf(key, k + 1, i);
    ParseIndexKey(k + 1, i);
  }

  lemma OrderOfHeights(h: nat, i: int32, h': nat, i': int32)
    requires h < h' < TWO_63
    ensures Less(TxIndexKey(h, i), TxIndexKey(h', i'))
  {
    TxIndexKeyOrder(h, i, h', i');
    Low64NonNegative(h);
    Low64NonNegative(h');
  }

  lemma NothingBefore(parts: Parts, a: nat, b: nat, k: nat, i: int32, j: nat)
    requires ChainParts(parts) && 1 <= a <= j + 1 && j < k && k + 1 <= b <= |parts|
    requires IsFirstKey(RangeStore(parts, a, b), TxIndexKey(k + 1, i))
    ensures parts[j] == map[]
  {
    if parts[j] != map[] {
      var i' := KeyInRange(parts, a, b, j);
      OrderOfHeights(j + 1, i', k + 1, i);
    }
  }

  lemma NoneAfter(db: Store, h: nat, i: int32, h': nat, i': int32)
    requires h < h' < TWO_63 && IsLastKey(db, TxIndexKey(h, i))
    ensures !(TxIndexKey(h', i') in db && InRange(TxIndexKey(h', i')))
  {
    OrderOfHeights(h, i, h', i');
  }

  lemma NothingAfter(parts: Parts, a: nat, b: nat, k: nat, i: int32, j: nat)
    requires ChainParts(parts) && 1 <= a <= k + 1 && k < j && j + 1 <= b <= |parts|
    requires IsLastKey(RangeStore(parts, a, b), TxIndexKey(k + 1, i))
    ensures parts[j] == map[]
  {
    if parts[j] != map[] {
      var i' := KeyInRange(parts, a, b, j);
      NoneAfter(RangeStore(parts, a, b), k + 1, i, j + 1, i');
    }
  }

  lemma FromFirstKey(parts: Parts, a: nat, b: nat, key: Bytes) returns (h: nat)
    requires ChainParts(parts) && 1 <= a <= b + 1 && b <= |parts|
    requires IsFirstKey(RangeStore(parts, a, b), key)
    ensures a <= h <= b && h < TWO_63 && ParseBlockNumber(key) == BlockNumber(h)
    ensures forall k: nat | a - 1 <= k < h - 1 :: parts[k] == map[]
  {
    var k, i := HeightOfKey(parts, a, b, key);
    forall j: nat | a - 1 <= j < k
      ensures parts[j] == map[]
    {
      NothingBefore(parts, a, b, k, i, j);
    }
    h := k + 1;
  }

  lemma FromLastKey(parts: Parts, a: nat, b: nat, key: Bytes) returns (h: nat)
    requires ChainParts(parts) && 1 <= a <= b + 1 && b <= |parts|
    requires IsLastKey(RangeStore(parts, a, b), key)
    ensures a <= h <= b && h < TWO_63 && ParseBlockNumber(key) == BlockNumber(h)
    ensures forall k: nat | h <= k < b :: parts[k] == map[]
  {
    var k, i := HeightOfKey(parts, a, b, key);
    h := k + 1;
    forall j: nat | h <= j < b
      ensures parts[j] == map[]
    {
      NothingAfter(parts, a, b, k, i, j);
    }
  }

  /** The first indexed block of a range is its first height that wrote anything. */
  lemma RangeFirst(parts: Parts, a: nat, b: nat, r: BlockNumber) returns (h: nat)
    requires ChainParts(parts) && 1 <= a <= b + 1 && b <= |parts|
    requires RangeStore(parts, a, b) != map[] && IsFirstBlock(RangeStore(parts, a, b), r)
    ensures a <= h <= b && h < TWO_63 && r == BlockNumber(h)
    ensures forall k: nat | a - 1 <= k < h - 1 :: parts[k] == map[]
  {
    RangeHasKeys(parts, a, b);
    var key :| IsFirstKey(RangeStore(parts, a, b), key) && r == ParseBlockNumber(key);
    h := FromFirstKey(parts, a, b, key);
  }

  lemma RangeLast(parts: Parts, a: nat, b: nat, r: BlockNumber) returns (h: nat)
    requires ChainParts(parts) && 1 <= a <= b + 1 && b <= |parts|
    requires RangeStore(parts, a, b) != map[] && IsLastBlock(RangeStore(parts, a, b), r)
    ensures a <= h <= b && h < TWO_63 && r == BlockNumber(h)
    ensures forall k: nat | h <= k < b :: parts[k] == map[]
  {
    RangeHasKeys(parts, a, b);
    var key :| IsLastKey(RangeStore(parts, a, b), key) && r == ParseBlockNumber(key);
    h := FromLastKey(parts, a, b, key);
  }

  // ---------------------------------------------------------------------------------------
  // Where a run ends
  // ---------------------------------------------------------------------------------------

  lemma {:induction false} DownRange(parts: Parts, b: nat, i: nat, faults: set<int>) returns (a: nat)
    requires Separate(parts) && i <= b <= |parts|
    ensures var end := IndexDown(RangeStore(parts, i + 1, b), parts, i, faults);
            1 <= a <= i + 1 && end.db == RangeStore(parts, a, b) && (end.completed ==> a == 1)
  {
    if i == 0 || i in faults {
      a := i + 1;
    } else {
      ExtendDown(parts, i + 1, b);
      a := DownRange(parts, b, i - 1, faults);
    }
  }

  lemma {:induction false} UpRange(parts: Parts, a: nat, i: nat, faults: set<int>) returns (b: nat)
    requires 1 <= a <= i <= |parts| + 1
    ensures var end := IndexUp(RangeStore(parts, a, i - 1), parts, i, faults);
            i - 1 <= b <= |parts| && end.db == RangeStore(parts, a, b) && (end.completed ==> b == |parts|)
    decreases |parts| - i
  {
    if i == |parts| + 1 || i in faults {
      b := i - 1;
    } else {
      assert RangeStore(parts, a, i) == RangeStore(parts, a, i - 1) + parts[i - 1];
      b := UpRange(parts, a, i + 1, faults);
    }
  }

  lemma DownFrom(parts: Parts, a: nat, b: nat, h: nat, faults: set<int>) returns (a': nat)
    requires Separate(parts) && 1 <= a <= h <= b <= |parts|
    requires forall k: nat | a - 1 <= k < h - 1 :: parts[k] == map[]
    ensures var end := IndexDown(RangeStore(parts, a, b), parts, h - 1, faults);
            1 <= a' <= a && end.db == RangeStore(parts, a', b) && (end.completed ==> a' == 1)
  {
    DropEmptyBelow(parts, a, h, b);
    a' := DownRange(parts, b, h - 1, faults);
    if a' > a {
      DropEmptyBelow(parts, a, a', b);
      a' := a;
    }
  }

  lemma UpFrom(parts: Parts, a: nat, b: nat, h: nat, faults: set<int>) returns (b': nat)
    requires 1 <= a <= h <= b <= |parts|
    requires forall k: nat | h <= k < b :: parts[k] == map[]
    ensures var end := IndexUp(RangeStore(parts, a, b), parts, h + 1, faults);
            b <= b' <= |parts| && end.db == RangeStore(parts, a, b') && (end.completed ==> b' == |parts|)
  {
    DropEmptyAbove(parts, a, h, b);
    b' := UpRange(parts, a, h + 1, faults);
    if b' < b {
      DropEmptyAbove(parts, a, b', b);
      b' := b;
    }
  }

  /**
   From an index of exactly the heights `a` to `b` that is not empty, a backward run leaves the
   index of exactly some longer range down from `b`; if it completes, that of all heights up to `b`.
   */
  lemma BackwardConverges(parts: Parts, a: nat, b: nat, first: BlockNumber, faults: set<int>) returns (a': nat)
    requires ChainParts(parts) && 1 <= a <= b + 1 && b <= |parts|
    requires RangeStore(parts, a, b) != map[] && IsFirstBlock(RangeStore(parts, a, b), first)
    ensures var end := BackwardRun(RangeStore(parts, a, b), first, parts, faults);
            && 1 <= a' <= a && end.db == RangeStore(parts, a', b) && end.db != map[]
            && (end.completed ==> a' == 1)
  {
    var h := RangeFirst(parts, a, b, first);
    a' := DownConverges(parts, a, b, h, faults);
  }

  lemma DownConverges(parts: Parts, a: nat, b: nat, h: nat, faults: set<int>) returns (a': nat)
    requires Separate(parts) && 1 <= a <= h <= b <= |parts| && RangeStore(parts, a, b) != map[] && h < TWO_63
    requires forall k: nat | a - 1 <= k < h - 1 :: parts[k] == map[]
    ensures var end := BackwardRun(RangeStore(parts, a, b), BlockNumber(h), parts, faults);
            && 1 <= a' <= a && end.db == RangeStore(parts, a', b) && end.db != map[]
            && (end.completed ==> a' == 1)
  {
    a' := DownFrom(parts, a, b, h, faults);
    DownGrows(RangeStore(parts, a, b), parts, h - 1, faults);
  }

  /** Likewise forward, up to the height of the chain. */
  lemma ForwardConverges(parts: Parts, a: nat, b: nat, last: BlockNumber, faults: set<int>) returns (b': nat)
    requires ChainParts(parts) && 1 <= a <= b + 1 && b <= |parts|
    requires RangeStore(parts, a, b) != map[] && IsLastBlock(RangeStore(parts, a, b), last)
    ensures var end := ForwardRun(RangeStore(parts, a, b), last, parts, faults);
            && b <= b' <= |parts| && end.db == RangeStore(parts, a, b') && end.db != map[]
            && (end.completed ==> b' == |parts|)
  {
    var h := RangeLast(parts, a, b, last);
    b' := UpConverges(parts, a, b, h, faults);
  }

  lemma UpConverges(parts: Parts, a: nat, b: nat, h: nat, faults: set<int>) returns (b': nat)
    requires 1 <= a <= h <= b <= |parts| && RangeStore(parts, a, b) != map[] && h < TWO_63
    requires forall k: nat | h <= k < b :: parts[k] == map[]
    ensures var end := ForwardRun(RangeStore(parts, a, b), BlockNumber(h), parts, faults);
            && b <= b' <= |parts| && end.db == RangeStore(parts, a, b') && end.db != map[]
            && (end.completed ==> b' == |parts|)
  {
    b' := UpFrom(parts, a, b, h, faults);
    UpGrows(RangeStore(parts, a, b), parts, h + 1, faults);
  }

  lemma {:induction false} DownGrows(db: Store, parts: Parts, i: int, faults: set<int>)
    requires db != map[]
    ensures IndexDown(db, parts, i, faults).db != map[]
    decreases i
  {
    if 0 < i <= |parts| && i !in faults {
      DownGrows(db + parts[i - 1], parts, i - 1, faults);
    }
  }

  lemma {:induction false} UpGrows(db: Store, parts: Parts, i: int, faults: set<int>)
    requires db != map[]
    ensures IndexUp(db, parts, i, faults).db != map[]
    decreases |parts| - i
  {
    if 0 < i <= |parts| && i !in faults {
      UpGrows(db + parts[i - 1], parts, i + 1, faults);
    }
  }

  // ---------------------------------------------------------------------------------------
  // Where a run stops
  // ---------------------------------------------------------------------------------------

  /** Going down from `i`, the first height that fails is `f`, or none does and `f` is zero. */
  predicate FailsBelow(faults: set<int>, i: nat, f: nat) {
    f <= i && (f == 0 || f in faults) && forall h | f < h <= i :: h !in faults
  }

  /** Going up from `i` to `n`, the first height that fails is `f`, or none does and `f` is beyond `n`. */
  predicate FailsAbove(faults: set<int>, i: nat, n: nat, f: nat) {
    i <= f <= n + 1 && (f == n + 1 || f in faults) && forall h | i <= h < f :: h !in faults
  }

  lemma {:induction false} DownStops(parts: Parts, b: nat, i: nat, faults: set<int>, f: nat)
    requires Separate(parts) && i <= b <= |parts| && FailsBelow(faults, i, f)
    ensures IndexDown(RangeStore(parts, i + 1, b), parts, i, faults) == RunEnd(RangeStore(parts, f + 1, b), f == 0)
  {
    if f < i {
      ExtendDown(parts, i + 1, b);
      DownStops(parts, b, i - 1, faults, f);
    }
  }

  lemma {:induction false} UpStops(parts: Parts, a: nat, i: nat, faults: set<int>, f: nat)
    requires 1 <= a <= i <= |parts| + 1 && FailsAbove(faults, i, |parts|, f)
    ensures IndexUp(RangeStore(parts, a, i - 1), parts, i, faults) ==
            RunEnd(RangeStore(parts, a, f - 1), f == |parts| + 1)
    decreases |parts| - i
  {
    if i < f {
      assert RangeStore(parts, a, i) == RangeStore(parts, a, i - 1) + parts[i - 1];
      UpStops(parts, a, i + 1, faults, f);
    }
  }

  lemma {:induction false} FaultBelow(faults: set<int>, i: nat) returns (f: nat)
    ensures FailsBelow(faults, i, f)
  {
    if i == 0 || i in faults {
      f := i;
    } else {
      f := FaultBelow(faults, i - 1);
    }
  }

  lemma {:induction false} FaultAbove(faults: set<int>, i: nat, n: nat) returns (f: nat)
    requires i <= n + 1
    ensures FailsAbove(faults, i, n, f)
    decreases n - i
  {
    if i == n + 1 || i in faults {
      f := i;
    } else {
      f := FaultAbove(faults, i + 1, n);
    }
  }

  lemma DownStopsFrom(parts: Parts, a: nat, b: nat, h: nat, faults: set<int>) returns (f: nat)
    requires Separate(parts) && 1 <= a <= h <= b <= |parts| && h < TWO_63
    requires forall k: nat | a - 1 <= k < h - 1 :: parts[k] == map[]
    ensures FailsBelow(faults, h - 1, f)
    ensures BackwardRun(RangeStore(parts, a, b), BlockNumber(h), parts, faults) ==
            RunEnd(RangeStore(parts, f + 1, b), f == 0)
  {
    f := FaultBelow(faults, h - 1);
    DropEmptyBelow(parts, a, h, b);
    DownStops(parts, b, h - 1, faults, f);
  }

  lemma UpStopsFrom(parts: Parts, a: nat, b: nat, h: nat, faults: set<int>) returns (f: nat)
    requires 1 <= a <= h <= b <= |parts| && h < TWO_63
    requires forall k: nat | h <= k < b :: parts[k] == map[]
    ensures FailsAbove(faults, h + 1, |parts|, f)
    ensures ForwardRun(RangeStore(parts, a, b), BlockNumber(h), parts, faults) ==
            RunEnd(RangeStore(parts, a, f - 1), f == |parts| + 1)
  {
    f := FaultAbove(faults, h + 1, |parts|);
    DropEmptyAbove(parts, a, h, b);
    UpStops(parts, a, h + 1, faults, f);
  }

  /**
   A backward run from the first indexed block down indexes every height above the first one that
   fails, and completes exactly when none does.
   */
  lemma BackwardStops(parts: Parts, a: nat, b: nat, first: BlockNumber, faults: set<int>) returns (f: nat)
    requires ChainParts(parts) && 1 <= a <= b + 1 && b <= |parts|
    requires RangeStore(parts, a, b) != map[] && IsFirstBlock(RangeStore(parts, a, b), first)
    ensures first.BlockNumber? && a <= first.number <= b && FailsBelow(faults, first.number - 1, f)
    ensures BackwardRun(RangeStore(parts, a, b), first, parts, faults) == RunEnd(RangeStore(parts, f + 1, b), f == 0)
  {
    var h := RangeFirst(parts, a, b, first);
    f := DownStopsFrom(parts, a, b, h, faults);
  }

  /** Likewise forward from the last indexed block. */
  lemma ForwardStops(parts: Parts, a: nat, b: nat, last: BlockNumber, faults: set<int>) returns (f: nat)
    requires ChainParts(parts) && 1 <= a <= b + 1 && b <= |parts|
    requires RangeStore(parts, a, b) != map[] && IsLastBlock(RangeStore(parts, a, b), last)
    ensures last.BlockNumber? && a <= last.number <= b && FailsAbove(faults, last.number + 1, |parts|, f)
    ensures ForwardRun(RangeStore(parts, a, b), last, parts, faults) ==
            RunEnd(RangeStore(parts, a, f - 1), f == |parts| + 1)
  {
    var h := RangeLast(parts, a, b, last);
    f := UpStopsFrom(parts, a, b, h, faults);
  }

  /** The same from an empty database, where a backward run starts below the latest height. */
  lemma EmptyStops(parts: Parts, first: BlockNumber, last: BlockNumber, faults: set<int>, f: nat, g: nat)
    requires ChainParts(parts) && |parts| > 0 && IsFirstBlock(map[], first) && IsLastBlock(map[], last)
    requires FailsBelow(faults, |parts| - 1, f) && FailsAbove(faults, 1, |parts|, g)
    ensures BackwardRun(map[], first, parts, faults) == RunEnd(RangeStore(parts, f + 1, |parts| - 1), f == 0)
    ensures ForwardRun(map[], last, parts, faults) == RunEnd(RangeStore(parts, 1, g - 1), g == |parts| + 1)
  {
    EmptyHasNoBlocks(first, last);
    DownStops(parts, |parts| - 1, |parts| - 1, faults, f);
    UpStops(parts, 1, 1, faults, g);
  }

  // ---------------------------------------------------------------------------------------
  // Any number of runs
  // ---------------------------------------------------------------------------------------

  datatype Run = RunBackward(faults: set<int>) | RunForward(faults: set<int>)

  /** One run of the command takes the database from `db` to `end.db`. */
  ghost predicate Runs(db: Store, run: Run, parts: Parts, end: RunEnd) {
    match run
    case RunBackward(faults) => exists r :: IsFirstBlock(db, r) && end == BackwardRun(db, r, parts, faults)
    case RunForward(faults) => exists r :: IsLastBlock(db, r) && end == ForwardRun(db, r, parts, faults)
  }

  /** A history of runs: `ends[k]` is what run `k` leaves behind. */
  ghost predicate History(db: Store, runs: seq<Run>, parts: Parts, ends: seq<RunEnd>)
    decreases |runs|
  {
    if runs == [] then ends == []
    else
      var n := |runs| - 1;
      && |ends| == n + 1
      && History(db, runs[..n], parts, ends[..n])
      && Runs(EndOf(db, ends[..n]), runs[n], parts, ends[n])
  }

  function EndOf(db: Store, ends: seq<RunEnd>): Store {
    if ends == [] then db else ends[|ends| - 1].db
  }

  predicate Completed(runs: seq<Run>, ends: seq<RunEnd>, backward: bool)
    requires |runs| == |ends|
  {
    exists k | 0 <= k < |runs| :: ends[k].completed && runs[k].RunBackward? == backward
  }

  lemma CompletedPrefix(runs: seq<Run>, ends: seq<RunEnd>, backward: bool)
    requires |runs| == |ends| > 0
    ensures var n := |runs| - 1;
            Completed(runs, ends, backward) <==>
            Completed(runs[..n], ends[..n], backward) || (ends[n].completed && runs[n].RunBackward? == backward)
  {
    var n := |runs| - 1;
    if Completed(runs, ends, backward) {
      var k :| 0 <= k < |runs| && ends[k].completed && runs[k].RunBackward? == backward;
      if k < n {
        assert ends[..n][k].completed && runs[..n][k].RunBackward? == backward;
      }
    }
    if Completed(runs[..n], ends[..n], backward) {
      var k :| 0 <= k < n && ends[..n][k].completed && runs[..n][k].RunBackward? == backward;
      assert ends[k].completed && runs[k].RunBackward? == backward;
    }
  }

  lemma RunConverges(parts: Parts, a: nat, b: nat, run: Run, end: RunEnd) returns (a': nat, b': nat)
    requires ChainParts(parts) && 1 <= a <= b + 1 && b <= |parts| && RangeStore(parts, a, b) != map[]
    requires Runs(RangeStore(parts, a, b), run, parts, end)
    ensures 1 <= a' <= a && b <= b' <= |parts| && end.db == RangeStore(parts, a', b') && end.db != map[]
    ensures if run.RunBackward? then b' == b else a' == a
    ensures end.completed ==> if run.RunBackward? then a' == 1 else b' == |parts|
  {
    a', b' := a, b;
    var db := RangeStore(parts, a, b);
    match run
    case RunBackward(faults) =>
      var r :| IsFirstBlock(db, r) && end == BackwardRun(db, r, parts, faults);
      a' := BackwardConverges(parts, a, b, r, faults);
    case RunForward(faults) =>
      var r :| IsLastBlock(db, r) && end == ForwardRun(db, r, parts, faults);
      b' := ForwardConverges(parts, a, b, r, faults);
  }

  /** Every run of the history is in the given direction. */
  predicate OneWay(runs: seq<Run>, backward: bool) {
    forall run | run in runs :: run.RunBackward? == backward
  }

  /**
   Any history of runs, completed or interrupted, in either direction, leaves the index of exactly
   one range of heights around the original one. Once a backward run has completed the range
   starts at height one; once a forward run has completed it ends at the height of the chain. An
   end that no run works on stays where it was.
   */
  lemma {:induction false} HistoryConverges(parts: Parts, a: nat, b: nat, runs: seq<Run>, ends: seq<RunEnd>)
    returns (a': nat, b': nat)
    requires ChainParts(parts) && 1 <= a <= b + 1 && b <= |parts| && RangeStore(parts, a, b) != map[]
    requires |ends| == |runs| && History(RangeStore(parts, a, b), runs, parts, ends)
    ensures 1 <= a' <= a && b <= b' <= |parts|
    ensures EndOf(RangeStore(parts, a, b), ends) == RangeStore(parts, a', b') != map[]
    ensures Completed(runs, ends, true) ==> a' == 1
    ensures Completed(runs, ends, false) ==> b' == |parts|
    ensures OneWay(runs, true) ==> b' == b
    ensures OneWay(runs, false) ==> a' == a
    decreases |runs|
  {
    if runs == [] {
      a', b' := a, b;
    } else {
      var n := |runs| - 1;
      var a1, b1 := HistoryConverges(parts, a, b, runs[..n], ends[..n]);
      a', b' := RunConverges(parts, a1, b1, runs[n], ends[n]);
      CompletedPrefix(runs, ends, true);
      CompletedPrefix(runs, ends, false);
    }
  }

  // ---------------------------------------------------------------------------------------
  // Starting from an empty database
  // ---------------------------------------------------------------------------------------

  lemma EmptyHasNoBlocks(first: BlockNumber, last: BlockNumber)
    requires IsFirstBlock(map[], first) && IsLastBlock(map[], last)
    ensures first == last == BlockNumber(-1)
  {
  }

  /**
   On an empty database a completed forward run indexes the whole chain. A backward run leaves out
   the latest block, so a completed one indexes the whole chain exactly when that block writes nothing.
   */
  lemma EmptyDatabase(parts: Parts, first: BlockNumber, last: BlockNumber, faults: set<int>)
    requires ChainParts(parts) && |parts| > 0 && IsFirstBlock(map[], first) && IsLastBlock(map[], last)
    ensures var end := ForwardRun(map[], last, parts, faults);
            end.completed ==> end.db == RangeStore(parts, 1, |parts|)
    ensures var end := BackwardRun(map[], first, parts, faults);
            end.completed ==>
              && end.db == RangeStore(parts, 1, |parts| - 1)
              && (end.db == RangeStore(parts, 1, |parts|) <==> parts[|parts| - 1] == map[])
  {
    EmptyHasNoBlocks(first, last);
    var n := |parts|;
    var b := UpRange(parts, 1, 1, faults);
    var a := DownRange(parts, n - 1, n - 1, faults);
    LatestMatters(parts);
  }

  lemma LatestMatters(parts: Parts)
    requires ChainParts(parts) && |parts| > 0
    ensures RangeStore(parts, 1, |parts| - 1) == RangeStore(parts, 1, |parts|) <==> parts[|parts| - 1] == map[]
  {
    var n := |parts|;
    var latest := parts[n - 1];
    if key :| key in latest {
      RangeKeys(parts, 1, n - 1, key);
      forall k: nat | k < n - 1
        ensures key !in parts[k]
      {
        assert parts[k].Keys !! parts[n - 1].Keys;
      }
    }
  }

  /** A chain of one block with one transaction, on which a backward run from an empty database does nothing. */
  lemma BackwardMissesLatest() returns (chain: Chain)
    ensures ValidChain(chain) && |chain| == 1
    ensures BackwardRun(map[], BlockNumber(-1), Written(chain), {}) == RunEnd(map[], true)
    ensures RangeStore(Written(chain), 1, 1) != map[]
  {
    var hash: Hash := seq(32, _ => 7);
    var tx := BlockTx(0, false, Eth([EthMsg(hash, 21000)]), Parsed([ParsedTx(21000, false)]));
    var block := Block(1, [tx]);
    chain := [block];
    var parts := Written(chain);
    assert parts[0] == BlockStore(chain[0]);
    assert EntriesFrom(block, 0, 0, 0) == [EntryAt(block, 0, 0, 0)] + EntriesFrom(block, 0, 1, 1);
    assert Entries(block)[0].hash == hash;
    BlockKeys(block);
    assert hash in Hashes(Entries(block));
    assert TxHashKey(hash) in parts[0];
    assert RangeStore(parts, 1, 1) == RangeStore(parts, 1, 0) + parts[0];
  }

  /** The heights from `a` to `b` write nothing. */
  ghost predicate Silent(parts: Parts, a: nat, b: int) {
    forall k: nat | a <= k + 1 <= b && k < |parts| :: parts[k] == map[]
  }

  lemma {:induction false} SilentExactly(parts: Parts, a: nat, b: nat)
    requires 1 <= a <= b + 1 && b <= |parts|
    ensures RangeStore(parts, a, b) == map[] <==> Silent(parts, a, b)
    decreases b
  {
    if a <= b {
      SilentExactly(parts, a, b - 1);
      var front, last := RangeStore(parts, a, b - 1), parts[b - 1];
      assert front + last == map[] <==> front == map[] && last == map[] by {
        if key :| key in front {
          assert key in front + last;
        }
        if key :| key in last {
          assert key in front + last;
        }
      }
    }
  }

  /**
   A database that runs from an empty one have led to: the index of the heights `a` to `b`, down to
   height one once a backward run has completed, up to the height of the chain once a forward run
   has. If it is still empty, then what a completed run passed over writes nothing.
   */
  ghost predicate Reached(parts: Parts, db: Store, a: nat, b: nat, backward: bool, forward: bool) {
    && 1 <= a <= b + 1 && b <= |parts| && db == RangeStore(parts, a, b)
    && (backward ==> a == 1) && (forward ==> b == |parts|)
    && (db == map[] && backward ==> Silent(parts, 1, |parts| - 1))
    && (db == map[] && forward ==> Silent(parts, 1, |parts|))
  }

  lemma RunReaches(parts: Parts, db: Store, a: nat, b: nat, backward: bool, forward: bool, run: Run, end: RunEnd)
    returns (a': nat, b': nat)
    requires ChainParts(parts) && Reached(parts, db, a, b, backward, forward) && Runs(db, run, parts, end)
    ensures Reached(parts, end.db, a', b', backward || (run.RunBackward? && end.completed),
                    forward || (run.RunForward? && end.completed))
  {
    if db != map[] {
      a', b' := RunConverges(parts, a, b, run, end);
    } else if forward {
      a', b' := 1, |parts|;
      var x, y := EmptyRunReaches(parts, run, end);
      SilentExactly(parts, x, y);
      SilentExactly(parts, 1, |parts|);
    } else if run.RunBackward? && backward && |parts| > 0 {
      a', b' := 1, |parts| - 1;
      var x, y := EmptyRunReaches(parts, run, end);
      SilentExactly(parts, x, y);
      SilentExactly(parts, 1, |parts| - 1);
    } else {
      a', b' := EmptyRunReaches(parts, run, end);
      SilentExactly(parts, a', b');
    }
  }

  /** One run from an empty database. */
  lemma EmptyRunReaches(parts: Parts, run: Run, end: RunEnd) returns (a: nat, b: nat)
    requires ChainParts(parts) && Runs(map[], run, parts, end)
    ensures 1 <= a <= b + 1 && b <= |parts| && end.db == RangeStore(parts, a, b)
    ensures run.RunBackward? ==> b == (if |parts| == 0 then 0 else |parts| - 1) && (end.completed ==> a == 1)
    ensures run.RunForward? ==> a == 1 && (end.completed ==> b == |parts|)
  {
    match run
    case RunBackward(faults) =>
      if |parts| == 0 {
        a, b := 1, 0;
      } else {
        b := |parts| - 1;
        a := DownRange(parts, b, b, faults);
      }
    case RunForward(faults) =>
      a := 1;
      b := UpRange(parts, 1, 1, faults);
  }

  /** The height below the latest one, where a backward run from an empty database starts. */
  function BelowLatest(parts: Parts): nat {
    if parts == [] then 0 else |parts| - 1
  }

  /**
   Any history of runs that starts from an empty database, interrupted or not, leaves the index of
   exactly one range of heights; it is the whole chain once a run in each direction has completed.
   Forward runs alone leave a range that starts at height one, backward runs alone one that ends
   below the latest height.
   */
  lemma HistoryFromEmpty(parts: Parts, runs: seq<Run>, ends: seq<RunEnd>) returns (a: nat, b: nat)
    requires ChainParts(parts) && |ends| == |runs| && History(map[], runs, parts, ends)
    ensures 1 <= a <= b + 1 && b <= |parts| && EndOf(map[], ends) == RangeStore(parts, a, b)
    ensures Completed(runs, ends, true) ==> a == 1
    ensures Completed(runs, ends, false) ==> b == |parts|
    ensures runs != [] && OneWay(runs, true) ==> b == BelowLatest(parts)
    ensures OneWay(runs, false) ==> a == 1
  {
    if runs != [] && OneWay(runs, true) {
      assert runs[0] in runs;
      a := BackwardFromEmpty(parts, runs, ends);
      b := BelowLatest(parts);
    } else if OneWay(runs, false) {
      a := 1;
      b := ForwardFromEmpty(parts, runs, ends);
    } else {
      a, b := HistoryReaches(parts, runs, ends);
    }
  }

  lemma {:induction false} BackwardFromEmpty(parts: Parts, runs: seq<Run>, ends: seq<RunEnd>) returns (a: nat)
    requires ChainParts(parts) && |ends| == |runs| && History(map[], runs, parts, ends) && OneWay(runs, true)
    ensures 1 <= a <= BelowLatest(parts) + 1 && EndOf(map[], ends) == RangeStore(parts, a, BelowLatest(parts))
    ensures Completed(runs, ends, true) ==> a == 1
    decreases |runs|
  {
    var top := BelowLatest(parts);
    if runs == [] {
      a := top + 1;
    } else {
      var n := |runs| - 1;
      var x := BackwardFromEmpty(parts, runs[..n], ends[..n]);
      var db := EndOf(map[], ends[..n]);
      CompletedPrefix(runs, ends, true);
      assert runs[n] in runs;
      var b: nat;
      if db != map[] {
        a, b := RunConverges(parts, x, top, runs[n], ends[n]);
      } else {
        a, b := EmptyRunReaches(parts, runs[n], ends[n]);
        if x <= a {
          SilentExactly(parts, x, top);
          SilentExactly(parts, a, top);
          a := x;
        }
      }
    }
  }

  lemma {:induction false} ForwardFromEmpty(parts: Parts, runs: seq<Run>, ends: seq<RunEnd>) returns (b: nat)
    requires ChainParts(parts) && |ends| == |runs| && History(map[], runs, parts, ends) && OneWay(runs, false)
    ensures b <= |parts| && EndOf(map[], ends) == RangeStore(parts, 1, b)
    ensures Completed(runs, ends, false) ==> b == |parts|
    decreases |runs|
  {
    if runs == [] {
      b := 0;
    } else {
      var n := |runs| - 1;
      var y := ForwardFromEmpty(parts, runs[..n], ends[..n]);
      var db := EndOf(map[], ends[..n]);
      CompletedPrefix(runs, ends, false);
      assert runs[n] in runs;
      var a: nat;
      if db != map[] {
        a, b := RunConverges(parts, 1, y, runs[n], ends[n]);
      } else {
        a, b := EmptyRunReaches(parts, runs[n], ends[n]);
        if b <= y {
          SilentExactly(parts, 1, y);
          SilentExactly(parts, 1, b);
          b := y;
        }
      }
    }
  }

  lemma {:induction false} HistoryReaches(parts: Parts, runs: seq<Run>, ends: seq<RunEnd>) returns (a: nat, b: nat)
    requires ChainParts(parts) && |ends| == |runs| && History(map[], runs, parts, ends)
    ensures Reached(parts, EndOf(map[], ends), a, b, Completed(runs, ends, true), Completed(runs, ends, false))
    decreases |runs|
  {
    if runs == [] {
      a, b := 1, 0;
    } else {
      var n := |runs| - 1;
      var x, y := HistoryReaches(parts, runs[..n], ends[..n]);
      var back, ahead := Completed(runs[..n], ends[..n], true), Completed(runs[..n], ends[..n], false);
      a, b := RunReaches(parts, EndOf(map[], ends[..n]), x, y, back, ahead, runs[n], ends[n]);
      CompletedPrefix(runs, ends, true);
      CompletedPrefix(runs, ends, false);
    }
  }

  // ---------------------------------------------------------------------------------------
  // The results for a chain of blocks
  // ---------------------------------------------------------------------------------------

  /** The database after indexing the blocks of the heights `a` to `b`, one after the other, into an empty one. */
  ghost function IndexOf(chain: Chain, a: nat, b: nat): Store
    requires 1 <= a <= b + 1 && b <= |chain|
  {
    IndexAll(map[], chain[a - 1..b])
  }

  ghost function Union(parts: Parts): Store {
    if parts == [] then map[] else Union(parts[..|parts| - 1]) + parts[|parts| - 1]
  }

  lemma {:induction false} IndexAllIsUnion(parts: Parts, blocks: Chain)
    requires PartsOf(parts, blocks)
    ensures IndexAll(map[], blocks) == Union(parts)
    decreases |blocks|
  {
    if blocks != [] {
      var n := |blocks| - 1;
      PartsOfSlice(parts, blocks, 0, n);
      assert parts[0..n] == parts[..n] && blocks[0..n] == blocks[..n];
      IndexAllIsUnion(parts[..n], blocks[..n]);
      assert parts[n] == BlockStore(blocks[n]);
      IndexIsUnion(IndexAll(map[], blocks[..n]), blocks[n]);
    }
  }

  lemma PartsOfSlice(parts: Parts, blocks: Chain, a: nat, b: nat)
    requires PartsOf(parts, blocks) && a <= b <= |blocks|
    ensures PartsOf(parts[a..b], blocks[a..b])
  {
    forall k | 0 <= k < b - a
      ensures parts[a..b][k] == BlockStore(blocks[a..b][k])
    {
      assert parts[a + k] == BlockStore(blocks[a + k]);
    }
  }

  lemma {:induction false} RangeIsUnion(parts: Parts, a: nat, b: nat)
    requires 1 <= a <= b + 1 && b <= |parts|
    ensures RangeStore(parts, a, b) == Union(parts[a - 1..b])
    decreases b
  {
    if a <= b {
      RangeIsUnion(parts, a, b - 1);
      assert parts[a - 1..b][..b - a] == parts[a - 1..b - 1];
    }
  }

  lemma RangeIsIndex(chain: Chain, a: nat, b: nat)
    requires 1 <= a <= b + 1 && b <= |chain|
    ensures RangeStore(Written(chain), a, b) == IndexOf(chain, a, b)
  {
    RangeIsUnion(Written(chain), a, b);
    PartsOfSlice(Written(chain), chain, a - 1, b);
    IndexAllIsUnion(Written(chain)[a - 1..b], chain[a - 1..b]);
  }

  /**
   On a valid chain, from a database that holds exactly the index of the heights `a` to `b`: any
   number of interrupted backward runs and a completed one leave exactly the index of 1 to `b`, any
   number of forward runs exactly that of `a` to the height of the chain, and a completed run in
   each direction, among whatever other runs, that of the whole chain.
   */
  lemma CatchUp(chain: Chain, a: nat, b: nat, runs: seq<Run>, ends: seq<RunEnd>)
    requires ValidChain(chain) && 1 <= a <= b + 1 && b <= |chain| && IndexOf(chain, a, b) != map[]
    requires |ends| == |runs| && History(IndexOf(chain, a, b), runs, Written(chain), ends)
    ensures var db := EndOf(IndexOf(chain, a, b), ends);
            var back, ahead := Completed(runs, ends, true), Completed(runs, ends, false);
            && (back && OneWay(runs, true) ==> db == IndexOf(chain, 1, b))
            && (ahead && OneWay(runs, false) ==> db == IndexOf(chain, a, |chain|))
            && (back && ahead ==> db == IndexOf(chain, 1, |chain|))
            && exists a': nat, b': nat :: 1 <= a' <= a && b <= b' <= |chain| && db == IndexOf(chain, a', b')
  {
    WrittenChain(chain);
    RangeIsIndex(chain, a, b);
    var a', b' := HistoryConverges(Written(chain), a, b, runs, ends);
    RangeIsIndex(chain, a', b');
  }

  /** The same from an empty database, where backward runs alone never index the latest block. */
  lemma CatchUpFromEmpty(chain: Chain, runs: seq<Run>, ends: seq<RunEnd>)
    requires ValidChain(chain) && chain != []
    requires |ends| == |runs| && History(map[], runs, Written(chain), ends)
    ensures var db := EndOf(map[], ends);
            var back, ahead := Completed(runs, ends, true), Completed(runs, ends, false);
            && (back && OneWay(runs, true) ==> db == IndexOf(chain, 1, |chain| - 1))
            && (ahead && OneWay(runs, false) ==> db == IndexOf(chain, 1, |chain|))
            && (back && ahead ==> db == IndexOf(chain, 1, |chain|))
            && exists a: nat, b: nat :: 1 <= a <= b + 1 && b <= |chain| && db == IndexOf(chain, a, b)
  {
    WrittenChain(chain);
    var a, b := HistoryFromEmpty(Written(chain), runs, ends);
    RangeIsIndex(chain, a, b);
    assert EndOf(map[], ends) == IndexOf(chain, a, b);
  }
}
