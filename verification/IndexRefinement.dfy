/**
 What the bytes of the index mean: two maps, one by hash and one by block and index. Whatever
 blocks are indexed, in whatever order, the bytes stay a faithful image of the maps.
 */
module IndexRefinement {
  import opened Wire
  import opened Keys
  import opened TxResultCodec
  import opened KvIndexer

  // ---------------------------------------------------------------------------------------
  // The byte store refines two maps
  // ---------------------------------------------------------------------------------------

  /** The index as its users think of it. */
  datatype Index = Index(byHash: map<Hash, TxResult>, byPosition: map<(int64, int32), Hash>)

  const EMPTY: Index := Index(map[], map[])

  function Save(x: Index, e: Entry): Index {
    Index(x.byHash[e.hash := e.result], x.byPosition[Place(e.result) := e.hash])
  }

  /** Saving entries one after the other, the last one winning. */
  function SaveAll(x: Index, es: seq<Entry>): Index {
    if es == [] then x else Save(SaveAll(x, es[..|es| - 1]), es[|es| - 1])
  }

  ghost predicate IsHashKey(key: Bytes) {
    exists h: Hash :: key == TxHashKey(h)
  }

  ghost predicate IsIndexKey(key: Bytes) {
    exists b: int64, i: int32 :: key == TxIndexKey(b, i)
  }

  predicate HoldsHash(db: Store, m: map<Hash, TxResult>, h: Hash) {
    if h in m then TxHashKey(h) in db && db[TxHashKey(h)] == Encode(m[h]) else TxHashKey(h) !in db
  }

  predicate HoldsPosition(db: Store, m: map<(int64, int32), Hash>, b: int64, i: int32) {
    if (b, i) in m then TxIndexKey(b, i) in db && db[TxIndexKey(b, i)] == m[(b, i)] else TxIndexKey(b, i) !in db
  }

  /** The bytes hold the two maps and nothing else. */
  ghost predicate Represents(db: Store, x: Index) {
    && (forall h: Hash :: HoldsHash(db, x.byHash, h))
    && (forall b: int64, i: int32 :: HoldsPosition(db, x.byPosition, b, i))
    && forall key | key in db :: IsHashKey(key) || IsIndexKey(key)
  }

  /** Every position points to a transaction that is present. */
  predicate Linked(x: Index) {
    forall p | p in x.byPosition :: x.byPosition[p] in x.byHash
  }

  /** The store after one `saveTxResult`. */
  function Saved(db: Store, e: Entry): Store {
    db[TxHashKey(e.hash) := Encode(e.result)][TxIndexKey(e.result.height, e.result.ethTxIndex) := e.hash]
  }

  lemma ApplyTwo(db: Store, v: Write, w: Write)
    ensures Apply(db, [v, w]) == db[v.key := v.value][w.key := w.value]
  {
    assert [v, w][..1] == [v] && [v][..0] == [];
    assert Apply(db, [v]) == Apply(db, [])[v.key := v.value];
  }

  lemma SaveHash(db: Store, m: map<Hash, TxResult>, e: Entry, h: Hash)
    requires HoldsHash(db, m, h)
    ensures HoldsHash(Saved(db, e), m[e.hash := e.result], h)
  {
    TxHashKeyInjective(h, e.hash);
    KeyFamiliesDisjoint(h, e.result.height, e.result.ethTxIndex);
  }

  lemma SavePosition(db: Store, m: map<(int64, int32), Hash>, e: Entry, b: int64, i: int32)
    requires HoldsPosition(db, m, b, i)
    ensures HoldsPosition(Saved(db, e), m[(e.result.height, e.result.ethTxIndex) := e.hash], b, i)
  {
    TxIndexKeyInjective(b, i, e.result.height, e.result.ethTxIndex);
    KeyFamiliesDisjoint(e.hash, b, i);
  }

  lemma {:induction false} ApplyConcat(db: Store, a: seq<Write>, b: seq<Write>)
    ensures Apply(db, a + b) == Apply(Apply(db, a), b)
  {
    if b == [] {
      assert a + b == a;
    } else {
      assert (a + b)[..|a + b| - 1] == a + b[..|b| - 1];
      ApplyConcat(db, a, b[..|b| - 1]);
    }
  }

  /** Writing entries to the bytes is saving them in the maps. */
  lemma {:induction false} ApplyRepresents(db: Store, x: Index, es: seq<Entry>)
    requires Represents(db, x)
    ensures Represents(Apply(db, Writes(es)), SaveAll(x, es))
  {
    if es != [] {
      var front, e := es[..|es| - 1], es[|es| - 1];
      ApplyRepresents(db, x, front);
      ApplyConcat(db, Writes(front), SaveWrites(e));
      SaveRepresents(Apply(db, Writes(front)), SaveAll(x, front), e);
    }
  }

  lemma SaveRepresents(db: Store, x: Index, e: Entry)
    requires Represents(db, x)
    ensures Represents(Apply(db, SaveWrites(e)), Save(x, e))
  {
    var db', x' := Saved(db, e), Save(x, e);
    ApplyTwo(db, SaveWrites(e)[0], SaveWrites(e)[1]);
    forall h: Hash
      ensures HoldsHash(db', x'.byHash, h)
    {
      SaveHash(db, x.byHash, e, h);
    }
    forall b: int64, i: int32
      ensures HoldsPosition(db', x'.byPosition, b, i)
    {
      SavePosition(db, x.byPosition, e, b, i);
    }
  }

  // ---------------------------------------------------------------------------------------
  // Histories of blocks
  // ---------------------------------------------------------------------------------------

  /** The database after indexing blocks one after the other. */
  function IndexAll(db: Store, blocks: seq<Block>): Store {
    if blocks == [] then db else IndexedStore(IndexAll(db, blocks[..|blocks| - 1]), blocks[|blocks| - 1])
  }

  function AllEntries(blocks: seq<Block>): seq<Entry> {
    if blocks == [] then [] else AllEntries(blocks[..|blocks| - 1]) + Entries(blocks[|blocks| - 1])
  }

  lemma {:induction false} SaveAllConcat(x: Index, es: seq<Entry>, fs: seq<Entry>)
    ensures SaveAll(x, es + fs) == SaveAll(SaveAll(x, es), fs)
  {
    if fs == [] {
      assert es + fs == es;
    } else {
      assert (es + fs)[..|es + fs| - 1] == es + fs[..|fs| - 1];
      SaveAllConcat(x, es, fs[..|fs| - 1]);
    }
  }

  lemma EmptyRepresents()
    ensures Represents(map[], EMPTY)
  {
  }

  lemma {:induction false} SaveAllLinked(x: Index, es: seq<Entry>)
    requires Linked(x)
    ensures Linked(SaveAll(x, es))
  {
    if es != [] {
      SaveAllLinked(x, es[..|es| - 1]);
    }
  }

  /**
   After any sequence of indexed blocks, the bytes represent the maps obtained by saving the
   entries of those blocks in order, and every position points to a transaction that is present.
   */
  lemma {:induction false} HistoryRefines(blocks: seq<Block>)
    ensures Represents(IndexAll(map[], blocks), SaveAll(EMPTY, AllEntries(blocks)))
    ensures Linked(SaveAll(EMPTY, AllEntries(blocks)))
  {
    SaveAllLinked(EMPTY, AllEntries(blocks));
    if blocks == [] {
      EmptyRepresents();
    } else {
      var front, block := blocks[..|blocks| - 1], blocks[|blocks| - 1];
      HistoryRefines(front);
      ApplyRepresents(IndexAll(map[], front), SaveAll(EMPTY, AllEntries(front)), Entries(block));
      SaveAllConcat(EMPTY, AllEntries(front), Entries(block));
    }
  }

  // ---------------------------------------------------------------------------------------
  // Lookups
  // ---------------------------------------------------------------------------------------

  /** A hash lookup reads the map, except that an all-zero result reads as missing. */
  lemma LookupHashReads(db: Store, x: Index, h: Hash)
    requires Represents(db, x)
    ensures LookupHash(db, h) ==
            if h in x.byHash && x.byHash[h] != FRESH then Found(x.byHash[h]) else NotFound
  {
    assert HoldsHash(db, x.byHash, h);
    if h in x.byHash {
      RoundTrip(x.byHash[h]);
      EncodeEmpty(x.byHash[h]);
    }
  }

  lemma LookupPositionReads(db: Store, x: Index, b: int64, i: int32)
    requires Represents(db, x)
    ensures LookupPosition(db, b, i) ==
            if (b, i) in x.byPosition then LookupHash(db, x.byPosition[(b, i)]) else NotFound
  {
    assert HoldsPosition(db, x.byPosition, b, i);
  }

  /** The last entry saved under a hash is the one its lookup finds. */
  lemma {:induction false} LastSaved(x: Index, es: seq<Entry>, k: nat)
    requires k < |es| && forall m | k < m < |es| :: es[m].hash != es[k].hash
    ensures es[k].hash in SaveAll(x, es).byHash && SaveAll(x, es).byHash[es[k].hash] == es[k].result
  {
    if k < |es| - 1 {
      var front := es[..|es| - 1];
      assert front[k] == es[k];
      LastSaved(x, front, k);
    }
  }

  /** Conversely, everything in the maps was saved at some time. */
  lemma {:induction false} OnlySaved(es: seq<Entry>)
    ensures forall h | h in SaveAll(EMPTY, es).byHash ::
              exists k :: 0 <= k < |es| && es[k] == Entry(h, SaveAll(EMPTY, es).byHash[h])
    ensures forall p | p in SaveAll(EMPTY, es).byPosition ::
              exists k :: 0 <= k < |es| && IsAt(es[k], p) && es[k].hash == SaveAll(EMPTY, es).byPosition[p]
  {
    if es != [] {
      var front, e := es[..|es| - 1], es[|es| - 1];
      OnlySaved(front);
      var x := SaveAll(EMPTY, front);
      forall h | h in Save(x, e).byHash
        ensures exists k :: 0 <= k < |es| && es[k] == Entry(h, Save(x, e).byHash[h])
      {
        if h == e.hash {
          assert es[|es| - 1] == Entry(h, e.result);
        } else {
          var k :| 0 <= k < |front| && front[k] == Entry(h, x.byHash[h]);
          assert es[k] == front[k];
        }
      }
      forall p | p in Save(x, e).byPosition
        ensures exists k :: 0 <= k < |es| && IsAt(es[k], p) && es[k].hash == Save(x, e).byPosition[p]
      {
        if IsAt(e, p) {
          assert IsAt(es[|es| - 1], p);
        } else {
          var k :| 0 <= k < |front| && IsAt(front[k], p) && front[k].hash == x.byPosition[p];
          assert IsAt(es[k], p);
        }
      }
    }
  }

  function Place(r: TxResult): (int64, int32) {
    (r.height, r.ethTxIndex)
  }

  predicate IsAt(e: Entry, p: (int64, int32)) {
    p == Place(e.result)
  }

  /** Equal hashes are saved at equal positions, as when a block is indexed again. */
  predicate SamePlaces(es: seq<Entry>) {
    forall m, n | 0 <= m < n < |es| && es[m].hash == es[n].hash :: Place(es[n].result) == Place(es[m].result)
  }

  /** No later entry has the hash. */
  predicate LastOfHash(es: seq<Entry>, k: nat) {
    k < |es| && forall m | k < m < |es| :: es[m].hash != es[k].hash
  }

  /** No later entry has the position. */
  predicate LastOfPlace(es: seq<Entry>, k: nat) {
    k < |es| && forall m | k < m < |es| :: Place(es[m].result) != Place(es[k].result)
  }

  lemma {:induction false} FindLastOfHash(es: seq<Entry>, k: nat) returns (m: nat)
    requires k < |es|
    ensures k <= m && LastOfHash(es, m) && es[m].hash == es[k].hash
    decreases |es| - k
  {
    if n :| k < n < |es| && es[n].hash == es[k].hash {
      m := FindLastOfHash(es, n);
    } else {
      m := k;
    }
  }

  /** The last entry saved at a position is the one it points to. */
  lemma {:induction false} LastPlaced(x: Index, es: seq<Entry>, k: nat)
    requires LastOfPlace(es, k)
    ensures Place(es[k].result) in SaveAll(x, es).byPosition && SaveAll(x, es).byPosition[Place(es[k].result)] == es[k].hash
  {
    if k < |es| - 1 {
      var front := es[..|es| - 1];
      assert front[k] == es[k];
      LastPlaced(x, front, k);
      assert Place(es[|es| - 1].result) != Place(es[k].result);
    }
  }

  /**
   When a hash is always indexed at the same position, however often, the lookup by block and index
   answers with the result of that block and index that was saved last under its hash. It answers
   nothing when the position was never indexed, or when that result is all zero.
   */
  lemma PositionLookupConsistent(blocks: seq<Block>, b: int64, i: int32)
    requires SamePlaces(AllEntries(blocks))
    ensures var es := AllEntries(blocks);
            var x := SaveAll(EMPTY, es);
            match LookupPosition(IndexAll(map[], blocks), b, i)
            case Found(r) =>
              && r.height == b && r.ethTxIndex == i && (b, i) in x.byPosition
              && exists m: nat :: LastOfHash(es, m) && es[m].hash == x.byPosition[(b, i)] && es[m].result == r
            case NotFound => (b, i) in x.byPosition ==> ZeroSaved(x, x.byPosition[(b, i)]) && b == 0 && i == 0
            case Corrupt(_) => false
  {
    var es, db := AllEntries(blocks), IndexAll(map[], blocks);
    var x := SaveAll(EMPTY, es);
    HistoryRefines(blocks);
    LookupPositionReads(db, x, b, i);
    if (b, i) in x.byPosition {
      var m := PositionLeads(es, (b, i));
      LookupHashReads(db, x, es[m].hash);
    }
  }

  lemma PositionLeads(es: seq<Entry>, p: (int64, int32)) returns (m: nat)
    requires SamePlaces(es) && p in SaveAll(EMPTY, es).byPosition
    ensures LastOfHash(es, m) && es[m].hash == SaveAll(EMPTY, es).byPosition[p] && Place(es[m].result) == p
    ensures es[m].hash in SaveAll(EMPTY, es).byHash && SaveAll(EMPTY, es).byHash[es[m].hash] == es[m].result
  {
    var k := PositionSaved(es, p);
    m := FindLastOfHash(es, k);
    LastSaved(EMPTY, es, m);
  }

  lemma PositionSaved(es: seq<Entry>, p: (int64, int32)) returns (k: nat)
    requires p in SaveAll(EMPTY, es).byPosition
    ensures k < |es| && Place(es[k].result) == p && es[k].hash == SaveAll(EMPTY, es).byPosition[p]
  {
    OnlySaved(es);
    k :| 0 <= k < |es| && IsAt(es[k], p) && es[k].hash == SaveAll(EMPTY, es).byPosition[p];
  }

  predicate ZeroSaved(x: Index, h: Hash) {
    h in x.byHash && x.byHash[h] == FRESH
  }

  /** For each position, the last entry under the hash that was saved there last is at that position. */
  ghost predicate LastPlacesAgree(es: seq<Entry>) {
    forall k: nat, m: nat | LastOfPlace(es, k) && LastOfHash(es, m) && es[m].hash == es[k].hash ::
      Place(es[m].result) == Place(es[k].result)
  }

  /**
   Without any assumption on the history: every position leads to a result of that very position
   exactly when the last entry under the hash it points to is at that position.
   */
  lemma ConsistentExactly(es: seq<Entry>)
    ensures Consistent(SaveAll(EMPTY, es)) <==> LastPlacesAgree(es)
  {
    var x := SaveAll(EMPTY, es);
    forall k: nat, m: nat | LastOfPlace(es, k) && LastOfHash(es, m) && es[m].hash == es[k].hash
      ensures Consistent(x) ==> Place(es[m].result) == Place(es[k].result)
    {
      LastPlaced(EMPTY, es, k);
      LastSaved(EMPTY, es, m);
    }
    if LastPlacesAgree(es) {
      forall p | p in x.byPosition
        ensures ConsistentAt(x, p)
      {
        var k := PositionSaved(es, p);
        var j := FindLastOfPlace(es, k);
        LastPlaced(EMPTY, es, j);
        var m := FindLastOfHash(es, j);
        LastSaved(EMPTY, es, m);
      }
    }
  }

  /**
   The lookup by block and index is right: what it finds is of that block and index, and it finds
   something whenever anything was saved there, except that an all-zero result, which can only
   be right at block 0, may read as missing.
   */
  ghost predicate AnswersRight(db: Store, es: seq<Entry>, b: int64, i: int32) {
    match LookupPosition(db, b, i)
    case Found(r) => Place(r) == (b, i)
    case NotFound => (b == 0 && i == 0) || forall e | e in es :: !IsAt(e, (b, i))
    case Corrupt(_) => false
  }

  ghost predicate AllAnswersRight(db: Store, es: seq<Entry>) {
    forall b: int64, i: int32 :: AnswersRight(db, es, b, i)
  }

  /** The same for the bytes: after any history, when all lookups by block and index are right. */
  lemma LookupsRightExactly(blocks: seq<Block>)
    ensures AllAnswersRight(IndexAll(map[], blocks), AllEntries(blocks)) <==> LastPlacesAgree(AllEntries(blocks))
  {
    HistoryRefines(blocks);
    AnswersConsistent(IndexAll(map[], blocks), AllEntries(blocks));
    ConsistentExactly(AllEntries(blocks));
  }

  lemma AnswersConsistent(db: Store, es: seq<Entry>)
    requires Represents(db, SaveAll(EMPTY, es)) && Linked(SaveAll(EMPTY, es))
    ensures AllAnswersRight(db, es) <==> Consistent(SaveAll(EMPTY, es))
  {
    var x := SaveAll(EMPTY, es);
    if AllAnswersRight(db, es) {
      forall p | p in x.byPosition
        ensures ConsistentAt(x, p)
      {
        assert AnswersRight(db, es, p.0, p.1);
        AnswersAt(db, es, p.0, p.1);
      }
    }
    if Consistent(x) {
      forall b: int64, i: int32
        ensures AnswersRight(db, es, b, i)
      {
        AnswersAt(db, es, b, i);
      }
    }
  }

  lemma AnswersAt(db: Store, es: seq<Entry>, b: int64, i: int32)
    requires Represents(db, SaveAll(EMPTY, es)) && Linked(SaveAll(EMPTY, es))
    ensures AnswersRight(db, es, b, i) <==> ConsistentAt(SaveAll(EMPTY, es), (b, i))
  {
    var x := SaveAll(EMPTY, es);
    LookupPositionReads(db, x, b, i);
    if (b, i) in x.byPosition {
      var k := PositionSaved(es, (b, i));
      assert es[k] in es && IsAt(es[k], (b, i));
      LookupHashReads(db, x, x.byPosition[(b, i)]);
    } else {
      forall e | e in es
        ensures !IsAt(e, (b, i))
      {
        var k :| 0 <= k < |es| && es[k] == e;
        var m := FindLastOfPlace(es, k);
        LastPlaced(EMPTY, es, m);
      }
    }
  }

  lemma {:induction false} FindLastOfPlace(es: seq<Entry>, k: nat) returns (m: nat)
    requires k < |es|
    ensures k <= m && LastOfPlace(es, m) && Place(es[m].result) == Place(es[k].result)
    decreases |es| - k
  {
    if n :| k < n < |es| && Place(es[n].result) == Place(es[k].result) {
      m := FindLastOfPlace(es, n);
    } else {
      m := k;
    }
  }

  /** Every position leads to a result of that very position. */
  predicate Consistent(x: Index) {
    forall p | p in x.byPosition :: ConsistentAt(x, p)
  }

  predicate ConsistentAt(x: Index, p: (int64, int32)) {
    p in x.byPosition ==> x.byPosition[p] in x.byHash && p == Place(x.byHash[x.byPosition[p]])
  }

  /** Saving keeps this exactly when the hash is not already indexed at another position. */
  lemma SaveKeepsConsistent(x: Index, e: Entry)
    requires Consistent(x)
    ensures Consistent(Save(x, e)) <==> forall p | p in x.byPosition && x.byPosition[p] == e.hash :: IsAt(e, p)
  {
    var x' := Save(x, e);
    if Consistent(x') {
      forall p | p in x.byPosition && x.byPosition[p] == e.hash
        ensures IsAt(e, p)
      {
        assert p in x'.byPosition && x'.byPosition[p] == e.hash;
      }
    }
  }

  // ---------------------------------------------------------------------------------------
  // Indexing again, and in another order
  // ---------------------------------------------------------------------------------------

  /** What a block writes, on its own. */
  function BlockStore(block: Block): Store {
    IndexedStore(map[], block)
  }

  lemma {:induction false} ApplyIsUnion(db: Store, ws: seq<Write>)
    ensures Apply(db, ws) == db + Apply(map[], ws)
  {
    if ws != [] {
      ApplyIsUnion(db, ws[..|ws| - 1]);
    }
  }

  lemma IndexIsUnion(db: Store, block: Block)
    ensures IndexedStore(db, block) == db + BlockStore(block)
  {
    ApplyIsUnion(db, Writes(Entries(block)));
  }

  lemma IndexIdempotent(db: Store, block: Block)
    ensures IndexedStore(IndexedStore(db, block), block) == IndexedStore(db, block)
  {
    IndexIsUnion(db, block);
    IndexIsUnion(IndexedStore(db, block), block);
  }

  function Hashes(es: seq<Entry>): set<Hash> {
    set e | e in es :: e.hash
  }

  /** The keys a block writes: one hash key per hash, and index keys of its own height. */
  lemma BlockKeys(block: Block)
    ensures Represents(BlockStore(block), SaveAll(EMPTY, Entries(block)))
    ensures forall h: Hash :: TxHashKey(h) in BlockStore(block) <==> h in Hashes(Entries(block))
    ensures forall b: int64, i: int32 | TxIndexKey(b, i) in BlockStore(block) :: b == block.height
  {
    var es, db := Entries(block), BlockStore(block);
    var x := SaveAll(EMPTY, es);
    EmptyRepresents();
    ApplyRepresents(map[], EMPTY, es);
    OnlySaved(es);
    EntryHeights(block);
    forall h: Hash
      ensures TxHashKey(h) in db <==> h in Hashes(es)
    {
      assert HoldsHash(db, x.byHash, h);
      if h in Hashes(es) {
        var e :| e in es && e.hash == h;
        EverySaved(EMPTY, es, e);
      }
    }
    forall b: int64, i: int32 | TxIndexKey(b, i) in db
      ensures b == block.height
    {
      assert HoldsPosition(db, x.byPosition, b, i);
      var k :| 0 <= k < |es| && IsAt(es[k], (b, i)) && es[k].hash == x.byPosition[(b, i)];
      assert es[k] in es;
    }
  }

  lemma {:induction false} EverySaved(x: Index, es: seq<Entry>, e: Entry)
    requires e in es
    ensures e.hash in SaveAll(x, es).byHash
    ensures (e.result.height, e.result.ethTxIndex) in SaveAll(x, es).byPosition
  {
    if e != es[|es| - 1] {
      EverySaved(x, es[..|es| - 1], e);
    }
  }

  lemma EntryHeights(block: Block)
    ensures forall e | e in Entries(block) :: e.result.height == block.height
  {
    var ps := EntriesExact(block);
    forall e | e in Entries(block)
      ensures e.result.height == block.height
    {
      var k :| 0 <= k < |Entries(block)| && Entries(block)[k] == e;
      assert Reports(block, Entries(block)[k], ps[k], k);
    }
  }

  lemma DisjointBlocks(a: Block, b: Block)
    requires a.height != b.height && Hashes(Entries(a)) !! Hashes(Entries(b))
    ensures BlockStore(a).Keys !! BlockStore(b).Keys
  {
    BlockKeys(a);
    BlockKeys(b);
    forall key | key in BlockStore(a)
      ensures key !in BlockStore(b)
    {
      if IsHashKey(key) {
        var h: Hash :| key == TxHashKey(h);
      } else {
        var n: int64, i: int32 :| key == TxIndexKey(n, i);
      }
    }
  }

  lemma {:induction false} SavedHeight(es: seq<Entry>, h: Hash, n: int64)
    requires forall e | e in es :: e.result.height == n
    ensures h in SaveAll(EMPTY, es).byHash ==> SaveAll(EMPTY, es).byHash[h].height == n
  {
    if es != [] {
      assert es[|es| - 1] in es;
      SavedHeight(es[..|es| - 1], h, n);
    }
  }

  lemma SharedHash(a: Block, b: Block, h: Hash)
    requires a.height != b.height && h in Hashes(Entries(a)) && h in Hashes(Entries(b))
    ensures BlockStore(a) + BlockStore(b) != BlockStore(b) + BlockStore(a)
  {
    var xa, xb := SaveAll(EMPTY, Entries(a)), SaveAll(EMPTY, Entries(b));
    BlockKeys(a);
    BlockKeys(b);
    EntryHeights(a);
    EntryHeights(b);
    SavedHeight(Entries(a), h, a.height);
    SavedHeight(Entries(b), h, b.height);
    assert HoldsHash(BlockStore(a), xa.byHash, h) && HoldsHash(BlockStore(b), xb.byHash, h);
    if Encode(xa.byHash[h]) == Encode(xb.byHash[h]) {
      EncodeInjective(xa.byHash[h], xb.byHash[h]);
    }
    assert (BlockStore(a) + BlockStore(b))[TxHashKey(h)] == Encode(xb.byHash[h]);
    assert (BlockStore(b) + BlockStore(a))[TxHashKey(h)] == Encode(xa.byHash[h]);
  }

  ghost predicate Commute(db: Store, a: Block, b: Block) {
    IndexedStore(IndexedStore(db, a), b) == IndexedStore(IndexedStore(db, b), a)
  }

  lemma DisjointCommute(db: Store, a: Block, b: Block)
    requires a.height != b.height && Hashes(Entries(a)) !! Hashes(Entries(b))
    ensures Commute(db, a, b)
  {
    DisjointBlocks(a, b);
    IndexTwice(db, a, b);
    IndexTwice(db, b, a);
    UnionCommutes(db, BlockStore(a), BlockStore(b));
  }

  lemma UnionCommutes(db: Store, u: Store, v: Store)
    requires u.Keys !! v.Keys
    ensures db + u + v == db + v + u
  {
  }

  lemma SharedDoNotCommute(a: Block, b: Block, h: Hash)
    requires a.height != b.height && h in Hashes(Entries(a)) && h in Hashes(Entries(b))
    ensures !Commute(map[], a, b)
  {
    SharedHash(a, b, h);
    IndexTwice(map[], a, b);
    IndexTwice(map[], b, a);
    UnionWithEmpty(BlockStore(a));
    UnionWithEmpty(BlockStore(b));
  }

  lemma UnionWithEmpty(u: Store)
    ensures map[] + u == u
  {
  }

  /** Blocks of different heights can be indexed in either order exactly when they share no hash. */
  lemma CommuteExactly(a: Block, b: Block)
    requires a.height != b.height
    ensures (forall db: Store :: Commute(db, a, b)) <==> Hashes(Entries(a)) !! Hashes(Entries(b))
  {
    if Hashes(Entries(a)) !! Hashes(Entries(b)) {
      forall db: Store
        ensures Commute(db, a, b)
      {
        DisjointCommute(db, a, b);
      }
    } else {
      var h: Hash :| h in Hashes(Entries(a)) && h in Hashes(Entries(b));
      SharedDoNotCommute(a, b, h);
    }
  }

  lemma IndexTwice(db: Store, a: Block, b: Block)
    ensures IndexedStore(IndexedStore(db, a), b) == db + BlockStore(a) + BlockStore(b)
  {
    IndexIsUnion(db, a);
    IndexIsUnion(IndexedStore(db, a), b);
  }

  // ---------------------------------------------------------------------------------------
  // First and last indexed block
  // ---------------------------------------------------------------------------------------

  lemma KeyRanges(h: Hash, b: int64, i: int32)
    ensures !InRange(TxHashKey(h)) && InRange(TxIndexKey(b, i))
  {
    assert TxHashKey(h)[0] == 1 && TxIndexKey(b, i)[0] == 2;
  }

  lemma NotHashKey(key: Bytes)
    requires InRange(key)
    ensures !IsHashKey(key)
  {
    forall h: Hash
      ensures key != TxHashKey(h)
    {
      KeyRanges(h, 0, 0);
    }
  }

  /** The keys that the iterators range over are the index keys. */
  lemma RangeIsPositions(db: Store, x: Index, key: Bytes) returns (p: (int64, int32))
    requires Represents(db, x) && key in db && InRange(key)
    ensures p in x.byPosition && key == TxIndexKey(p.0, p.1)
  {
    NotHashKey(key);
    var b: int64, i: int32 :| key == TxIndexKey(b, i);
    assert HoldsPosition(db, x.byPosition, b, i);
    p := (b, i);
  }

  lemma RangeNonEmpty(db: Store, x: Index)
    requires Represents(db, x)
    ensures (exists k :: k in db && InRange(k)) <==> x.byPosition != map[]
  {
    if k :| k in db && InRange(k) {
      var p := RangeIsPositions(db, x, k);
    }
    if p :| p in x.byPosition {
      assert HoldsPosition(db, x.byPosition, p.0, p.1);
      KeyRanges(x.byPosition[p], p.0, p.1);
      assert TxIndexKey(p.0, p.1) in db;
    }
  }

  /**
   `LoadFirstBlock` answers -1 for an index without positions, and otherwise the least indexed
   block, in the order of unsigned block numbers.
   */
  lemma FirstBlockIsLeast(db: Store, x: Index, r: BlockNumber)
    requires Represents(db, x) && IsFirstBlock(db, r)
    ensures x.byPosition == map[] ==> r == BlockNumber(-1)
    ensures x.byPosition != map[] ==>
              && r.BlockNumber? && (exists p :: p in x.byPosition && p.0 == r.number)
              && forall p | p in x.byPosition :: Low64(r.number) <= Low64(p.0)
  {
    RangeNonEmpty(db, x);
    if x.byPosition != map[] {
      var k :| IsFirstKey(db, k) && r == ParseBlockNumber(k);
      var p := RangeIsPositions(db, x, k);
      ParseIndexKey(p.0, p.1);
      forall q | q in x.byPosition
        ensures Low64(p.0) <= Low64(q.0)
      {
        assert HoldsPosition(db, x.byPosition, q.0, q.1);
        KeyRanges(x.byPosition[q], q.0, q.1);
        TxIndexKeyOrder(q.0, q.1, p.0, p.1);
      }
    }
  }

  /** `LoadLastBlock` likewise answers the greatest indexed block. */
  lemma LastBlockIsGreatest(db: Store, x: Index, r: BlockNumber)
    requires Represents(db, x) && IsLastBlock(db, r)
    ensures x.byPosition == map[] ==> r == BlockNumber(-1)
    ensures x.byPosition != map[] ==>
              && r.BlockNumber? && (exists p :: p in x.byPosition && p.0 == r.number)
              && forall p | p in x.byPosition :: Low64(p.0) <= Low64(r.number)
  {
    RangeNonEmpty(db, x);
    if x.byPosition != map[] {
      var k :| IsLastKey(db, k) && r == ParseBlockNumber(k);
      var p := RangeIsPositions(db, x, k);
      ParseIndexKey(p.0, p.1);
      forall q | q in x.byPosition
        ensures Low64(q.0) <= Low64(p.0)
      {
        assert HoldsPosition(db, x.byPosition, q.0, q.1);
        KeyRanges(x.byPosition[q], q.0, q.1);
        TxIndexKeyOrder(p.0, p.1, q.0, q.1);
      }
    }
  }

  /** For non-negative blocks: -1 exactly when nothing is indexed, and otherwise the least and the greatest block. */
  lemma BlocksNonNegative(db: Store, x: Index, first: BlockNumber, last: BlockNumber)
    requires Represents(db, x) && IsFirstBlock(db, first) && IsLastBlock(db, last)
    requires forall p | p in x.byPosition :: p.0 >= 0
    ensures first == BlockNumber(-1) <==> x.byPosition == map[]
    ensures last == BlockNumber(-1) <==> x.byPosition == map[]
    ensures x.byPosition != map[] ==>
              && first.BlockNumber? && (exists p :: p in x.byPosition && p.0 == first.number)
              && last.BlockNumber? && (exists p :: p in x.byPosition && p.0 == last.number)
              && forall p | p in x.byPosition :: first.number <= p.0 <= last.number
  {
    FirstBlockIsLeast(db, x, first);
    LastBlockIsGreatest(db, x, last);
    forall p | p in x.byPosition
      ensures first.number <= p.0 <= last.number
    {
      Low64NonNegative(p.0);
      Low64NonNegative(first.number);
      Low64NonNegative(last.number);
    }
  }
}
