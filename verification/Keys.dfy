/**
 The two key families of the transaction index, and the byte order in which the database
 iterates over them.
 */
module Keys {
  import opened Order
  import opened Wire

  type Bytes = seq<byte>

  /** A 32-byte transaction hash. */
  type Hash = h: Bytes | |h| == 32 witness seq(32, _ => 0)

  const KEY_PREFIX_TX_HASH: byte := 1
  const KEY_PREFIX_TX_INDEX: byte := 2
  const TX_INDEX_KEY_LENGTH: nat := 17

  // ---------------------------------------------------------------------------------------
  // Big-endian integers
  // ---------------------------------------------------------------------------------------

  function Pow256(n: nat): (p: nat)
    ensures p > 0
  {
    if n == 0 then 1 else 256 * Pow256(n - 1)
  }

  /** The low `n` bytes of `x`, most significant first. */
  function BigEndian(x: nat, n: nat): (bs: Bytes)
    ensures |bs| == n
  {
    if n == 0 then [] else BigEndian(x / 256, n - 1) + [x % 256]
  }

  function FromBigEndian(bs: Bytes): nat {
    if bs == [] then 0 else 256 * FromBigEndian(bs[..|bs| - 1]) + bs[|bs| - 1]
  }

  lemma {:induction false} BigEndianRoundTrip(x: nat, n: nat)
    requires x < Pow256(n)
    ensures FromBigEndian(BigEndian(x, n)) == x
  {
    if n > 0 {
      BigEndianRoundTrip(x / 256, n - 1);
      assert BigEndian(x, n)[..n - 1] == BigEndian(x / 256, n - 1);
    }
  }

  /** Big-endian byte order is numeric order. */
  lemma {:induction false} BigEndianOrder(x: nat, y: nat, n: nat)
    requires x < Pow256(n) && y < Pow256(n)
    ensures Less(BigEndian(x, n), BigEndian(y, n)) <==> x < y
  {
    if n > 0 {
      var x', y' := x / 256, y / 256;
      BigEndianOrder(x', y', n - 1);
      LessConcat(BigEndian(x', n - 1), [x % 256], BigEndian(y', n - 1), [y % 256]);
      assert [x % 256][1..] == [] && [y % 256][1..] == [];
      if BigEndian(x', n - 1) == BigEndian(y', n - 1) {
        BigEndianRoundTrip(x', n - 1);
        BigEndianRoundTrip(y', n - 1);
      }
    }
  }

  /** `sdk.Uint64ToBigEndian` */
  function Uint64Bytes(x: uint64): (bs: Bytes)
    ensures |bs| == 8
  {
    BigEndian(x, 8)
  }

  lemma Pow256Of8()
    ensures Pow256(8) == 0x1_0000_0000_0000_0000
  {
    assert Pow256(2) == 0x1_0000 && Pow256(4) == 0x1_0000 * Pow256(2) && Pow256(6) == 0x1_0000 * Pow256(4);
  }

  lemma Uint64BytesInjective(x: uint64, y: uint64)
    ensures FromBigEndian(Uint64Bytes(x)) == x
    ensures Uint64Bytes(x) == Uint64Bytes(y) <==> x == y
  {
    Pow256Of8();
    BigEndianRoundTrip(x, 8);
    BigEndianRoundTrip(y, 8);
  }

  // ---------------------------------------------------------------------------------------
  // The keys
  // ---------------------------------------------------------------------------------------

  function TxHashKey(hash: Hash): Bytes {
    [KEY_PREFIX_TX_HASH] + hash
  }

  function TxIndexKey(blockNumber: int64, txIndex: int32): Bytes {
    [KEY_PREFIX_TX_INDEX] + Uint64Bytes(Low64(blockNumber)) + Uint64Bytes(Low64(txIndex))
  }

  lemma TxHashKeyInjective(h: Hash, h': Hash)
    ensures TxHashKey(h) == TxHashKey(h') <==> h == h'
  {
    assert TxHashKey(h)[1..] == h && TxHashKey(h')[1..] == h';
  }

  lemma KeyFamiliesDisjoint(h: Hash, b: int64, i: int32)
    ensures TxHashKey(h) != TxIndexKey(b, i)
  {
    assert TxHashKey(h)[0] == 1 && TxIndexKey(b, i)[0] == 2;
  }

  lemma Low64Injective(x: int64, y: int64)
    ensures Low64(x) == Low64(y) <==> x == y
  {
  }

  lemma Low64NonNegative(x: int64)
    requires x >= 0
    ensures Low64(x) == x
  {
  }

  lemma TxIndexKeyParts(b: int64, i: int32)
    ensures TxIndexKey(b, i)[..9] == [KEY_PREFIX_TX_INDEX] + Uint64Bytes(Low64(b))
    ensures TxIndexKey(b, i)[1..9] == Uint64Bytes(Low64(b))
    ensures TxIndexKey(b, i)[9..] == Uint64Bytes(Low64(i))
  {
  }

  lemma TxIndexKeyInjective(b: int64, i: int32, b': int64, i': int32)
    ensures TxIndexKey(b, i) == TxIndexKey(b', i') <==> b == b' && i == i'
  {
    TxIndexKeyParts(b, i);
    TxIndexKeyParts(b', i');
    Uint64BytesInjective(Low64(b), Low64(b'));
    Uint64BytesInjective(Low64(i), Low64(i'));
    Low64Injective(b, b');
    Low64Injective(i, i');
  }

  /** Index keys are ordered by block and then by index, both read as unsigned 64-bit integers. */
  lemma TxIndexKeyOrder(b: int64, i: int32, b': int64, i': int32)
    ensures Less(TxIndexKey(b, i), TxIndexKey(b', i')) <==>
            Low64(b) < Low64(b') || (b == b' && Low64(i) < Low64(i'))
  {
    var B, I, B', I' := Uint64Bytes(Low64(b)), Uint64Bytes(Low64(i)), Uint64Bytes(Low64(b')), Uint64Bytes(Low64(i'));
    var p := [KEY_PREFIX_TX_INDEX];
    Pow256Of8();
    LessConcat(p + B, I, p + B', I');
    LessConcat(p, B, p, B');
    LessIrreflexive(p);
    BigEndianOrder(Low64(b), Low64(b'), 8);
    BigEndianOrder(Low64(i), Low64(i'), 8);
    Uint64BytesInjective(Low64(b), Low64(b'));
    Low64Injective(b, b');
    assert p + B == p + B' <==> B == B' by {
      assert (p + B)[1..] == B && (p + B')[1..] == B';
    }
  }

  /** For the blocks and indices the chain produces, key order is the order of (block, index). */
  lemma TxIndexKeyOrderNonNegative(b: int64, i: int32, b': int64, i': int32)
    requires b >= 0 && i >= 0 && b' >= 0 && i' >= 0
    ensures Less(TxIndexKey(b, i), TxIndexKey(b', i')) <==> b < b' || (b == b' && i < i')
  {
    Low64NonNegative(b);
    Low64NonNegative(i);
    Low64NonNegative(b');
    Low64NonNegative(i');
    TxIndexKeyOrder(b, i, b', i');
  }

  datatype BlockNumber = BlockNumber(number: int64) | WrongKeyLength

  /** `parseBlockNumberFromKey` */
  function ParseBlockNumber(key: Bytes): BlockNumber {
    if |key| != TX_INDEX_KEY_LENGTH then WrongKeyLength
    else BlockNumber(Signed64(FromBigEndian(key[1..9])))
  }

  /** Parsing an index key gives back the block it was built from, negative or not. */
  lemma ParseIndexKey(b: int64, i: int32)
    ensures ParseBlockNumber(TxIndexKey(b, i)) == BlockNumber(b)
  {
    TxIndexKeyParts(b, i);
    ParseParts(TxIndexKey(b, i), Low64(b));
    SignedOfLow64(b);
  }

  lemma ParseParts(key: Bytes, x: uint64)
    requires |key| == TX_INDEX_KEY_LENGTH && key[1..9] == Uint64Bytes(x)
    ensures ParseBlockNumber(key) == BlockNumber(Signed64(x))
  {
    Uint64BytesInjective(x, x);
  }

  lemma SignedOfLow64(b: int64)
    ensures Signed64(Low64(b)) == b
  {
  }
}
