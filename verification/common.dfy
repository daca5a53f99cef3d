/**
 * The values shared by clients and validators (`src/common.rs`): millisecond
 * timestamps held in a `u128`, messages, signed records, logs, certified
 * records, and the byte string that every record signature covers.
 *
 * The hash function, the BLS primitives and the message-id digest are not
 * modelled; they are the fields of a `Crypto` value that every operation
 * needing them takes as a parameter, so nothing is assumed about them.
 */
module Common {
  import opened Wrappers

  type Byte = b: int | 0 <= b < 256
  type Bytes = seq<Byte>

  /** 2^128: one more than the largest `u128`. */
  const U128_LIMIT: nat := 0x1_00000000_00000000_00000000_00000000
  /** 2^64: one more than the largest `u64` (and `usize` on a 64-bit target). */
  const U64_LIMIT: nat := 0x1_00000000_00000000

  type U128 = x: int | 0 <= x < 0x1_00000000_00000000_00000000_00000000
  type U64 = x: int | 0 <= x < 0x1_00000000_00000000

  /** A UNIX millisecond timestamp; `Timestamp::default()` is 0. */
  type Timestamp = U128

  /** A 32-byte digest (`B256`). */
  type B256 = b: Bytes | |b| == 32 witness seq(32, _ => 0)

  type Namespace = Bytes

  datatype Message = Message(bytes: Bytes)

  datatype SecretKey = SecretKey(keyBytes: Bytes)
  datatype PublicKey = PublicKey(keyBytes: Bytes)
  datatype Signature = Signature(sigBytes: Bytes)

  /**
   * The primitives the code calls into: Keccak-256, BLS key derivation,
   * signing and verification (with the Ethereum domain separation tag
   * folded in), the message-id digest of a message within a namespace, the
   * digest an unavailability statement is signed over, and BLS public-key
   * decoding.
   */
  datatype Crypto = Crypto(
    keccak256: Bytes -> B256,
    publicKeyOf: SecretKey -> PublicKey,
    sign: (SecretKey, B256) -> Signature,
    verify: (Signature, PublicKey, B256) -> bool,
    messageId: (Namespace, Message) -> B256,
    unavailableDigest: (B256, Timestamp) -> B256,
    publicKeyFromBytes: Bytes -> Option<PublicKey>)

  /** A signature made with a secret key verifies under its public key. */
  ghost predicate SignaturesVerify(c: Crypto) {
    forall sk: SecretKey, d: B256 :: c.verify(c.sign(sk, d), c.publicKeyOf(sk), d)
  }

  datatype Record = Record(timestamp: Timestamp, message: Message, signature: Signature)

  /** An ordered list of records. */
  datatype Log = Log(records: seq<Record>)

  /** Quorum certificate of a write; the aggregate is the sequence of signatures added. */
  datatype CertifiedRecord = CertifiedRecord(
    timestamps: seq<Timestamp>,
    message: Option<Message>,
    quorumSignature: seq<Signature>)

  /** A validator's signed statement that it holds no record under `msgId`. */
  datatype UnavailableMessage = UnavailableMessage(msgId: B256, timestamp: Timestamp, signature: Signature)

  /** Quorum certificate of unavailability. */
  datatype CertifiedUnavailableMessage = CertifiedUnavailableMessage(
    timestamps: seq<Timestamp>,
    msgId: B256,
    quorumSignature: seq<Signature>)

  datatype ReadMessageResponse = Available(record: Record) | Unavailable(unavailable: UnavailableMessage)

  /** `ValidatorIdentity`: the index and BLS key a client knows a validator by. */
  datatype ValidatorIdentity = ValidatorIdentity(index: U64, pubkey: PublicKey)

  /** The digest an unavailability statement is signed over (`UnavailableMessage::digest`). */
  function UnavailableDigest(c: Crypto, u: UnavailableMessage): B256 {
    c.unavailableDigest(u.msgId, u.timestamp)
  }

  // ---------------------------------------------------------------------------
  // Timestamp arithmetic
  // ---------------------------------------------------------------------------

  /**
   * `Timestamp + Timestamp`: `u128` addition as a build with overflow checks
   * runs it (the debug profile), where an overflowing sum panics; the model
   * follows that build. `WrappingTimestampAdd` is the release build.
   */
  function TimestampAdd(a: Timestamp, b: Timestamp): (r: Timestamp)
    requires a + b < U128_LIMIT
    ensures r >= a && r >= b
    ensures r - a == b
  {
    a + b
  }

  /** `Timestamp / u128`: floor division, which panics on a zero divisor. */
  function TimestampDiv(t: Timestamp, k: U128): (r: Timestamp)
    requires k > 0
    ensures r * k <= t < r * k + k
  {
    t / k
  }

  /**
   * `Timestamp + Timestamp` in a build without overflow checks (the release
   * profile): the sum wraps around modulo 2^128 and agrees with
   * `TimestampAdd` whenever that one is defined.
   */
  function WrappingTimestampAdd(a: Timestamp, b: Timestamp): (r: Timestamp)
    ensures a + b < U128_LIMIT ==> r == TimestampAdd(a, b)
    ensures a + b >= U128_LIMIT ==> r == a + b - U128_LIMIT
  {
    (a + b) % U128_LIMIT
  }

  /**
   * In a release build the floor-average of two timestamps whose sum
   * overflows lies below both of them: wrap-around breaks the midpoint bound.
   */
  lemma WrappedMidpointBelowBoth(a: Timestamp, b: Timestamp)
    requires a + b >= U128_LIMIT
    ensures TimestampDiv(WrappingTimestampAdd(a, b), 2) < a
    ensures TimestampDiv(WrappingTimestampAdd(a, b), 2) < b
  {
  }

  /** Two middle timestamps of 2^127 average to 0 in a release build. */
  lemma WrappedMidpointExample()
    ensures TimestampDiv(WrappingTimestampAdd(0x8000_0000_0000_0000_0000_0000_0000_0000, 0x8000_0000_0000_0000_0000_0000_0000_0000), 2) == 0
  {
  }

  /** The floor-average of two timestamps lies between them. */
  lemma MidpointBetween(a: Timestamp, b: Timestamp)
    requires a <= b && a + b < U128_LIMIT
    ensures a <= TimestampDiv(TimestampAdd(a, b), 2) <= b
  {
    var r := TimestampDiv(TimestampAdd(a, b), 2);
    assert 2 * r <= a + b < 2 * r + 2;
  }

  // ---------------------------------------------------------------------------
  // Little-endian encoding and the digest preimage
  // ---------------------------------------------------------------------------

  function Pow256(n: nat): (r: nat)
    ensures r > 0
  {
    if n == 0 then 1 else 256 * Pow256(n - 1)
  }

  /** The `width` low-order bytes of `x`, least significant first. */
  function LeBytes(x: nat, width: nat): (r: Bytes)
    ensures |r| == width
  {
    if width == 0 then [] else [x % 256] + LeBytes(x / 256, width - 1)
  }

  /** Reads a little-endian byte string back as a number. */
  function FromLeBytes(b: Bytes): nat {
    if |b| == 0 then 0 else b[0] + 256 * FromLeBytes(b[1..])
  }

  /** `u128::to_le_bytes`. */
  function TimestampLeBytes(t: Timestamp): (r: Bytes)
    ensures |r| == 16
    ensures FromLeBytes(r) == t
  {
    LeBytesRoundTrip(t, 16);
    Pow256Is128Bits();
    LeBytes(t, 16)
  }

  lemma Pow256Is128Bits()
    ensures Pow256(16) == U128_LIMIT
  {
    assert Pow256(1) == 256;
    assert Pow256(2) == 65536;
    assert Pow256(3) == 16777216;
    assert Pow256(4) == 4294967296;
    assert Pow256(5) == 1099511627776;
    assert Pow256(6) == 281474976710656;
    assert Pow256(7) == 72057594037927936;
    assert Pow256(8) == 18446744073709551616;
    assert Pow256(9) == 4722366482869645213696;
    assert Pow256(10) == 1208925819614629174706176;
    assert Pow256(11) == 309485009821345068724781056;
    assert Pow256(12) == 79228162514264337593543950336;
    assert Pow256(13) == 20282409603651670423947251286016;
    assert Pow256(14) == 5192296858534827628530496329220096;
    assert Pow256(15) == 1329227995784915872903807060280344576;
    assert Pow256(16) == 340282366920938463463374607431768211456;
  }

  lemma ModSplit(x: nat, p: nat)
    requires p > 0
    ensures x % (256 * p) == x % 256 + 256 * ((x / 256) % p)
  {
    var q := x / 256;
    var r := x % 256;
    var a := q / p;
    var b := q % p;
    assert x == 256 * q + r;
    assert q == p * a + b;
    assert x == (256 * p) * a + (256 * b + r);
    assert 0 <= 256 * b + r < 256 * p;
    ModUnique(x, 256 * p, a, 256 * b + r);
  }

  lemma ModUnique(x: nat, m: nat, a: nat, c: nat)
    requires m > 0 && x == m * a + c && c < m
    ensures x % m == c && x / m == a
  {
    var q := x / m;
    var r := x % m;
    assert m * (q - a) == c - r;
    ProductBelowModulus(m, q - a);
  }

  lemma ProductBelowModulus(m: int, d: int)
    requires m > 0 && -m < m * d < m
    ensures d == 0
  {
  }

  lemma {:induction false} LeBytesRoundTrip(x: nat, width: nat)
    ensures FromLeBytes(LeBytes(x, width)) == x % Pow256(width)
  {
    if width > 0 {
      var b := LeBytes(x, width);
      assert b[1..] == LeBytes(x / 256, width - 1);
      LeBytesRoundTrip(x / 256, width - 1);
      ModSplit(x, Pow256(width - 1));
    }
  }

  /**
   * The bytes hashed by `Message::digest` and `Record::digest`:
   * the namespace, then the timestamp as 16 little-endian bytes, then the message.
   */
  function DigestPreimage(ns: Namespace, t: Timestamp, m: Message): (r: Bytes)
    ensures |r| == |ns| + 16 + |m.bytes|
    ensures r[..|ns|] == ns
    ensures FromLeBytes(r[|ns|..|ns| + 16]) == t
    ensures r[|ns| + 16..] == m.bytes
  {
    var r := ns + TimestampLeBytes(t) + m.bytes;
    assert r[|ns|..|ns| + 16] == TimestampLeBytes(t);
    r
  }

  /** `Message::digest(timestamp, namespace)`. */
  function MessageDigest(c: Crypto, m: Message, t: Timestamp, ns: Namespace): (d: B256)
  {
    c.keccak256(DigestPreimage(ns, t, m))
  }

  /** `Record::digest(namespace)`: the same hash as the message digest at the record's timestamp. */
  function RecordDigest(c: Crypto, r: Record, ns: Namespace): (d: B256)
    ensures d == MessageDigest(c, r.message, r.timestamp, ns)
  {
    c.keccak256(ns + TimestampLeBytes(r.timestamp) + r.message.bytes)
  }

  /** Within one namespace, the preimage determines the timestamp and the message. */
  lemma PreimageInjective(ns: Namespace, t1: Timestamp, m1: Message, t2: Timestamp, m2: Message)
    requires DigestPreimage(ns, t1, m1) == DigestPreimage(ns, t2, m2)
    ensures t1 == t2 && m1 == m2
  {
    var p := DigestPreimage(ns, t1, m1);
    assert p[|ns|..|ns| + 16] == DigestPreimage(ns, t2, m2)[|ns|..|ns| + 16];
    assert m1.bytes == p[|ns| + 16..] == m2.bytes;
  }

  /**
   * The preimage carries no length for the namespace, so two different
   * (namespace, timestamp, message) triples can share one preimage, and so
   * one signature.
   */
  lemma PreimageAmbiguousAcrossNamespaces()
    ensures DigestPreimage([0], 0, Message([0])) == DigestPreimage([], 0, Message([0, 0]))
  {
    var zeros := seq(18, _ => 0);
    var z16 := TimestampLeBytes(0);
    assert forall i | 0 <= i < 16 :: z16[i] == 0 by {
      assert FromLeBytes(z16) == 0;
      LeBytesOfZero(16);
    }
    assert [0] + z16 + [0] == zeros;
    assert [] + z16 + [0, 0] == zeros;
  }

  lemma {:induction false} LeBytesOfZero(width: nat)
    ensures forall i | 0 <= i < width :: LeBytes(0, width)[i] == 0
  {
    if width > 0 {
      LeBytesOfZero(width - 1);
      assert LeBytes(0, width) == [0] + LeBytes(0, width - 1);
    }
  }

  // ---------------------------------------------------------------------------
  // Log
  // ---------------------------------------------------------------------------

  /** `Log::len`: the number of records. */
  function Len(log: Log): (r: nat)
    ensures r == 0 <==> log == Log([])
  {
    |log.records|
  }

  /** `Log::is_empty`. */
  function IsEmpty(log: Log): (r: bool)
    ensures r <==> Len(log) == 0
  {
    log.records == []
  }

  /** `Log::extend`: the other log's records follow this log's, in order. */
  function Extend(log: Log, other: Log): (r: Log)
    ensures Len(r) == Len(log) + Len(other)
    ensures r.records[..Len(log)] == log.records
    ensures r.records[Len(log)..] == other.records
    ensures IsEmpty(r) <==> IsEmpty(log) && IsEmpty(other)
  {
    Log(log.records + other.records)
  }
}
