/**
 The binary format of a Hermes Redis dump: a magic header followed by frames
 `[u32 LE key_len][key][i64 LE ttl_ms][u32 LE val_len][val]`.

 `EncodeFrame` follows the writer, `ParseFrame` the guards of the reader. The two are tied together by
 `ParseIsSound` and `ParseIsComplete`; everything else about the format follows from these two lemmas.
 */
module RedisFrames {
  import opened Common

  const U32_RANGE: nat := 0x1_0000_0000
  const U64_RANGE: nat := 0x1_0000_0000_0000_0000

  /** "HRDS1\n" */
  const MAGIC: Bytes := [0x48, 0x52, 0x44, 0x53, 0x31, 0x0A]

  datatype Entry = Entry(key: Bytes, ttl: i64, val: Bytes)

  // ---------- fixed-width little-endian integers ----------

  function U32Bytes(n: nat): (b: Bytes)
    requires n < U32_RANGE
    ensures |b| == 4
  {
    var (n1, n2, n3) := (n / 256, n / 256 / 256, n / 256 / 256 / 256);
    [n % 256, n1 % 256, n2 % 256, n3]
  }

  function ReadU32(b: Bytes): (n: nat)
    requires |b| == 4
    ensures n < U32_RANGE
  {
    var (b0: int, b1: int, b2: int, b3: int) := (b[0], b[1], b[2], b[3]);
    b0 + 256 * (b1 + 256 * (b2 + 256 * b3))
  }

  lemma ReadWrittenU32(n: nat)
    requires n < U32_RANGE
    ensures ReadU32(U32Bytes(n)) == n
  {}

  /** Least significant byte first. */
  lemma LittleEndian32(n: nat)
    requires n < U32_RANGE
    ensures var b := U32Bytes(n);
      && b[0] == n % 256 && b[1] == n / 0x100 % 256 && b[2] == n / 0x1_0000 % 256 && b[3] == n / 0x100_0000 % 256
  {}

  lemma LastDigit(digit: int, rest: int)
    requires 0 <= digit < 256
    ensures (digit + 256 * rest) % 256 == digit && (digit + 256 * rest) / 256 == rest
  {}

  lemma WriteReadU32(b: Bytes)
    requires |b| == 4
    ensures U32Bytes(ReadU32(b)) == b
  {
    var (b0: int, b1: int, b2: int, b3: int) := (b[0], b[1], b[2], b[3]);
    LastDigit(b2, b3);
    LastDigit(b1, b2 + 256 * b3);
    LastDigit(b0, b1 + 256 * (b2 + 256 * b3));
  }

  /** Two's complement of a signed 64-bit integer, low word first. */
  function I64Bytes(n: i64): (b: Bytes)
    ensures |b| == 8
  {
    var u := if n < 0 then n + U64_RANGE else n;
    U32Bytes(u % U32_RANGE) + U32Bytes(u / U32_RANGE)
  }

  function ReadI64(b: Bytes): i64
    requires |b| == 8
  {
    var u := ReadU32(b[..4]) + U32_RANGE * ReadU32(b[4..]);
    if u < 0x8000_0000_0000_0000 then u else u - U64_RANGE
  }

  lemma ReadWrittenI64(n: i64)
    ensures ReadI64(I64Bytes(n)) == n
  {
    var u := if n < 0 then n + U64_RANGE else n;
    ReadWrittenU32(u % U32_RANGE);
    ReadWrittenU32(u / U32_RANGE);
    assert I64Bytes(n)[..4] == U32Bytes(u % U32_RANGE);
    assert I64Bytes(n)[4..] == U32Bytes(u / U32_RANGE);
  }

  /** The low word of a signed number comes first; a negative one is stored as itself plus 2^64. */
  lemma LittleEndian64(n: i64)
    ensures var u := if n < 0 then n + 0x1_0000_0000_0000_0000 else n;
      I64Bytes(n)[..4] == U32Bytes(u % 0x1_0000_0000) && I64Bytes(n)[4..] == U32Bytes(u / 0x1_0000_0000)
  {}

  lemma LastWord(lo: int, hi: int)
    requires 0 <= lo < U32_RANGE
    ensures (lo + U32_RANGE * hi) % U32_RANGE == lo && (lo + U32_RANGE * hi) / U32_RANGE == hi
  {}

  lemma WriteReadI64(b: Bytes)
    requires |b| == 8
    ensures I64Bytes(ReadI64(b)) == b
  {
    var lo, hi := ReadU32(b[..4]), ReadU32(b[4..]);
    WriteReadU32(b[..4]);
    WriteReadU32(b[4..]);
    LastWord(lo, hi);
    assert b == b[..4] + b[4..];
  }

  /** `x.len() as u32`, which keeps the low 32 bits. */
  function LenAsU32(b: Bytes): (n: nat)
    ensures n < U32_RANGE
    ensures |b| < U32_RANGE ==> n == |b|
  {
    |b| % U32_RANGE
  }

  // ---------- frames ----------

  /** A length field followed by that many bytes. */
  function EncodeBlock(b: Bytes): (r: Bytes)
    ensures |r| == 4 + |b|
  {
    U32Bytes(LenAsU32(b)) + b
  }

  function ParseBlock(d: Bytes): (r: Option<Bytes>)
    ensures r.Some? ==> 4 + |r.value| <= |d|
  {
    if 4 > |d| then None else
    var n := ReadU32(d[..4]);
    if 4 + n > |d| then None else Some(d[4..4 + n])
  }

  function EncodeFrame(e: Entry): (b: Bytes)
    ensures |b| == 16 + |e.key| + |e.val|
  {
    EncodeBlock(e.key) + (I64Bytes(e.ttl) + EncodeBlock(e.val))
  }

  function Encode(es: seq<Entry>): Bytes {
    if |es| == 0 then [] else EncodeFrame(es[0]) + Encode(es[1..])
  }

  /** One turn of the reader: the entry and the bytes consumed, or None where the reader stops. */
  function ParseFrame(d: Bytes): (r: Option<(Entry, nat)>)
    ensures r.Some? ==> r.value.1 == 16 + |r.value.0.key| + |r.value.0.val| <= |d|
  {
    match ParseBlock(d)
    case None => None
    case Some(key) =>
      var d1 := d[4 + |key|..];
      if 8 > |d1| then None else
      match ParseBlock(d1[8..])
      case None => None
      case Some(val) => Some((Entry(key, ReadI64(d1[..8]), val), 16 + |key| + |val|))
  }

  function Decode(d: Bytes): seq<Entry>
    decreases |d|
  {
    match ParseFrame(d)
    case None => []
    case Some((e, n)) => [e] + Decode(d[n..])
  }

  /** Both lengths survive the cast to u32. */
  predicate Framable(e: Entry) {
    |e.key| < U32_RANGE && |e.val| < U32_RANGE
  }

  lemma BlockIsSound(d: Bytes)
    requires ParseBlock(d).Some?
    ensures var b := ParseBlock(d).value;
      |b| < U32_RANGE && d == EncodeBlock(b) + d[4 + |b|..]
  {
    var b := ParseBlock(d).value;
    WriteReadU32(d[..4]);
    Rejoin(d, 4, 4 + |b|);
  }

  lemma BlockIsComplete(b: Bytes, rest: Bytes)
    requires |b| < U32_RANGE
    ensures ParseBlock(EncodeBlock(b) + rest) == Some(b)
  {
    ReadWrittenU32(|b|);
    Split(U32Bytes(|b|), b, rest);
  }

  /** Whatever the reader accepts is exactly one encoded frame at the front of the input. */
  lemma ParseIsSound(d: Bytes)
    requires ParseFrame(d).Some?
    ensures var (e, n) := ParseFrame(d).value;
      Framable(e) && n == |EncodeFrame(e)| && d == EncodeFrame(e) + d[n..]
  {
    var (e, n) := ParseFrame(d).value;
    var d1 := d[4 + |e.key|..];
    BlockIsSound(d);
    BlockIsSound(d1[8..]);
    WriteReadI64(d1[..8]);
    assert d1[8..][4 + |e.val|..] == d[n..];
    Regroup(d, EncodeBlock(e.key), I64Bytes(e.ttl), EncodeBlock(e.val), d[n..]);
  }

  /** Every frame whose lengths fit in 32 bits is read back, whatever follows it. */
  lemma ParseIsComplete(e: Entry, rest: Bytes)
    requires Framable(e)
    ensures ParseFrame(EncodeFrame(e) + rest) == Some((e, |EncodeFrame(e)|))
  {
    var d := EncodeFrame(e) + rest;
    var ttl, tail := I64Bytes(e.ttl), EncodeBlock(e.val) + rest;
    Associative(EncodeBlock(e.key), ttl + EncodeBlock(e.val), rest);
    Associative(ttl, EncodeBlock(e.val), rest);
    assert d == EncodeBlock(e.key) + (ttl + tail);
    BlockIsComplete(e.key, ttl + tail);
    BlockIsComplete(e.val, rest);
    Split([], EncodeBlock(e.key), ttl + tail);
    Split([], ttl, tail);
    ReadWrittenI64(e.ttl);
  }

  /** Where the five fields of a frame stand: key length, key, time to live, value length, value. */
  lemma FrameLayout(e: Entry)
    requires Framable(e)
    ensures var (f, k, v) := (EncodeFrame(e), |e.key|, |e.val|);
      && |f| == 16 + k + v
      && f[..4] == U32Bytes(k) && f[4..4 + k] == e.key
      && f[4 + k..12 + k] == I64Bytes(e.ttl)
      && f[12 + k..16 + k] == U32Bytes(v) && f[16 + k..] == e.val
  {
    var (a, b, c, d) := (U32Bytes(|e.key|), e.key, I64Bytes(e.ttl), U32Bytes(|e.val|));
    assert EncodeFrame(e) == (a + b) + (c + (d + e.val));
    FieldsOf(a, b, c, d, e.val);
  }

  lemma FieldsOf(a: Bytes, b: Bytes, c: Bytes, d: Bytes, v: Bytes)
    requires |a| == 4 && |c| == 8 && |d| == 4
    ensures var (f, k) := ((a + b) + (c + (d + v)), |b|);
      && f[..4] == a && f[4..4 + k] == b && f[4 + k..12 + k] == c && f[12 + k..16 + k] == d && f[16 + k..] == v
  {}

  // ---------- sequences ----------

  lemma Associative(x: Bytes, y: Bytes, z: Bytes)
    ensures x + (y + z) == (x + y) + z
  {}

  lemma Rejoin(d: Bytes, i: nat, j: nat)
    requires i <= j <= |d|
    ensures d == (d[..i] + d[i..j]) + d[j..]
  {}

  lemma Split(x: Bytes, y: Bytes, z: Bytes)
    ensures [] + y == y
    ensures var d := (x + y) + z;
      d[..|x|] == x && d[|x|..|x| + |y|] == y && d[|x| + |y|..] == z
  {}

  lemma Regroup(d: Bytes, k: Bytes, t: Bytes, v: Bytes, rest: Bytes)
    requires |k| + 8 <= |d| && |t| == 8
    requires d == k + d[|k|..] && d[|k|..][..8] == t && d[|k|..][8..] == v + rest
    ensures d == (k + (t + v)) + rest
  {
    assert d[|k|..] == t + (v + rest);
  }

  lemma PrefixAfter(front: Bytes, enc: Bytes, d: Bytes, n: nat)
    requires n <= |d| && n == |front| && d == front + d[n..] && enc <= d[n..]
    ensures front + enc <= d && d[|front + enc|..] == d[n..][|enc|..]
  {
    assert d[n..] == enc + d[n..][|enc|..];
    Associative(front, enc, d[n..][|enc|..]);
  }

  lemma CutThenRest(whole: Bytes, n: nat, f: Bytes, m: nat)
    requires n <= |whole| && m <= n && whole[..n] == f + whole[..n][m..]
    ensures whole == f + (whole[..n][m..] + whole[n..])
  {
    assert whole == whole[..n] + whole[n..];
  }

  // ---------- files ----------

  /**
   Decoding an encoded list gives the list back exactly when every length fits in 32 bits: a longer key or
   value has its length field wrapped, and the reader can then not return it.
   */
  lemma {:induction false} RoundTripExactly(es: seq<Entry>)
    ensures Decode(Encode(es)) == es <==> forall e <- es :: Framable(e)
  {
    if |es| > 0 {
      var d := Encode(es);
      if Framable(es[0]) {
        ParseIsComplete(es[0], Encode(es[1..]));
        assert d[|EncodeFrame(es[0])|..] == Encode(es[1..]);
        RoundTripExactly(es[1..]);
        assert Decode(d)[1..] == Decode(Encode(es[1..]));
        assert es == [es[0]] + es[1..];
      } else if ParseFrame(d).Some? {
        ParseIsSound(d);
        assert Decode(d)[0] == ParseFrame(d).value.0 != es[0];
      }
    }
  }

  /** A frame cut short is not read at all. */
  lemma CutFrame(e: Entry, rest: Bytes, n: nat)
    requires Framable(e) && n < |EncodeFrame(e)|
    ensures ParseFrame((EncodeFrame(e) + rest)[..n]) == None
  {
    var whole := EncodeFrame(e) + rest;
    var d := whole[..n];
    if ParseFrame(d).Some? {
      ParseIsSound(d);
      var (e', m) := ParseFrame(d).value;
      var rest' := d[m..] + whole[n..];
      CutThenRest(whole, n, EncodeFrame(e'), m);
      ParseIsComplete(e', rest');
      ParseIsComplete(e, rest);
      assert false;
    }
  }

  lemma EncodePrefix(es: seq<Entry>, k: nat)
    requires 0 < |es| && k < |es|
    ensures |Encode(es[..k + 1])| == |EncodeFrame(es[0])| + |Encode(es[1..][..k])|
  {
    assert es[..k + 1][1..] == es[1..][..k];
  }

  /** The first `n` bytes of the encoding hold exactly `k` complete frames. */
  ghost predicate HoldsFrames(es: seq<Entry>, n: nat, k: nat) {
    && k <= |es|
    && |Encode(es[..k])| <= n
    && (k < |es| ==> n < |Encode(es[..k + 1])|)
  }

  lemma HoldsOneMore(es: seq<Entry>, n: nat, k: nat)
    requires 0 < |es| && |EncodeFrame(es[0])| <= n
    requires HoldsFrames(es[1..], n - |EncodeFrame(es[0])|, k)
    ensures HoldsFrames(es, n, k + 1)
  {
    EncodePrefix(es, k);
    if k + 1 < |es| {
      EncodePrefix(es, k + 1);
    }
  }

  /**
   A file cut after `n` bytes of its body decodes to exactly the entries whose frames are complete in the
   part that is left.
   */
  lemma {:induction false} TruncatedFile(es: seq<Entry>, n: nat) returns (k: nat)
    requires forall e <- es :: Framable(e)
    requires n <= |Encode(es)|
    ensures HoldsFrames(es, n, k)
    ensures Decode(Encode(es)[..n]) == es[..k]
  {
    k := 0;
    if |es| > 0 {
      var f, rest := |EncodeFrame(es[0])|, Encode(es[1..]);
      if n < f {
        EncodePrefix(es, 0);
        CutFrame(es[0], rest, n);
      } else {
        var tail := TruncatedFile(es[1..], n - f);
        k := tail + 1;
        HoldsOneMore(es, n, tail);
        CompleteFrame(es[0], rest, n);
        assert es[..k] == [es[0]] + es[1..][..tail];
      }
    }
  }

  /** A cut behind the first frame leaves that frame readable. */
  lemma CompleteFrame(e: Entry, rest: Bytes, n: nat)
    requires Framable(e) && |EncodeFrame(e)| <= n <= |EncodeFrame(e)| + |rest|
    ensures Decode((EncodeFrame(e) + rest)[..n]) == [e] + Decode(rest[..n - |EncodeFrame(e)|])
  {
    var f := EncodeFrame(e);
    var d := (f + rest)[..n];
    assert d == f + rest[..n - |f|];
    ParseIsComplete(e, rest[..n - |f|]);
    assert d[|f|..] == rest[..n - |f|];
  }

  /**
   The reader is canonical on arbitrary bytes: what it returned, encoded again, is the part of the input it
   consumed, and it stopped only because no complete frame starts at the next byte.
   */
  lemma {:induction false} DecodeIsCanonical(d: Bytes)
    ensures forall e <- Decode(d) :: Framable(e)
    ensures Encode(Decode(d)) <= d
    ensures ParseFrame(d[|Encode(Decode(d))|..]) == None
    ensures 16 * |Decode(d)| <= |d|
    decreases |d|
  {
    match ParseFrame(d)
    case None =>
      assert d[0..] == d;
    case Some((e, n)) =>
      ParseIsSound(d);
      DecodeIsCanonical(d[n..]);
      var es := Decode(d[n..]);
      assert Decode(d) == [e] + es && ([e] + es)[1..] == es;
      PrefixAfter(EncodeFrame(e), Encode(es), d, n);
  }

  lemma {:induction false} EncodeAppend(a: seq<Entry>, b: seq<Entry>)
    ensures Encode(a + b) == Encode(a) + Encode(b)
  {
    if |a| == 0 {
      assert a + b == b;
    } else {
      EncodeAppend(a[1..], b);
      assert (a + b)[1..] == a[1..] + b;
      Associative(EncodeFrame(a[0]), Encode(a[1..]), Encode(b));
    }
  }
}
