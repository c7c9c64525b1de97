/** The non-panicking byte accessors of the wire client (rsfbclient-rust/src/util.rs).

    Every accessor has two faces: a function on the bytes that are left, which the
    proofs use, and a method on a `Cursor` that consumes those bytes in place. */
module Util {
  import opened Wrappers

  type byte = x: int | 0 <= x < 256

  const TWO_16: int := 0x1_0000
  const TWO_31: int := 0x8000_0000
  const TWO_32: int := 0x1_0000_0000
  const TWO_63: int := 0x8000_0000_0000_0000
  const TWO_64: int := 0x1_0000_0000_0000_0000

  type u16 = x: int | 0 <= x < TWO_16
  type i16 = x: int | -0x8000 <= x < 0x8000
  type u32 = x: int | 0 <= x < TWO_32
  type i32 = x: int | -TWO_31 <= x < TWO_31
  type u64 = x: int | 0 <= x < TWO_64
  type i64 = x: int | -TWO_63 <= x < TWO_63

  /** The longest text that is sent as a value, and the longest segment of a blob. */
  const MAX_DATA_LENGTH := 32767

  function Flatten(chunks: seq<seq<byte>>): seq<byte> {
    if chunks == [] then [] else chunks[0] + Flatten(chunks[1..])
  }

  /** The errors a parse can end in. `MissingBytes` is the underflow error: the one
      error that means "read more and try again". */
  datatype FbError =
    | MissingBytes
    | Sql(code: int, msg: string)
    | Rejected(opCode: u32)
    | UnknownStatusItem(item: u32)
    | UnexpectedFetchOp(op: u32)
    | NoColumns
    | InvalidText
    | UnsupportedColumn(sqltype: int)
    | InvalidXsqlda
    | TooManyRows
    | TooManyEmptyBatches
    | ConnectionClosed
    | Other(what: string)

  predicate IsIncomplete(e: FbError) {
    e.MissingBytes?
  }

  /** What a parser makes of a byte string: a value and the bytes it did not consume, a
      request for more bytes, or a definite error with the bytes it did not consume. */
  datatype Parsed<+T> =
    | Done(value: T, rest: seq<byte>)
    | Incomplete
    | Failed(error: FbError, rest: seq<byte>)
  {
    predicate IsFailure() {
      !Done?
    }

    function PropagateFailure<U>(): Parsed<U>
      requires IsFailure()
    {
      if Incomplete? then Parsed<U>.Incomplete else Parsed<U>.Failed(error, rest)
    }

    function Extract(): (T, seq<byte>)
      requires !IsFailure()
    {
      (value, rest)
    }

    /** The same outcome with `more` behind the unconsumed bytes. */
    function Append(more: seq<byte>): Parsed<T> {
      match this
      case Done(v, rest) => Done(v, rest + more)
      case Incomplete => Incomplete
      case Failed(e, rest) => Failed(e, rest + more)
    }
  }

  /** A method that consumed a cursor did what the parser function says. After an
      underflow the cursor is thrown away, so its contents are not specified. */
  ghost predicate Agrees<T>(p: Parsed<T>, r: Result<T, FbError>, after: seq<byte>) {
    match p
    case Done(v, rest) => r == Ok(v) && after == rest
    case Incomplete => r == Err(MissingBytes)
    case Failed(e, rest) => r == Err(e) && after == rest && !IsIncomplete(e)
  }

  // ---------------------------------------------------------------- integers

  function Pow256(k: nat): (p: nat)
    ensures p >= 1
  {
    if k == 0 then 1 else 256 * Pow256(k - 1)
  }

  /** The last `k` base-256 digits of a number, the most significant first. */
  function BigEndian(n: nat, k: nat): (bytes: seq<byte>)
    ensures |bytes| == k
  {
    if k == 0 then [] else BigEndian(n / 256, k - 1) + [n % 256]
  }

  function BigEndianValue(bytes: seq<byte>): (n: nat)
    ensures n < Pow256(|bytes|)
  {
    if bytes == [] then 0
    else 256 * BigEndianValue(bytes[..|bytes| - 1]) + bytes[|bytes| - 1] as int
  }

  /** The same digits, the least significant first. */
  function LittleEndian(n: nat, k: nat): (bytes: seq<byte>)
    ensures |bytes| == k
  {
    if k == 0 then [] else [n % 256] + LittleEndian(n / 256, k - 1)
  }

  function LittleEndianValue(bytes: seq<byte>): (n: nat)
    ensures n < Pow256(|bytes|)
  {
    if bytes == [] then 0
    else bytes[0] as int + 256 * LittleEndianValue(bytes[1..])
  }

  lemma {:induction false} BigEndianInverse(n: nat, k: nat)
    requires n < Pow256(k)
    ensures BigEndianValue(BigEndian(n, k)) == n
  {
    if k != 0 {
      HighDigits(n, k);
      BigEndianInverse(n / 256, k - 1);
      assert BigEndian(n, k)[..k - 1] == BigEndian(n / 256, k - 1);
      assert BigEndian(n, k)[k - 1] as int == n % 256;
    }
  }

  lemma {:induction false} LittleEndianInverse(n: nat, k: nat)
    requires n < Pow256(k)
    ensures LittleEndianValue(LittleEndian(n, k)) == n
  {
    if k != 0 {
      HighDigits(n, k);
      LittleEndianInverse(n / 256, k - 1);
      assert LittleEndian(n, k)[1..] == LittleEndian(n / 256, k - 1);
    }
  }

  lemma HighDigits(n: nat, k: nat)
    requires k > 0 && n < Pow256(k)
    ensures n / 256 < Pow256(k - 1) && 256 * (n / 256) + n % 256 == n
  {
  }

  lemma WordSizes()
    ensures Pow256(1) == 256 && Pow256(2) == TWO_16 && Pow256(4) == TWO_32 && Pow256(8) == TWO_64
  {
  }

  function U32Bytes(n: u32): (bytes: seq<byte>)
    ensures |bytes| == 4
  {
    BigEndian(n, 4)
  }

  function U32LeBytes(n: u32): (bytes: seq<byte>)
    ensures |bytes| == 4
  {
    LittleEndian(n, 4)
  }

  function U16LeBytes(n: u16): (bytes: seq<byte>)
    ensures |bytes| == 2
  {
    LittleEndian(n, 2)
  }

  function U64Bytes(n: u64): (bytes: seq<byte>)
    ensures |bytes| == 8
  {
    BigEndian(n, 8)
  }

  /** Two's complement, both ways. */
  function ToI32(n: u32): i32 {
    if n < TWO_31 then n else n - TWO_32
  }

  function OfI32(n: i32): u32 {
    if n < 0 then n + TWO_32 else n
  }

  function ToI64(n: u64): i64 {
    if n < TWO_63 then n else n - TWO_64
  }

  function OfI64(n: i64): u64 {
    if n < 0 then n + TWO_64 else n
  }

  function ReadU8(s: seq<byte>): (p: Parsed<byte>)
    ensures p.Done? <==> |s| >= 1
    ensures p.Done? ==> |p.rest| == |s| - 1
    ensures !p.Failed?
  {
    if |s| < 1 then Incomplete else Done(s[0], s[1..])
  }

  function ReadU16Le(s: seq<byte>): (p: Parsed<u16>)
    ensures p.Done? <==> |s| >= 2
    ensures p.Done? ==> |p.rest| == |s| - 2
    ensures !p.Failed?
  {
    WordSizes();
    if |s| < 2 then Incomplete else Done(LittleEndianValue(s[..2]), s[2..])
  }

  function ReadU32(s: seq<byte>): (p: Parsed<u32>)
    ensures p.Done? <==> |s| >= 4
    ensures p.Done? ==> |p.rest| == |s| - 4
    ensures !p.Failed?
  {
    WordSizes();
    if |s| < 4 then Incomplete else Done(BigEndianValue(s[..4]), s[4..])
  }

  function ReadU32Le(s: seq<byte>): (p: Parsed<u32>)
    ensures p.Done? <==> |s| >= 4
    ensures p.Done? ==> |p.rest| == |s| - 4
    ensures !p.Failed?
  {
    WordSizes();
    if |s| < 4 then Incomplete else Done(LittleEndianValue(s[..4]), s[4..])
  }

  function ReadU64(s: seq<byte>): (p: Parsed<u64>)
    ensures p.Done? <==> |s| >= 8
    ensures p.Done? ==> |p.rest| == |s| - 8
    ensures !p.Failed?
  {
    WordSizes();
    if |s| < 8 then Incomplete else Done(BigEndianValue(s[..8]), s[8..])
  }

  function ReadI32(s: seq<byte>): (p: Parsed<i32>)
    ensures p.Done? <==> |s| >= 4
    ensures p.Done? ==> |p.rest| == |s| - 4
    ensures !p.Failed?
  {
    var (n, s1) :- ReadU32(s);
    Done(ToI32(n), s1)
  }

  function ReadI32Le(s: seq<byte>): (p: Parsed<i32>)
    ensures p.Done? <==> |s| >= 4
    ensures p.Done? ==> |p.rest| == |s| - 4
    ensures !p.Failed?
  {
    var (n, s1) :- ReadU32Le(s);
    Done(ToI32(n), s1)
  }

  function ReadI64(s: seq<byte>): (p: Parsed<i64>)
    ensures p.Done? <==> |s| >= 8
    ensures p.Done? ==> |p.rest| == |s| - 8
    ensures !p.Failed?
  {
    var (n, s1) :- ReadU64(s);
    Done(ToI64(n), s1)
  }

  /** Takes `n` bytes as they are. */
  function Take(s: seq<byte>, n: nat): (p: Parsed<seq<byte>>)
    ensures p.Done? <==> |s| >= n
    ensures p.Done? ==> |p.rest| == |s| - n && |p.value| == n
    ensures !p.Failed?
  {
    if |s| < n then Incomplete else Done(s[..n], s[n..])
  }

  lemma U8RoundTrip(n: byte, more: seq<byte>)
    ensures ReadU8([n] + more) == Done(n, more)
  {
  }

  lemma U16LeRoundTrip(n: u16, more: seq<byte>)
    ensures ReadU16Le(U16LeBytes(n) + more) == Done(n, more)
  {
    WordSizes();
    LittleEndianInverse(n, 2);
    assert (U16LeBytes(n) + more)[..2] == U16LeBytes(n);
    assert (U16LeBytes(n) + more)[2..] == more;
  }

  /** What the words are, byte by byte: big endian, or little endian where the name says so. */
  lemma WordValues(s: seq<byte>)
    ensures |s| >= 2 ==> ReadU16Le(s) == Done(s[0] as int + 0x100 * s[1] as int, s[2..])
    ensures |s| >= 4 ==>
              ReadU32(s) == Done(0x100_0000 * s[0] as int + 0x1_0000 * s[1] as int + 0x100 * s[2] as int + s[3] as int,
                                 s[4..])
              && ReadU32Le(s) == Done(s[0] as int + 0x100 * s[1] as int + 0x1_0000 * s[2] as int
                                      + 0x100_0000 * s[3] as int, s[4..])
    ensures |s| >= 8 ==>
              ReadU64(s) == Done(TWO_32 * ReadU32(s).value + ReadU32(s[4..]).value, s[8..])
  {
    if |s| >= 2 {
      LittleWord(s[..2]);
    }
    if |s| >= 4 {
      BigWord(s[..4]);
      LittleWord(s[..4]);
    }
    if |s| >= 8 {
      BigDoubleWord(s[..8]);
      assert s[..8][..4] == s[..4] && s[..8][4..] == s[4..][..4];
    }
  }

  lemma BigWord(w: seq<byte>)
    requires |w| == 4
    ensures BigEndianValue(w) == 0x100_0000 * w[0] as int + 0x1_0000 * w[1] as int + 0x100 * w[2] as int + w[3] as int
  {
    BigEndianStep(w);
    BigEndianStep(w[..3]);
    BigEndianStep(w[..2]);
    BigEndianStep(w[..1]);
    assert w[..3][..2] == w[..2] && w[..2][..1] == w[..1] && w[..1][..0] == [];
  }

  lemma BigEndianStep(w: seq<byte>)
    requires w != []
    ensures BigEndianValue(w) == 256 * BigEndianValue(w[..|w| - 1]) + w[|w| - 1] as int
    ensures BigEndianValue([]) == 0
  {
  }

  lemma LittleWord(w: seq<byte>)
    ensures |w| == 2 ==> LittleEndianValue(w) == w[0] as int + 0x100 * w[1] as int
    ensures |w| == 4 ==>
              LittleEndianValue(w) == w[0] as int + 0x100 * w[1] as int + 0x1_0000 * w[2] as int
                                      + 0x100_0000 * w[3] as int
  {
    if |w| == 2 || |w| == 4 {
      LittleEndianStep(w);
      LittleEndianStep(w[1..]);
      assert w[1..][1..] == w[2..];
      if |w| == 4 {
        LittleEndianStep(w[2..]);
        LittleEndianStep(w[3..]);
        assert w[2..][1..] == w[3..] && w[3..][1..] == [];
      }
    }
  }

  lemma LittleEndianStep(w: seq<byte>)
    requires w != []
    ensures LittleEndianValue(w) == w[0] as int + 256 * LittleEndianValue(w[1..])
    ensures LittleEndianValue([]) == 0
  {
  }

  lemma BigDoubleWord(w: seq<byte>)
    requires |w| == 8
    ensures BigEndianValue(w) == TWO_32 * BigEndianValue(w[..4]) + BigEndianValue(w[4..])
  {
    hide BigEndianValue;
    var low := w[4..];
    BigEndianStep(w);
    BigEndianStep(w[..7]);
    BigEndianStep(w[..6]);
    BigEndianStep(w[..5]);
    assert w[..7][..6] == w[..6] && w[..6][..5] == w[..5] && w[..5][..4] == w[..4];
    BigWord(low);
  }

  /** Signed numbers: the word is the number modulo its range, and back. */
  lemma TwosComplement(n: i32, m: i64)
    ensures OfI32(n) == n % TWO_32 && ToI32(OfI32(n)) == n
    ensures OfI64(m) == m % TWO_64 && ToI64(OfI64(m)) == m
  {
    if n < 0 {
      assert n % TWO_32 == n + TWO_32;
    }
    if m < 0 {
      assert m % TWO_64 == m + TWO_64;
    }
  }

  lemma U32RoundTrip(n: u32, more: seq<byte>)
    ensures ReadU32(U32Bytes(n) + more) == Done(n, more)
  {
    WordSizes();
    BigEndianInverse(n, 4);
    assert (U32Bytes(n) + more)[..4] == U32Bytes(n);
    assert (U32Bytes(n) + more)[4..] == more;
  }

  lemma U32LeRoundTrip(n: u32, more: seq<byte>)
    ensures ReadU32Le(U32LeBytes(n) + more) == Done(n, more)
  {
    WordSizes();
    LittleEndianInverse(n, 4);
    assert (U32LeBytes(n) + more)[..4] == U32LeBytes(n);
    assert (U32LeBytes(n) + more)[4..] == more;
  }

  lemma U64RoundTrip(n: u64, more: seq<byte>)
    ensures ReadU64(U64Bytes(n) + more) == Done(n, more)
  {
    WordSizes();
    BigEndianInverse(n, 8);
    assert (U64Bytes(n) + more)[..8] == U64Bytes(n);
    assert (U64Bytes(n) + more)[8..] == more;
  }

  lemma I32RoundTrip(n: i32, more: seq<byte>)
    ensures ReadI32(U32Bytes(OfI32(n)) + more) == Done(n, more)
  {
    U32RoundTrip(OfI32(n), more);
  }

  lemma I32LeRoundTrip(n: i32, more: seq<byte>)
    ensures ReadI32Le(U32LeBytes(OfI32(n)) + more) == Done(n, more)
  {
    U32LeRoundTrip(OfI32(n), more);
  }

  lemma I64RoundTrip(n: i64, more: seq<byte>)
    ensures ReadI64(U64Bytes(OfI64(n)) + more) == Done(n, more)
  {
    U64RoundTrip(OfI64(n), more);
  }

  lemma TakeRoundTrip(bytes: seq<byte>, more: seq<byte>)
    ensures Take(bytes + more, |bytes|) == Done(bytes, more)
  {
  }

  lemma U32Stable(s: seq<byte>, more: seq<byte>)
    requires ReadU32(s).Done?
    ensures ReadU32(s + more) == ReadU32(s).Append(more)
  {
    assert (s + more)[..4] == s[..4];
    assert (s + more)[4..] == s[4..] + more;
  }

  lemma U64Stable(s: seq<byte>, more: seq<byte>)
    requires ReadU64(s).Done?
    ensures ReadU64(s + more) == ReadU64(s).Append(more)
  {
    assert (s + more)[..8] == s[..8];
    assert (s + more)[8..] == s[8..] + more;
  }

  lemma I64Stable(s: seq<byte>, more: seq<byte>)
    requires ReadI64(s).Done?
    ensures ReadI64(s + more) == ReadI64(s).Append(more)
  {
    U64Stable(s, more);
  }

  lemma TakeStable(s: seq<byte>, n: nat, more: seq<byte>)
    requires Take(s, n).Done?
    ensures Take(s + more, n) == Take(s, n).Append(more)
  {
    assert (s + more)[..n] == s[..n];
    assert (s + more)[n..] == s[n..] + more;
  }

  // ---------------------------------------------------------------- length-prefixed bytes

  function Padding(len: nat): (pad: nat)
    ensures pad < 4 && (len + pad) % 4 == 0
  {
    if len % 4 != 0 then 4 - len % 4 else 0
  }

  function Zeros(n: nat): (zeros: seq<byte>)
    ensures |zeros| == n && forall i :: 0 <= i < n ==> zeros[i] == 0
  {
    seq(n, _ => 0)
  }

  predicate FitsWire(bytes: seq<byte>) {
    |bytes| < TWO_32
  }

  /** A big-endian length, the bytes, and zeros up to a multiple of four. */
  function WireBytes(bytes: seq<byte>): (enc: seq<byte>)
    requires FitsWire(bytes)
    ensures |enc| == 4 + |bytes| + Padding(|bytes|)
  {
    U32Bytes(|bytes|) + bytes + Zeros(Padding(|bytes|))
  }

  function ReadWireBytes(s: seq<byte>): (p: Parsed<seq<byte>>)
    ensures p.Done? ==> |p.rest| <= |s| - 4
    ensures !p.Failed?
  {
    var (len, s1) :- ReadU32(s);
    var (bytes, s2) :- Take(s1, len);
    var (_, s3) :- Take(s2, Padding(len));
    Done(bytes, s3)
  }

  /** `get_wire_bytes` undoes `put_wire_bytes`, padding included, and stops exactly behind it. */
  lemma WireBytesRoundTrip(bytes: seq<byte>, more: seq<byte>)
    requires FitsWire(bytes)
    ensures ReadWireBytes(WireBytes(bytes) + more) == Done(bytes, more)
  {
    var pad := Zeros(Padding(|bytes|));
    assert WireBytes(bytes) + more == U32Bytes(|bytes|) + (bytes + (pad + more));
    U32RoundTrip(|bytes|, bytes + (pad + more));
    TakeRoundTrip(bytes, pad + more);
    TakeRoundTrip(pad, more);
  }

  lemma WireBytesStable(s: seq<byte>, more: seq<byte>)
    requires ReadWireBytes(s).Done?
    ensures ReadWireBytes(s + more) == ReadWireBytes(s).Append(more)
  {
    U32Stable(s, more);
    var len := ReadU32(s).value;
    var s1 := ReadU32(s).rest;
    TakeStable(s1, len, more);
    TakeStable(Take(s1, len).rest, Padding(len), more);
  }

  // ---------------------------------------------------------------- the imperative accessors

  /** A buffer that is appended to. */
  class ByteBuf {
    var data: seq<byte>

    constructor ()
      ensures data == []
    {
      data := [];
    }

    method PutU32(n: u32)
      modifies this
      ensures data == old(data) + U32Bytes(n)
    {
      data := data + U32Bytes(n);
    }

    method PutSlice(bytes: seq<byte>)
      modifies this
      ensures data == old(data) + bytes
    {
      data := data + bytes;
    }

    /** The length is cast to 32 bits, so a longer slice is announced with a wrapped length. */
    method PutWireBytes(bytes: seq<byte>)
      modifies this
      ensures data == old(data) + (U32Bytes(|bytes| % TWO_32) + bytes + Zeros(Padding(|bytes|)))
      ensures FitsWire(bytes) ==> data == old(data) + WireBytes(bytes)
    {
      var len := |bytes|;
      PutU32(len % TWO_32);
      PutSlice(bytes);
      if len % 4 != 0 {
        assert Zeros(4)[..4 - len % 4] == Zeros(Padding(len));
        PutSlice(Zeros(4)[..4 - len % 4]);
      } else {
        assert data == data + Zeros(Padding(len));
      }
    }
  }

  /** A byte string that is consumed from the front. */
  class Cursor {
    var data: seq<byte>

    constructor (bytes: seq<byte>)
      ensures data == bytes
    {
      data := bytes;
    }

    method Remaining() returns (n: nat)
      ensures n == |data|
    {
      n := |data|;
    }

    method Advance(cnt: nat) returns (r: Result<(), FbError>)
      modifies this
      ensures r == if |old(data)| < cnt then Err(MissingBytes) else Ok(())
      ensures data == if |old(data)| < cnt then old(data) else old(data)[cnt..]
    {
      if |data| < cnt {
        return Err(MissingBytes);
      }
      data := data[cnt..];
      return Ok(());
    }

    method GetU8() returns (r: Result<byte, FbError>)
      modifies this
      ensures Agrees(ReadU8(old(data)), r, data)
    {
      if |data| == 0 {
        return Err(MissingBytes);
      }
      r := Ok(data[0]);
      data := data[1..];
    }

    method GetU16Le() returns (r: Result<u16, FbError>)
      modifies this
      ensures Agrees(ReadU16Le(old(data)), r, data)
    {
      if |data| < 2 {
        return Err(MissingBytes);
      }
      WordSizes();
      r := Ok(LittleEndianValue(data[..2]));
      data := data[2..];
    }

    method GetU32() returns (r: Result<u32, FbError>)
      modifies this
      ensures Agrees(ReadU32(old(data)), r, data)
    {
      if |data| < 4 {
        return Err(MissingBytes);
      }
      WordSizes();
      r := Ok(BigEndianValue(data[..4]));
      data := data[4..];
    }

    method GetU32Le() returns (r: Result<u32, FbError>)
      modifies this
      ensures Agrees(ReadU32Le(old(data)), r, data)
    {
      if |data| < 4 {
        return Err(MissingBytes);
      }
      WordSizes();
      r := Ok(LittleEndianValue(data[..4]));
      data := data[4..];
    }

    method GetI32() returns (r: Result<i32, FbError>)
      modifies this
      ensures Agrees(ReadI32(old(data)), r, data)
    {
      var n :- GetU32();
      r := Ok(ToI32(n));
    }

    method GetI32Le() returns (r: Result<i32, FbError>)
      modifies this
      ensures Agrees(ReadI32Le(old(data)), r, data)
    {
      var n :- GetU32Le();
      r := Ok(ToI32(n));
    }

    method GetU64() returns (r: Result<u64, FbError>)
      modifies this
      ensures Agrees(ReadU64(old(data)), r, data)
    {
      if |data| < 8 {
        return Err(MissingBytes);
      }
      WordSizes();
      r := Ok(BigEndianValue(data[..8]));
      data := data[8..];
    }

    method GetI64() returns (r: Result<i64, FbError>)
      modifies this
      ensures Agrees(ReadI64(old(data)), r, data)
    {
      var n :- GetU64();
      r := Ok(ToI64(n));
    }

    method GetWireBytes() returns (r: Result<seq<byte>, FbError>)
      modifies this
      ensures Agrees(ReadWireBytes(old(data)), r, data)
    {
      var len :- GetU32();
      var left := Remaining();
      if left < len {
        return Err(MissingBytes);
      }
      var bytes := data[..len];
      var _ := Advance(len);
      if len % 4 != 0 {
        var pad := 4 - len % 4;
        left := Remaining();
        if left < pad {
          return Err(MissingBytes);
        }
        var _ := Advance(pad);
      }
      return Ok(bytes);
    }

    method CopyToSlice(n: nat) returns (r: Result<seq<byte>, FbError>)
      modifies this
      ensures Agrees(Take(old(data), n), r, data)
    {
      if |data| < n {
        return Err(MissingBytes);
      }
      r := Ok(data[..n]);
      data := data[n..];
    }
  }
}
