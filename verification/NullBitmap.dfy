/** The null bitmap of protocol 13: written for parameters by `null_bitmap`
    (rsfbclient-rust/src/blr.rs) and read for rows by `parse_sql_response`
    (rsfbclient-rust/src/wire.rs). */
module NullBitmap {
  import opened Util

  /** `(n >> k) & 1 != 0`. */
  function Bit(n: nat, k: nat): bool {
    if k == 0 then n % 2 == 1 else Bit(n / 2, k - 1)
  }

  /** `n | (1 << k)`. */
  function OrBit(n: nat, k: nat): nat {
    if k == 0 then n + 1 - n % 2 else 2 * OrBit(n / 2, k - 1) + n % 2
  }

  /** The number whose bit `i` is `bits[i]`. */
  function Word(bits: seq<bool>): nat {
    if bits == [] then 0 else (if bits[0] then 1 else 0) + 2 * Word(bits[1..])
  }

  function Pow2(k: nat): (p: nat)
    ensures p >= 1
  {
    if k == 0 then 1 else 2 * Pow2(k - 1)
  }

  /** Bits count from the lowest, and or-ing one in adds its power unless it is there. */
  lemma {:induction false} BitsAreBinary(n: nat, k: nat)
    ensures Bit(n, k) <==> n / Pow2(k) % 2 == 1
    ensures OrBit(n, k) == n + if Bit(n, k) then 0 else Pow2(k)
  {
    if k != 0 {
      BitsAreBinary(n / 2, k - 1);
      HalfFirst(n, Pow2(k - 1));
    }
  }

  lemma HalfFirst(n: nat, p: nat)
    requires p > 0
    ensures n / 2 / p == n / (2 * p)
  {
    var q, r := n / 2 / p, n / 2 % p;
    assert n / 2 == q * p + r;
    var low := 2 * r + n % 2;
    assert n == q * (2 * p) + low && low < 2 * p;
    Quotient(n, 2 * p, q, low);
  }

  lemma Quotient(n: nat, m: nat, q: nat, r: nat)
    requires m > 0 && r < m && n == q * m + r
    ensures n / m == q
  {
    var q' := n / m;
    assert (q - q') * m == n % m - r;
    assert (q' - q) * m == r - n % m;
    if q - q' >= 1 {
      AtLeastOnce(q - q', m);
    } else if q' - q >= 1 {
      AtLeastOnce(q' - q, m);
    }
  }

  lemma AtLeastOnce(k: nat, m: nat)
    requires k >= 1
    ensures k * m >= m
  {
  }

  lemma {:induction false} WordBound(bits: seq<bool>)
    ensures Word(bits) < Pow2(|bits|)
  {
    if bits != [] {
      WordBound(bits[1..]);
    }
  }

  lemma {:induction false} WordBit(bits: seq<bool>, k: nat)
    requires k < |bits|
    ensures Bit(Word(bits), k) == bits[k]
  {
    if k != 0 {
      WordBit(bits[1..], k - 1);
      assert Word(bits) / 2 == Word(bits[1..]);
    }
  }

  /** Or-ing in the next bit extends the word by that bit. */
  lemma {:induction false} WordExtends(bits: seq<bool>)
    ensures Word(bits + [true]) == OrBit(Word(bits), |bits|)
    ensures Word(bits + [false]) == Word(bits)
  {
    if bits == [] {
      assert bits + [true] == [true] && bits + [false] == [false];
    } else {
      WordExtends(bits[1..]);
      assert (bits + [true])[1..] == bits[1..] + [true];
      assert (bits + [false])[1..] == bits[1..] + [false];
      assert Word(bits) / 2 == Word(bits[1..]);
    }
  }

  /** A word splits at any bit. */
  lemma {:induction false} WordSplits(low: seq<bool>, high: seq<bool>)
    ensures Word(low + high) == Word(low) + Pow2(|low|) * Word(high)
  {
    if low == [] {
      assert low + high == high;
    } else {
      WordSplits(low[1..], high);
      assert (low + high)[1..] == low[1..] + high;
      assert 2 * (Pow2(|low| - 1) * Word(high)) == Pow2(|low|) * Word(high);
    }
  }

  function Chunk(nulls: seq<bool>): seq<bool> {
    nulls[..if |nulls| < 32 then |nulls| else 32]
  }

  /** One little-endian 32-bit word for every 32 values. */
  function Bitmap(nulls: seq<bool>): seq<byte>
    decreases |nulls|
  {
    if nulls == [] then [] else LittleEndian(Word(Chunk(nulls)), 4) + Bitmap(nulls[|Chunk(nulls)|..])
  }

  /** The length the reader computes: one bit a column, rounded up to bytes and then to
      a multiple of four. */
  function BitmapLen(n: nat): (len: nat)
    ensures len % 4 == 0 && n <= 8 * len < n + 32
  {
    var len := n / 8 + if n % 8 == 0 then 0 else 1;
    if len % 4 != 0 then len + 4 - len % 4 else len
  }

  /** How the reader tests value `i`. */
  function IsNull(bitmap: seq<byte>, i: nat): bool
    requires i / 8 < |bitmap|
  {
    Bit(bitmap[i / 8], i % 8)
  }

  /** Writer and reader agree on the length of the bitmap, for every number of values. */
  lemma {:induction false} BitmapLength(nulls: seq<bool>)
    ensures |Bitmap(nulls)| == BitmapLen(|nulls|)
    decreases |nulls|
  {
    hide BitmapLen, Word;
    if nulls != [] {
      BitmapLength(nulls[|Chunk(nulls)|..]);
      if |nulls| >= 32 {
        BitmapLenStep(|nulls| - 32);
      } else {
        LastWord(|nulls|);
      }
    }
  }

  lemma BitmapLenStep(n: nat)
    ensures BitmapLen(n + 32) == BitmapLen(n) + 4
  {
    assert (n + 32) / 8 == n / 8 + 4 && (n + 32) % 8 == n % 8;
  }

  lemma LastWord(n: nat)
    requires 0 < n < 32
    ensures BitmapLen(n) == 4 && BitmapLen(0) == 0
  {
  }

  /** Byte `j` of a word holds bits `8 * j` to `8 * j + 7`. */
  lemma {:induction false} ByteOfWord(bits: seq<bool>, k: nat, i: nat)
    requires |bits| <= 8 * k && i < |bits|
    ensures |LittleEndian(Word(bits), k)| == k
    ensures Bit(LittleEndian(Word(bits), k)[i / 8], i % 8) == bits[i]
    decreases k
  {
    hide Word, Bit, Pow2;
    FirstByte(bits);
    if i < 8 {
      WordBit(bits[..if |bits| < 8 then |bits| else 8], i);
    } else {
      ByteOfWord(bits[8..], k - 1, i - 8);
      assert (i - 8) / 8 == i / 8 - 1 && (i - 8) % 8 == i % 8;
    }
  }

  /** The low byte of a word holds its first eight bits, and what is above it the others. */
  lemma FirstByte(bits: seq<bool>)
    ensures var cut := if |bits| < 8 then |bits| else 8;
            Word(bits) % 256 == Word(bits[..cut]) && Word(bits) / 256 == Word(bits[cut..])
  {
    hide Word, Pow2;
    var cut := if |bits| < 8 then |bits| else 8;
    var low, high := bits[..cut], bits[cut..];
    assert bits == low + high;
    WordSplits(low, high);
    WordBound(low);
    PowMonotone(cut, 8);
    EightBits();
    var above := if |bits| < 8 then 0 else Word(high);
    assert Word(bits) == Word(low) + 256 * above by {
      if |bits| < 8 {
        NoBits();
        assert high == [] && Pow2(cut) * 0 == 0;
      }
    }
    SplitByte(Word(low), above);
    if |bits| < 8 {
      NoBits();
      assert high == [];
    }
  }

  lemma SplitByte(low: nat, above: nat)
    requires low < 256
    ensures (low + 256 * above) % 256 == low && (low + 256 * above) / 256 == above
  {
  }

  lemma EightBits()
    ensures Pow2(8) == 256
  {
  }

  lemma NoBits()
    ensures Word([]) == 0
  {
  }

  lemma {:induction false} PowMonotone(a: nat, b: nat)
    requires a <= b
    ensures Pow2(a) <= Pow2(b)
    decreases b
  {
    if a < b {
      PowMonotone(a, b - 1);
    }
  }

  /** The reader finds exactly the nulls the writer wrote. */
  lemma {:induction false} BitmapAgreement(nulls: seq<bool>, i: nat)
    requires i < |nulls|
    ensures |Bitmap(nulls)| == BitmapLen(|nulls|)
    ensures IsNull(Bitmap(nulls), i) == nulls[i]
    decreases |nulls|
  {
    BitmapLength(nulls);
    var chunk := Chunk(nulls);
    if i < |chunk| {
      ByteOfWord(chunk, 4, i);
    } else {
      BitmapAgreement(nulls[32..], i - 32);
      assert (i - 32) / 8 == i / 8 - 4 && (i - 32) % 8 == i % 8;
      assert Bitmap(nulls)[i / 8] == Bitmap(nulls[32..])[i / 8 - 4];
    }
  }

  /** `null_bitmap`: a fold over each chunk of 32 values. */
  method PutNullBitmap(values: ByteBuf, nulls: seq<bool>)
    modifies values
    ensures values.data == old(values.data) + Bitmap(nulls)
  {
    var left := nulls;
    while left != []
      invariant values.data + Bitmap(left) == old(values.data) + Bitmap(nulls)
      decreases |left|
    {
      var chunk := Chunk(left);
      var bitmap := 0;
      ghost var written := values.data;
      for i := 0 to |chunk|
        invariant bitmap == Word(chunk[..i]) && values.data == written
      {
        WordExtends(chunk[..i]);
        assert chunk[..i + 1] == chunk[..i] + [chunk[i]];
        if chunk[i] {
          bitmap := OrBit(bitmap, i);
        }
      }
      assert chunk[..|chunk|] == chunk;
      assert bitmap == Word(chunk);
      ghost var rest := Bitmap(left[|chunk|..]);
      assert values.data + (LittleEndian(bitmap, 4) + rest) == values.data + LittleEndian(bitmap, 4) + rest;
      values.PutSlice(LittleEndian(bitmap, 4));
      left := left[|chunk|..];
    }
    assert values.data == values.data + Bitmap(left);
  }
}
