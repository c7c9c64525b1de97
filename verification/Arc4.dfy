/** The RC4 wire encryption (rsfbclient-rust/src/arc4.rs). */
module Arc4 {
  import opened Util
  import opened NullBitmap

  // ---------------------------------------------------------------- the cipher on values

  /** `a ^ b` on numbers of `k` bits: addition without carry, bit by bit. */
  function XorBits(a: nat, b: nat, k: nat): (x: nat)
    ensures x < Pow2(k)
  {
    if k == 0 then 0 else (a + b) % 2 + 2 * XorBits(a / 2, b / 2, k - 1)
  }

  lemma {:induction false} XorBitsTwice(a: nat, b: nat, k: nat)
    requires a < Pow2(k)
    ensures XorBits(XorBits(a, b, k), b, k) == a
  {
    if k != 0 {
      XorBitsTwice(a / 2, b / 2, k - 1);
      Parity(a, b, XorBits(a / 2, b / 2, k - 1));
    }
  }

  lemma {:induction false} XorBitsInjective(a: nat, b: nat, c: nat, k: nat)
    requires b < Pow2(k) && c < Pow2(k)
    requires XorBits(a, b, k) == XorBits(a, c, k)
    ensures b == c
  {
    if k != 0 {
      var x, y := XorBits(a / 2, b / 2, k - 1), XorBits(a / 2, c / 2, k - 1);
      LowBits(a, b, c, x, y);
      XorBitsInjective(a / 2, b / 2, c / 2, k - 1);
    }
  }

  lemma LowBits(a: nat, b: nat, c: nat, x: nat, y: nat)
    requires (a + b) % 2 + 2 * x == (a + c) % 2 + 2 * y
    ensures x == y && b % 2 == c % 2
    ensures b / 2 == c / 2 ==> b == c
  {
  }

  lemma Parity(a: nat, b: nat, high: nat)
    ensures ((a + b) % 2 + 2 * high) / 2 == high
    ensures ((a + b) % 2 + 2 * high + b) % 2 + 2 * (a / 2) == a
  {
  }

  lemma EightBits()
    ensures Pow2(8) == 256
  {
  }

  function Xor(a: byte, b: byte): byte {
    EightBits();
    XorBits(a, b, 8)
  }

  lemma XorTwice(a: byte, b: byte)
    ensures Xor(Xor(a, b), b) == a
  {
    hide XorBits;
    EightBits();
    XorBitsTwice(a, b, 8);
  }

  /** What was combined with one byte comes back with another if and only if they are the same. */
  lemma XorUndoneIff(a: byte, b: byte, c: byte)
    ensures Xor(Xor(a, b), c) == a <==> b == c
  {
    hide XorBits;
    XorTwice(a, b);
    if Xor(Xor(a, b), c) == a {
      EightBits();
      XorBitsInjective(Xor(a, b), b, c, 8);
    }
  }

  /** Each bit of the result says whether the two bits differ. */
  lemma XorIsBitwise(a: byte, b: byte, k: nat)
    requires k < 8
    ensures Bit(Xor(a, b), k) <==> Bit(a, k) != Bit(b, k)
  {
    hide XorBits, Bit;
    EightBits();
    XorBitsAt(a, b, 8, k);
  }

  lemma {:induction false} XorBitsAt(a: nat, b: nat, n: nat, k: nat)
    requires k < n
    ensures Bit(XorBits(a, b, n), k) <==> Bit(a, k) != Bit(b, k)
  {
    hide XorBits;
    XorBitsHalves(a, b, n);
    if k > 0 {
      XorBitsAt(a / 2, b / 2, n - 1, k - 1);
    } else {
      OddSum(a, b);
    }
  }

  /** The lowest bit, and the others. */
  lemma XorBitsHalves(a: nat, b: nat, n: nat)
    requires n > 0
    ensures XorBits(a, b, n) % 2 == (a + b) % 2
    ensures XorBits(a, b, n) / 2 == XorBits(a / 2, b / 2, n - 1)
  {
    LowAndHigh((a + b) % 2, XorBits(a / 2, b / 2, n - 1));
  }

  lemma LowAndHigh(low: nat, high: nat)
    requires low < 2
    ensures (low + 2 * high) % 2 == low && (low + 2 * high) / 2 == high
  {
  }

  lemma OddSum(a: nat, b: nat)
    ensures (a + b) % 2 == 1 <==> (a % 2 == 1) != (b % 2 == 1)
  {
  }

  function WrappingAdd(a: byte, b: byte): byte {
    (a + b) as int % 256
  }

  function Swap(s: seq<byte>, a: nat, b: nat): (t: seq<byte>)
    requires a < |s| && b < |s|
    ensures |t| == |s|
  {
    s[a := s[b]][b := s[a]]
  }

  /** Every byte occurs exactly once. */
  ghost predicate IsPermutation(s: seq<byte>) {
    |s| == 256
    && (forall a, b :: 0 <= a < b < 256 ==> s[a] != s[b])
    && (forall v: byte :: v in s)
  }

  lemma SwapKeepsPermutation(s: seq<byte>, a: nat, b: nat)
    requires IsPermutation(s) && a < 256 && b < 256
    ensures IsPermutation(Swap(s, a, b))
  {
    var t := Swap(s, a, b);
    forall v: byte ensures v in t {
      assert v in s;
      var k :| 0 <= k < 256 && s[k] == v;
      assert t[if k == a then b else if k == b then a else k] == v;
    }
  }

  datatype Rc4 = Rc4(i: byte, j: byte, state: seq<byte>) {
    predicate Sized() {
      |state| == 256
    }

    ghost predicate Valid() {
      IsPermutation(state)
    }

    /** The state after one byte of the key stream. */
    function Step(): (r: Rc4)
      requires Sized()
      ensures r.Sized()
    {
      var i' := WrappingAdd(i, 1);
      var j' := WrappingAdd(j, state[i']);
      Rc4(i', j', Swap(state, i', j'))
    }

    /** The byte the step produced. */
    function Output(): byte
      requires Sized()
    {
      state[WrappingAdd(state[i], state[j])]
    }
  }

  /** `t` is `s` with two entries exchanged. */
  ghost predicate Exchanged(s: seq<byte>, a: nat, b: nat, t: seq<byte>) {
    a < |s| && b < |s| && |t| == |s| && t[a] == s[b] && t[b] == s[a]
    && forall k :: 0 <= k < |s| && k != a && k != b ==> t[k] == s[k]
  }

  /** One step of the generator: both indexes move on modulo 256, two entries of the state are
      exchanged, and the entry at their sum is the byte. */
  lemma StepMeans(r: Rc4)
    requires r.Sized()
    ensures var n := r.Step();
            && n.i as int == (r.i as int + 1) % 256
            && n.j as int == (r.j as int + r.state[n.i] as int) % 256
            && Exchanged(r.state, n.i, n.j, n.state)
            && n.Output() == n.state[(n.state[n.i] as int + n.state[n.j] as int) % 256]
  {
  }

  /** The state after `n` bytes. */
  function Advance(r: Rc4, n: nat): (r': Rc4)
    requires r.Sized()
    ensures r'.Sized()
    decreases n
  {
    if n == 0 then r else Advance(r.Step(), n - 1)
  }

  /** Encryption and decryption: every byte is combined with the next byte of the key stream. */
  function Crypt(r: Rc4, input: seq<byte>): (output: seq<byte>)
    requires r.Sized()
    ensures |output| == |input|
    decreases |input|
  {
    if input == [] then []
    else [Xor(input[0], r.Step().Output())] + Crypt(r.Step(), input[1..])
  }

  lemma {:induction false} AdvanceKeepsPermutation(r: Rc4, n: nat)
    requires r.Valid()
    ensures Advance(r, n).Valid()
    decreases n
  {
    if n != 0 {
      StepKeepsPermutation(r);
      AdvanceKeepsPermutation(r.Step(), n - 1);
    }
  }

  lemma StepKeepsPermutation(r: Rc4)
    requires r.Valid()
    ensures r.Step().Valid()
  {
    var i' := WrappingAdd(r.i, 1);
    SwapKeepsPermutation(r.state, i', WrappingAdd(r.j, r.state[i']));
  }

  lemma {:induction false} AdvanceAdds(r: Rc4, m: nat, n: nat)
    requires r.Sized()
    ensures Advance(r, m + n) == Advance(Advance(r, m), n)
    decreases m
  {
    hide Rc4.Step;
    if m != 0 {
      AdvanceAdds(r.Step(), m - 1, n);
    }
  }

  /** Processing two pieces one after the other is processing their concatenation. */
  lemma {:induction false} CryptConcat(r: Rc4, a: seq<byte>, b: seq<byte>)
    requires r.Sized()
    ensures Crypt(r, a + b) == Crypt(r, a) + Crypt(Advance(r, |a|), b)
    decreases |a|
  {
    hide Rc4.Step, Rc4.Output, Xor;
    if a == [] {
      assert a + b == b;
    } else {
      assert (a + b)[1..] == a[1..] + b;
      CryptConcat(r.Step(), a[1..], b);
    }
  }

  /** Decryption with the same key undoes encryption. */
  lemma {:induction false} CryptTwice(r: Rc4, plain: seq<byte>)
    requires r.Sized()
    ensures Crypt(r, Crypt(r, plain)) == plain
    decreases |plain|
  {
    hide Rc4.Step, Rc4.Output, Xor;
    if plain != [] {
      XorTwice(plain[0], r.Step().Output());
      CryptTwice(r.Step(), plain[1..]);
      assert Crypt(r, plain)[1..] == Crypt(r.Step(), plain[1..]);
    }
  }

  /** Byte `n` of the key stream. */
  function Key(r: Rc4, n: nat): byte
    requires r.Sized()
  {
    Advance(r, n).Step().Output()
  }

  lemma {:induction false} CryptAt(r: Rc4, input: seq<byte>, k: nat)
    requires r.Sized() && k < |input|
    ensures Crypt(r, input)[k] == Xor(input[k], Key(r, k))
    decreases k
  {
    hide Rc4.Step, Rc4.Output, Xor;
    if k > 0 {
      CryptAt(r.Step(), input[1..], k - 1);
    }
  }

  /** Bytes encrypted with key bytes at the given positions. */
  function Sealed(r: Rc4, plain: seq<byte>, positions: seq<nat>): (sealed: seq<byte>)
    requires r.Sized() && |positions| == |plain|
    ensures |sealed| == |plain|
  {
    seq<byte>(|plain|, k requires 0 <= k < |plain| => Xor(plain[k], Key(r, positions[k])))
  }

  function Positions(from: nat, n: nat): (positions: seq<nat>)
    ensures |positions| == n
  {
    seq<nat>(n, k requires 0 <= k < n => from + k)
  }

  lemma KeyShift(r: Rc4, from: nat, k: nat)
    requires r.Sized()
    ensures Key(Advance(r, from), k) == Key(r, from + k)
  {
    AdvanceAdds(r, from, k);
  }

  lemma CryptIsSealed(r: Rc4, from: nat, input: seq<byte>)
    requires r.Sized()
    ensures Crypt(Advance(r, from), input) == Sealed(r, input, Positions(from, |input|))
  {
    hide Xor, Advance, Crypt, Key, Sealed, Positions;
    var positions := Positions(from, |input|);
    var output, sealed := Crypt(Advance(r, from), input), Sealed(r, input, positions);
    forall k | 0 <= k < |input| ensures output[k] == sealed[k] {
      CryptAt(Advance(r, from), input, k);
      KeyShift(r, from, k);
      SealedAt(r, input, positions, k);
      PositionsAt(from, |input|, k);
    }
  }

  lemma SealedAt(r: Rc4, plain: seq<byte>, positions: seq<nat>, k: nat)
    requires r.Sized() && |positions| == |plain| && k < |plain|
    ensures Sealed(r, plain, positions)[k] == Xor(plain[k], Key(r, positions[k]))
  {
    hide Xor, Key;
  }

  lemma PositionsAt(from: nat, n: nat, k: nat)
    requires k < n
    ensures Positions(from, n)[k] == from + k
  {
  }

  lemma KeyBytesAt(r: Rc4, from: nat, n: nat, k: nat)
    requires r.Sized() && k < n
    ensures KeyBytes(r, from, n)[k] == Key(r, from + k)
  {
    hide Key;
  }

  lemma SealedAppend(r: Rc4, plain: seq<byte>, positions: seq<nat>, next: seq<byte>, from: nat, len: nat)
    requires r.Sized() && |positions| == |plain| && len <= |next|
    ensures Sealed(r, plain + next[..len], positions + Positions(from, len))
         == Sealed(r, plain, positions) + Sealed(r, next, Positions(from, |next|))[..len]
  {
    hide Xor, Key;
  }

  lemma PositionsAppend(n: nat, len: nat)
    ensures Positions(0, n) + Positions(n, len) == Positions(0, n + len)
  {
  }

  /** A reader gets back what was written if and only if every byte was encrypted with the same
      key byte the reader uses for it. */
  lemma ReadBackIff(r: Rc4, plain: seq<byte>, positions: seq<nat>)
    requires r.Sized() && |positions| == |plain|
    ensures Crypt(r, Sealed(r, plain, positions)) == plain <==>
              forall k :: 0 <= k < |plain| ==> Key(r, positions[k]) == Key(r, k)
  {
    hide Xor, Key, Crypt;
    var sealed := Sealed(r, plain, positions);
    forall k | 0 <= k < |plain|
      ensures Crypt(r, sealed)[k] == plain[k] <==> Key(r, positions[k]) == Key(r, k)
    {
      CryptAt(r, sealed, k);
      XorUndoneIff(plain[k], Key(r, positions[k]), Key(r, k));
    }
  }

  /** A stretch of the key stream. */
  function KeyBytes(r: Rc4, from: nat, n: nat): (keys: seq<byte>)
    requires r.Sized()
    ensures |keys| == n
  {
    seq<byte>(n, k requires 0 <= k < n => Key(r, from + k))
  }

  lemma DecryptedIff(r: Rc4, a: nat, b: nat, input: seq<byte>)
    requires r.Sized()
    ensures Crypt(Advance(r, a), Crypt(Advance(r, b), input)) == input <==>
              KeyBytes(r, b, |input|) == KeyBytes(r, a, |input|)
  {
    hide Xor, Key, Crypt, Advance, KeyBytes;
    var output := Crypt(Advance(r, b), input);
    var back := Crypt(Advance(r, a), output);
    var sender, reader := KeyBytes(r, b, |input|), KeyBytes(r, a, |input|);
    forall k | 0 <= k < |input|
      ensures back[k] == input[k] <==> sender[k] == reader[k]
    {
      CryptAt(Advance(r, b), input, k);
      CryptAt(Advance(r, a), output, k);
      KeyShift(r, a, k);
      KeyShift(r, b, k);
      KeyBytesAt(r, a, |input|, k);
      KeyBytesAt(r, b, |input|, k);
      XorUndoneIff(input[k], Key(r, b + k), Key(r, a + k));
    }
  }

  /** After a write of which `lost` bytes were encrypted but not taken, the next bytes arrive as
      they were written if and only if the key stream happens to repeat itself there. */
  lemma NextWriteArrivesIff(r: Rc4, plain: seq<byte>, lost: nat, next: seq<byte>)
    requires r.Sized()
    ensures Crypt(r, Crypt(r, plain) + Crypt(Advance(r, |plain| + lost), next)) == plain + next <==>
              KeyBytes(r, |plain| + lost, |next|) == KeyBytes(r, |plain|, |next|)
  {
    hide Crypt, KeyBytes, Advance;
    var behind := Crypt(Advance(r, |plain| + lost), next);
    CryptConcat(r, Crypt(r, plain), behind);
    CryptTwice(r, plain);
    DecryptedIff(r, |plain|, |plain| + lost, next);
    var arrived := Crypt(Advance(r, |plain|), behind);
    assert plain + arrived == plain + next <==> arrived == next by {
      assert (plain + arrived)[|plain|..] == arrived && (plain + next)[|plain|..] == next;
    }
  }

  /** What a reader hands out that gets the ciphertext in chunks. */
  function CryptChunks(r: Rc4, chunks: seq<seq<byte>>): seq<byte>
    requires r.Sized()
    decreases |chunks|
  {
    if chunks == [] then []
    else Crypt(r, chunks[0]) + CryptChunks(Advance(r, |chunks[0]|), chunks[1..])
  }

  /** However the ciphertext is cut, the reader gets the plaintext of a writer with the same
      key. */
  lemma {:induction false} ChunkedReadsDecrypt(r: Rc4, plain: seq<byte>, chunks: seq<seq<byte>>)
    requires r.Sized() && Flatten(chunks) == Crypt(r, plain)
    ensures CryptChunks(r, chunks) == plain
    decreases |chunks|
  {
    ChunksAreOnePiece(r, chunks);
    CryptTwice(r, plain);
  }

  lemma {:induction false} ChunksAreOnePiece(r: Rc4, chunks: seq<seq<byte>>)
    requires r.Sized()
    ensures CryptChunks(r, chunks) == Crypt(r, Flatten(chunks))
    decreases |chunks|
  {
    hide Rc4.Step;
    if chunks != [] {
      ChunksAreOnePiece(Advance(r, |chunks[0]|), chunks[1..]);
      CryptConcat(r, chunks[0], Flatten(chunks[1..]));
    }
  }

  // ---------------------------------------------------------------- key setup

  function Identity(): (s: seq<byte>)
    ensures |s| == 256
  {
    seq(256, i requires 0 <= i < 256 => i)
  }

  /** The second loop of `Arc4::new`, from turn `i` on. */
  function Schedule(key: seq<byte>, s: seq<byte>, i: nat, j: byte): (r: Rc4)
    requires 0 < |key| <= 256 && |s| == 256 && i <= 256
    ensures r.Sized()
    decreases 256 - i
  {
    if i == 256 then Rc4(0, 0, s)
    else
      var j' := WrappingAdd(WrappingAdd(j, s[i]), key[i % |key|]);
      Schedule(key, Swap(s, i, j'), i + 1, j')
  }

  lemma ScheduleStep(key: seq<byte>, s: seq<byte>, i: nat, j: byte)
    requires 0 < |key| <= 256 && |s| == 256 && i < 256
    ensures var j' := WrappingAdd(WrappingAdd(j, s[i]), key[i % |key|]);
            Schedule(key, s, i, j) == Schedule(key, Swap(s, i, j'), i + 1, j')
  {
  }

  lemma ScheduleEnd(key: seq<byte>, s: seq<byte>, j: byte)
    requires 0 < |key| <= 256 && |s| == 256
    ensures Schedule(key, s, 256, j) == Rc4(0, 0, s)
  {
  }

  function KeySetup(key: seq<byte>): (r: Rc4)
    requires 0 < |key| <= 256
    ensures r.Sized()
  {
    Schedule(key, Identity(), 0, 0)
  }

  /** Turn `k` of a key setup: the entry `k` and a key byte, taken round and round, move the
      index, and the entries at both are exchanged. */
  ghost predicate KeyTurn(key: seq<byte>, k: nat, before: (seq<byte>, byte), after: (seq<byte>, byte)) {
    0 < |key| <= 256 && k < |before.0| == 256
    && after.1 as int == (before.1 as int + before.0[k] as int + key[k % |key|] as int) % 256
    && Exchanged(before.0, k, after.1, after.0)
  }

  /** All turns from number `from` on. */
  ghost predicate KeyTurns(key: seq<byte>, from: nat, turns: seq<(seq<byte>, byte)>) {
    from <= 256 && |turns| == 257 - from && (forall k :: 0 <= k < |turns| ==> |turns[k].0| == 256)
    && forall k :: 0 <= k < 256 - from ==> KeyTurn(key, from + k, turns[k], turns[k + 1])
  }

  /** The key setup starts with every number at its own place and takes 256 turns. */
  lemma KeySetupMeans(key: seq<byte>) returns (turns: seq<(seq<byte>, byte)>)
    requires 0 < |key| <= 256
    ensures KeyTurns(key, 0, turns) && turns[0].1 == 0 && forall v :: 0 <= v < 256 ==> turns[0].0[v] as int == v
    ensures KeySetup(key) == Rc4(0, 0, turns[256].0)
  {
    turns := ScheduleMeans(key, Identity(), 0, 0);
  }

  lemma {:induction false} ScheduleMeans(key: seq<byte>, s: seq<byte>, i: nat, j: byte)
    returns (turns: seq<(seq<byte>, byte)>)
    requires 0 < |key| <= 256 && |s| == 256 && i <= 256
    ensures KeyTurns(key, i, turns) && turns[0] == (s, j)
    ensures Schedule(key, s, i, j) == Rc4(0, 0, turns[256 - i].0)
    decreases 256 - i
  {
    hide KeyTurns, KeyTurn, WrappingAdd, Swap;
    if i == 256 {
      turns := [(s, j)];
      NoTurns(key, (s, j));
    } else {
      var j' := WrappingAdd(WrappingAdd(j, s[i]), key[i % |key|]);
      TurnMeans(key, s, i, j);
      var rest := ScheduleMeans(key, Swap(s, i, j'), i + 1, j');
      TurnsBehind(key, i, (s, j), rest);
      turns := [(s, j)] + rest;
      assert turns[256 - i] == rest[256 - (i + 1)];
    }
  }

  lemma NoTurns(key: seq<byte>, last: (seq<byte>, byte))
    requires 0 < |key| <= 256 && |last.0| == 256
    ensures KeyTurns(key, 256, [last])
  {
  }

  lemma TurnMeans(key: seq<byte>, s: seq<byte>, i: nat, j: byte)
    requires 0 < |key| <= 256 && |s| == 256 && i < 256
    ensures var j' := WrappingAdd(WrappingAdd(j, s[i]), key[i % |key|]);
            KeyTurn(key, i, (s, j), (Swap(s, i, j'), j'))
  {
    hide WrappingAdd, Swap, Exchanged;
    AddedTwice(j, s[i], key[i % |key|]);
    SwapExchanges(s, i, WrappingAdd(WrappingAdd(j, s[i]), key[i % |key|]));
  }

  lemma AddedTwice(a: byte, b: byte, c: byte)
    ensures WrappingAdd(WrappingAdd(a, b), c) as int == (a as int + b as int + c as int) % 256
  {
  }

  lemma SwapExchanges(s: seq<byte>, a: nat, b: nat)
    requires a < |s| && b < |s|
    ensures Exchanged(s, a, b, Swap(s, a, b))
  {
  }

  lemma TurnsBehind(key: seq<byte>, i: nat, first: (seq<byte>, byte), rest: seq<(seq<byte>, byte)>)
    requires i < 256 && |first.0| == 256 && KeyTurns(key, i + 1, rest) && KeyTurn(key, i, first, rest[0])
    ensures KeyTurns(key, i, [first] + rest) && |rest| == 256 - i
  {
    hide KeyTurn;
    var turns := [first] + rest;
    forall k | 0 <= k < 256 - i ensures KeyTurn(key, i + k, turns[k], turns[k + 1]) {
      if k > 0 {
        assert KeyTurn(key, i + 1 + (k - 1), rest[k - 1], rest[k]);
        assert turns[k] == rest[k - 1] && turns[k + 1] == rest[k];
      }
    }
  }

  lemma {:induction false} ScheduleKeepsPermutation(key: seq<byte>, s: seq<byte>, i: nat, j: byte)
    requires 0 < |key| <= 256 && i <= 256 && IsPermutation(s)
    ensures Schedule(key, s, i, j).Valid()
    decreases 256 - i
  {
    if i < 256 {
      var j' := WrappingAdd(WrappingAdd(j, s[i]), key[i % |key|]);
      SwapKeepsPermutation(s, i, j');
      ScheduleKeepsPermutation(key, Swap(s, i, j'), i + 1, j');
    }
  }

  lemma KeySetupIsPermutation(key: seq<byte>)
    requires 0 < |key| <= 256
    ensures KeySetup(key).Valid()
  {
    assert IsPermutation(Identity()) by {
      forall v: byte ensures v in Identity() {
        assert Identity()[v] == v;
      }
    }
    ScheduleKeepsPermutation(key, Identity(), 0, 0);
  }

  /** A key under which the schedule changes nothing. */
  function WeakKey(): (key: seq<byte>)
    ensures |key| == 256
  {
    seq(256, i requires 0 <= i < 256 => if i == 0 then 0 else (257 - i) % 256)
  }

  lemma {:induction false} WeakSchedule(i: nat, j: byte)
    requires i <= 256 && j == if i == 0 then 0 else i - 1
    ensures Schedule(WeakKey(), Identity(), i, j) == Rc4(0, 0, Identity())
    decreases 256 - i
  {
    hide WrappingAdd, WeakKey;
    if i < 256 {
      WeakTurn(i, j);
      assert Swap(Identity(), i, i) == Identity();
      WeakSchedule(i + 1, i);
    }
  }

  lemma WeakTurn(i: nat, j: byte)
    requires i < 256 && j == if i == 0 then 0 else i - 1
    ensures WrappingAdd(WrappingAdd(j, i), WeakKey()[i % 256]) == i
  {
    if i > 0 {
      assert WeakKey()[i] == (257 - i) % 256;
    }
  }

  /** With that key, a byte written after a write that came one byte short arrives as another. */
  lemma ShortWriteGarbles(next: byte)
    ensures var r := KeySetup(WeakKey());
            Crypt(r, Crypt(Advance(r, 1), [next])) != [next]
  {
    hide Xor, Schedule;
    var r := Rc4(0, 0, Identity());
    WeakSchedule(0, 0);
    FirstKeyBytes(r);
    NextWriteArrivesIff(r, [], 1, [next]);
    assert KeyBytes(r, 1, 1)[0] == 5 && KeyBytes(r, 0, 1)[0] == 2;
    assert [] + Crypt(Advance(r, 1), [next]) == Crypt(Advance(r, 1), [next]) && [] + [next] == [next];
  }

  lemma FirstKeyBytes(r: Rc4)
    requires r == Rc4(0, 0, Identity())
    ensures Key(r, 0) == 2 && Key(r, 1) == 5
  {
    assert r.Step() == Rc4(1, 1, Identity()) by {
      assert Swap(Identity(), 1, 1) == Identity();
    }
    var s := r.Step();
    assert s.Step() == Rc4(2, 3, Swap(Identity(), 2, 3));
    assert Advance(r, 1) == s;
  }

  // ---------------------------------------------------------------- the cipher in place

  class Arc4 {
    var i: byte
    var j: byte
    const state: array<byte>

    ghost function View(): Rc4
      reads this, state
    {
      Rc4(i, j, state[..])
    }

    ghost predicate Valid()
      reads this, state
    {
      state.Length == 256 && View().Valid()
    }

    /** The state starts as the identity and is shuffled with the key. */
    constructor (key: seq<byte>)
      requires 0 < |key| <= 256
      ensures Valid() && fresh(state)
      ensures View() == KeySetup(key)
    {
      hide IsPermutation, WrappingAdd, Schedule;
      i, j := 0, 0;
      state := new byte[256](i requires 0 <= i < 256 => i);
      new;
      assert state[..] == Identity();
      KeySetupIsPermutation(key);
      var j: byte := 0;
      for i := 0 to 256
        invariant Schedule(key, state[..], i, j) == KeySetup(key)
        invariant this.i == 0 && this.j == 0
      {
        ghost var s, before := state[..], j;
        j := WrappingAdd(WrappingAdd(j, state[i]), key[i % |key|]);
        state[i], state[j] := state[j], state[i];
        assert state[..] == Swap(s, i, j);
        ScheduleStep(key, s, i, before);
      }
      ScheduleEnd(key, state[..], j);
    }

    method Next() returns (b: byte)
      requires Valid()
      modifies this, state
      ensures Valid()
      ensures View() == old(View()).Step() && b == View().Output()
      ensures i as int == (old(i) as int + 1) % 256 && j as int == (old(j) as int + old(state[..])[i] as int) % 256
      ensures Exchanged(old(state[..]), i, j, state[..]) && b == state[(state[i] as int + state[j] as int) % 256]
    {
      hide WrappingAdd, IsPermutation;
      ghost var before := View();
      StepMeans(before);
      StepKeepsPermutation(before);
      i := WrappingAdd(i, 1);
      j := WrappingAdd(j, state[i]);
      state[i], state[j] := state[j], state[i];
      assert state[..] == Swap(before.state, i, j);
      return state[WrappingAdd(state[i], state[j])];
    }

    /** `process`, on the first `len` bytes of two buffers. */
    method Process(input: array<byte>, output: array<byte>, len: nat)
      requires Valid()
      requires len <= input.Length && len <= output.Length
      requires input != output && input != state && output != state
      modifies this, state, output
      ensures Valid() && View() == Advance(old(View()), len)
      ensures output[..len] == Crypt(old(View()), input[..len])
      ensures output[len..] == old(output[len..])
    {
      hide Rc4.Step, Rc4.Output, Rc4.Valid, Xor;
      ghost var start := View();
      for k := 0 to len
        invariant Valid() && View() == Advance(start, k)
        invariant output[..k] == Crypt(start, input[..k])
        invariant output[k..] == old(output[k..])
      {
        ghost var r := View();
        var b := Next();
        output[k] := Xor(input[k], b);
        AdvanceAdds(start, k, 1);
        assert Advance(r, 1) == r.Step() by { assert Advance(r.Step(), 0) == r.Step(); }
        assert input[..k + 1] == input[..k] + [input[k]];
        CryptConcat(start, input[..k], [input[k]]);
        assert Crypt(r, [input[k]]) == [output[k]] by { assert [input[k]][1..] == []; }
        assert output[k + 1..] == old(output[k..])[1..];
      }
    }
  }

  // ---------------------------------------------------------------- the encrypted stream

  /** The wrapped stream: what arrives, what was sent. */
  class ByteStream {
    var inbox: seq<byte>
    var sent: seq<byte>

    constructor ()
      ensures inbox == [] && sent == []
    {
      inbox, sent := [], [];
    }

    /** Fills some of the first `max` bytes of the buffer. */
    method Read(buf: array<byte>, max: nat) returns (len: nat)
      requires max <= buf.Length
      modifies this`inbox, buf
      ensures len <= max && len <= |old(inbox)|
      ensures len == 0 <==> max == 0 || old(inbox) == []
      ensures buf[..len] == old(inbox)[..len] && inbox == old(inbox)[len..]
    {
      if max == 0 || inbox == [] {
        return 0;
      }
      len :| 1 <= len <= max && len <= |inbox|;
      for k := 0 to len
        invariant inbox == old(inbox)
        invariant buf[..k] == inbox[..k]
      {
        buf[k] := inbox[k];
      }
      inbox := inbox[len..];
    }

    /** Takes some of the first `max` bytes of the buffer. */
    method Write(buf: array<byte>, max: nat) returns (len: nat)
      requires max <= buf.Length
      modifies this`sent
      ensures len <= max && sent == old(sent) + buf[..len]
    {
      len :| 0 <= len <= max;
      sent := sent + buf[..len];
    }
  }

  class Arc4Stream {
    const readRc4: Arc4
    const writeRc4: Arc4
    const encBuf: array<byte>
    const stream: ByteStream
    ghost const key: seq<byte>
    /** The ciphertext read so far, and what was handed out for it. */
    ghost var cipherRead: seq<byte>
    ghost var plainRead: seq<byte>
    /** The plaintext the callers were told is written, the position of the key byte each of its
        bytes was encrypted with, and how far the key stream has gone. */
    ghost var plainWritten: seq<byte>
    ghost var positions: seq<nat>
    ghost var keyPosition: nat

    ghost predicate Separate()
      reads this
    {
      readRc4 != writeRc4 && readRc4.state != writeRc4.state
      && encBuf != readRc4.state && encBuf != writeRc4.state
    }

    ghost predicate Valid()
      reads this, readRc4, readRc4.state, writeRc4, writeRc4.state
    {
      Separate() && readRc4.Valid() && writeRc4.Valid() && 0 < |key| <= 256
      && readRc4.View() == Advance(KeySetup(key), |cipherRead|)
      && plainRead == Crypt(KeySetup(key), cipherRead)
      && writeRc4.View() == Advance(KeySetup(key), keyPosition)
    }

    /** What was sent are the bytes reported as written, each encrypted with the key byte at its
        position. */
    ghost predicate Records()
      reads this, stream
    {
      0 < |key| <= 256 && |positions| == |plainWritten|
      && stream.sent == Sealed(KeySetup(key), plainWritten, positions)
    }

    /** No key byte was spent on a byte that was not taken. */
    ghost predicate InStep()
      reads this
    {
      positions == Positions(0, |plainWritten|) && keyPosition == |plainWritten|
    }

    constructor (stream: ByteStream, key: seq<byte>, bufLen: nat)
      requires 0 < |key| <= 256 && stream.sent == []
      ensures Valid() && Records() && InStep() && this.stream == stream && this.key == key
      ensures encBuf.Length == bufLen && plainRead == [] && plainWritten == []
      ensures fresh(readRc4) && fresh(readRc4.state) && fresh(writeRc4) && fresh(writeRc4.state) && fresh(encBuf)
    {
      readRc4 := new Arc4(key);
      writeRc4 := new Arc4(key);
      encBuf := new byte[bufLen](_ => 0);
      this.stream := stream;
      this.key := key;
      cipherRead, plainRead, plainWritten, positions, keyPosition := [], [], [], [], 0;
    }

    /** Reads some ciphertext and hands out its decryption. */
    method Read(buf: array<byte>) returns (len: nat)
      requires Valid()
      requires buf != encBuf && buf != readRc4.state && buf != writeRc4.state
      modifies this`cipherRead, this`plainRead, readRc4, readRc4.state, encBuf, buf, stream`inbox
      ensures Valid()
      ensures len <= buf.Length && len <= |old(stream.inbox)|
      ensures cipherRead == old(cipherRead) + old(stream.inbox)[..len]
      ensures stream.inbox == old(stream.inbox)[len..]
      ensures plainRead == old(plainRead) + buf[..len]
    {
      hide Rc4.Valid, Rc4.Step, Advance, Crypt, KeySetup;
      var maxLen := if buf.Length < encBuf.Length then buf.Length else encBuf.Length;
      len := stream.Read(encBuf, maxLen);
      ghost var chunk := encBuf[..len];
      assert readRc4.View() == old(readRc4.View()) && chunk == old(stream.inbox)[..len];
      readRc4.Process(encBuf, buf, len);
      assert buf[..len] == Crypt(old(readRc4.View()), chunk);
      assert writeRc4.View() == old(writeRc4.View());
      AdvanceAdds(KeySetup(key), |cipherRead|, len);
      CryptConcat(KeySetup(key), cipherRead, chunk);
      cipherRead := cipherRead + chunk;
      plainRead := plainRead + buf[..len];
    }

    /** Encrypts as much as fits the buffer and passes it on. The bytes the wrapped stream takes
        are those reported as written, and are encrypted with the next key bytes; but the key
        stream always advances over everything that was offered. */
    method Write(buf: array<byte>) returns (len: nat)
      requires Valid() && Records()
      requires buf != encBuf && buf != readRc4.state && buf != writeRc4.state
      modifies this`plainWritten, this`positions, this`keyPosition, writeRc4, writeRc4.state, encBuf, stream`sent
      ensures Valid() && Records()
      ensures var maxLen := if buf.Length < encBuf.Length then buf.Length else encBuf.Length;
              && len <= maxLen
              && plainWritten == old(plainWritten) + buf[..len]
              && positions == old(positions) + Positions(old(keyPosition), len)
              && keyPosition == old(keyPosition) + maxLen
              && (old(InStep()) ==> (InStep() <==> len == maxLen))
      ensures old(stream.sent) <= stream.sent
    {
      hide IsPermutation, Rc4.Step, Rc4.Output, Advance, Crypt, KeySetup, Xor, Sealed, Positions;
      var maxLen := if buf.Length < encBuf.Length then buf.Length else encBuf.Length;
      ghost var all := buf[..maxLen];
      writeRc4.Process(buf, encBuf, maxLen);
      CryptIsSealed(KeySetup(key), keyPosition, all);
      len := stream.Write(encBuf, maxLen);
      assert encBuf[..len] == encBuf[..maxLen][..len] && buf[..len] == all[..len];
      SealedAppend(KeySetup(key), plainWritten, positions, all, keyPosition, len);
      PositionsAppend(|plainWritten|, len);
      AdvanceAdds(KeySetup(key), keyPosition, maxLen);
      plainWritten := plainWritten + buf[..len];
      positions := positions + Positions(keyPosition, len);
      keyPosition := keyPosition + maxLen;
    }
  }

  /** What a reader has handed out is what a writer with the same key has written, as far as
      the ciphertext has arrived. */
  lemma ReaderSeesWriter(key: seq<byte>, written: seq<byte>, arrived: seq<byte>)
    requires 0 < |key| <= 256 && arrived <= Crypt(KeySetup(key), written)
    ensures Crypt(KeySetup(key), arrived) == written[..|arrived|]
  {
    hide KeySetup, Crypt;
    var r, n := KeySetup(key), |arrived|;
    var seen, unseen := written[..n], written[n..];
    assert written == seen + unseen;
    CryptConcat(r, seen, unseen);
    assert arrived == Crypt(r, seen);
    CryptTwice(r, seen);
  }
}
