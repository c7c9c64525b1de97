/** The arithmetic of the SRP login (rsfbclient-rust/src/srp.rs), against section 2.6 of
    RFC 5054. Hash functions are parameters with a bound on their results. */
module Srp {
  import opened Util
  import opened Wrappers

  function Pow(b: nat, e: nat): nat {
    if e == 0 then 1 else b * Pow(b, e - 1)
  }

  // ---------------------------------------------------------------- powers and remainders

  /** A remainder is determined by lying below the modulus and differing by a multiple of it. */
  lemma RemainderUnique(a: nat, r: nat, q: int, m: nat)
    requires m > 0 && r < m && a == q * m + r
    ensures a % m == r
  {
    var q' := a / m;
    assert (q - q') * m == a % m - r;
    assert (q' - q) * m == r - a % m;
    if q - q' >= 1 {
      ScaledAtLeast(q - q', m);
    } else if q' - q >= 1 {
      ScaledAtLeast(q' - q, m);
    }
  }

  lemma ScaledAtLeast(k: int, m: nat)
    requires k >= 1
    ensures k * m >= m
  {
  }

  lemma AddMultiple(a: nat, k: nat, m: nat)
    requires m > 0
    ensures (a + k * m) % m == a % m
  {
    assert a + k * m == (a / m + k) * m + a % m;
    RemainderUnique(a + k * m, a % m, a / m + k, m);
  }

  /** A factor may be reduced first. */
  lemma ReduceFactor(a: nat, b: nat, m: nat)
    requires m > 0
    ensures (a % m * b) % m == (a * b) % m
  {
    var q, r := a / m, a % m;
    assert a == q * m + r;
    Distribute(q, m, r, b);
    AddMultiple(r * b, q * b, m);
  }

  lemma Distribute(q: nat, m: nat, r: nat, b: nat)
    ensures (q * m + r) * b == r * b + (q * b) * m
  {
  }

  lemma ReduceSummand(a: nat, b: nat, m: nat)
    requires m > 0
    ensures (a % m + b) % m == (a + b) % m
  {
    var r, k := a % m, a / m;
    assert a == k * m + r;
    AddMultiple(r + b, k, m);
  }

  lemma {:induction false} PowAdd(b: nat, e: nat, f: nat)
    ensures Pow(b, e + f) == Pow(b, e) * Pow(b, f)
  {
    if e != 0 {
      PowAdd(b, e - 1, f);
      assert b * (Pow(b, e - 1) * Pow(b, f)) == b * Pow(b, e - 1) * Pow(b, f);
    }
  }

  lemma {:induction false} PowPow(b: nat, e: nat, f: nat)
    ensures Pow(Pow(b, e), f) == Pow(b, e * f)
  {
    if f != 0 {
      PowPow(b, e, f - 1);
      PowAdd(b, e, e * (f - 1));
      assert e + e * (f - 1) == e * f;
    }
  }

  /** The base of a power may be reduced first. */
  lemma {:induction false} ReduceBase(b: nat, e: nat, m: nat)
    requires m > 0
    ensures Pow(b % m, e) % m == Pow(b, e) % m
  {
    if e != 0 {
      ReduceBase(b, e - 1, m);
      var p, p' := Pow(b, e - 1), Pow(b % m, e - 1);
      ReduceFactor(b, p', m);
      ReduceFactor(p', b, m);
      ReduceFactor(p, b, m);
      assert b * p' == p' * b && b * p == p * b;
    }
  }

  lemma CongruentBases(a: nat, b: nat, e: nat, m: nat)
    requires m > 0 && a % m == b % m
    ensures Pow(a, e) % m == Pow(b, e) % m
  {
    ReduceBase(a, e, m);
    ReduceBase(b, e, m);
  }

  lemma SquareStep(b: nat, e: nat)
    ensures Pow(b, e) == (if e % 2 == 1 then b else 1) * Pow(b * b, e / 2)
  {
    var h := e / 2;
    PowPow(b, 2, h);
    assert Pow(b, 2) == b * b by {
      assert Pow(b, 1) == b * Pow(b, 0) == b;
    }
    PowAdd(b, e % 2, 2 * h);
    assert Pow(b, 1) == b;
  }

  // ---------------------------------------------------------------- powm

  function MulMod(a: nat, b: nat, m: nat): (r: nat)
    requires m > 0
    ensures r < m
  {
    a * b % m
  }

  /** What the loop keeps: `result * base ^ exp` modulo m. */
  ghost function Value(r: nat, b: nat, e: nat, m: nat): nat
    requires m > 0
  {
    r * Pow(b, e) % m
  }

  lemma ValueStart(base: nat, exp: nat, m: nat)
    requires m > 0
    ensures Value(1, base % m, exp, m) == Pow(base, exp) % m
  {
    ReduceBase(base, exp, m);
    assert 1 * Pow(base % m, exp) == Pow(base % m, exp);
  }

  lemma ValueEnd(r: nat, b: nat, m: nat)
    requires m > 0
    ensures Value(r, b, 0, m) < m && (r < m ==> Value(r, b, 0, m) == r)
  {
  }

  /** Square and multiply. It computes the power, except for a modulus of one and an exponent
      of zero, where it returns one. */
  method Powm(base: nat, exp: nat, modulus: nat) returns (result: nat)
    requires modulus > 0
    ensures result == Pow(base, exp) % modulus <==> !(modulus == 1 && exp == 0)
    ensures modulus == 1 && exp == 0 ==> result == 1
  {
    hide Value, Pow, MulMod;
    var e: nat := exp;
    result := 1;
    var b: nat := base % modulus;
    ValueStart(base, exp, modulus);

    while e > 0
      invariant Value(result, b, e, modulus) == Pow(base, exp) % modulus
      invariant e <= exp
      invariant modulus > 1 ==> result < modulus
      invariant modulus == 1 && e == 0 ==> result == if exp == 0 then 1 else 0
    {
      ValueStep(result, b, e, modulus);
      if e % 2 == 1 {
        result := MulMod(result, b, modulus);
      }
      e := e / 2;
      b := MulMod(b, b, modulus);
    }
    ValueEnd(result, b, modulus);
  }

  /** One turn of the loop keeps the value of `result * base ^ exp`. */
  lemma ValueStep(r: nat, b: nat, e: nat, m: nat)
    requires m > 0 && e > 0
    ensures Value(if e % 2 == 1 then MulMod(r, b, m) else r, MulMod(b, b, m), e / 2, m) == Value(r, b, e, m)
  {
    var h := e / 2;
    var p := Pow(b * b, h);
    var f := if e % 2 == 1 then b else 1;
    SquareStep(b, e);
    ReduceBase(b * b, h, m);
    var p' := Pow(b * b % m, h);
    // r * f * p, reducing either factor
    ReduceFactor(r * f, p', m);
    ReduceFactor(p', r * f, m);
    ReduceFactor(p, r * f, m);
    assert r * f * p' == p' * (r * f) && r * f * p == p * (r * f);
    assert r * (f * p) == r * f * p;
    assert e % 2 == 0 ==> r * f == r;
  }

  // ---------------------------------------------------------------- key agreement

  datatype SrpGroup = SrpGroup(n: nat, g: nat)

  /** The group Firebird uses. */
  const SRP_GROUP: SrpGroup := SrpGroup(
    0xe67d2e994b2f900c3f41f08f5bb2627ed0d49ee1fe767a52efcd565cd6e768812c3e1e9ce8f0a8bea6cb13cd29ddebf7a96d4a93b55d488df099a15c89dcb0640738eb2cbdd9a8f7bab561ab1b0dc1c6cdabf303264a08d1bca932d1f1ee428b619d970f342aba9a65793b8b2f041ae5364350c16f735f56ecbca87bd57b29e7,
    2)

  const TWO_160: nat := 0x1_0000000000_0000000000_0000000000_0000000000

  /** A SHA-1 value read as a number. */
  type Hash160 = h: nat | h < TWO_160

  /** What the client takes from its hash functions: the multiplier k of the group, the
      scrambling parameter u made of its own public value and the bytes that came from the
      server, the hash of a number, the hash of the user name, the session key made of the
      secret, and the proof made of all these. */
  datatype Hashes = Hashes(k: SrpGroup -> Hash160, u: (nat, seq<byte>) -> Hash160, number: nat -> nat,
                           user: seq<byte> -> seq<byte>, key: nat -> seq<byte>, proof: Statement -> seq<byte>)

  /** What the proof is the hash of. */
  datatype Statement = Statement(group: nat, user: seq<byte>, salt: seq<byte>, aPub: nat, bPub: nat, key: seq<byte>)

  datatype Verifier = Verifier(proof: seq<byte>, key: seq<byte>)

  datatype SrpClient = SrpClient(params: SrpGroup, a: nat, aPub: nat) {
    ghost predicate Valid() {
      params.n > 1 && aPub == Pow(params.g, a) % params.n
    }
  }

  /** The shared secret of the server: (A * v ^ u) ^ b, for the verifier v = g ^ x. */
  function ServerSecret(group: SrpGroup, aPub: nat, b: nat, x: nat, u: nat): nat
    requires group.n > 0
  {
    Pow(aPub * Pow(Pow(group.g, x) % group.n, u), b) % group.n
  }

  /** The public value of the server: B = k * v + g ^ b. */
  function ServerPublic(group: SrpGroup, k: nat, b: nat, x: nat): nat
    requires group.n > 0
  {
    (k * (Pow(group.g, x) % group.n) + Pow(group.g, b) % group.n) % group.n
  }

  /** `SrpClient::new`. */
  method NewClient(a: nat, params: SrpGroup) returns (c: SrpClient)
    requires params.n > 1
    ensures c.Valid() && c.params == params && c.a == a
  {
    var aPub := Powm(params.g, a, params.n);
    return SrpClient(params, a, aPub);
  }

  /** The two-branch subtraction of `calc_key`. */
  function Difference(bPub: nat, interm: nat, n: nat): nat
    requires interm < n
  {
    if bPub > interm then (bPub - interm) % n else (n + bPub - interm) % n
  }

  /** It is subtraction modulo N: adding again gives B. */
  lemma SubtractionUndone(bPub: nat, interm: nat, n: nat)
    requires interm < n
    ensures Difference(bPub, interm, n) < n
    ensures (Difference(bPub, interm, n) + interm) % n == bPub % n
  {
    if bPub > interm {
      ReduceSummand(bPub - interm, interm, n);
    } else {
      ReduceSummand(n + bPub - interm, interm, n);
      AddMultiple(bPub, 1, n);
    }
  }

  /** Adding the same number to different remainders gives different remainders. */
  lemma CancelSummand(a: nat, b: nat, c: nat, n: nat)
    requires n > 0 && a < n && b < n && (a + c) % n == (b + c) % n
    ensures a == b
  {
    var d := c % n;
    ReduceSummand(c, a, n);
    ReduceSummand(c, b, n);
    assert (d + a) % n == (d + b) % n;
    RemainderUnique(d + a, if d + a < n then d + a else d + a - n, if d + a < n then 0 else 1, n);
    RemainderUnique(d + b, if d + b < n then d + b else d + b - n, if d + b < n then 0 else 1, n);
  }

  /** The premaster secret the client hashes into its key. */
  function ClientSecret(group: SrpGroup, k: nat, a: nat, bPub: nat, x: nat, u: nat): nat
    requires group.n > 0
  {
    var n := group.n;
    var interm := k * (Pow(group.g, x) % n) % n;
    var v := Difference(bPub, interm, n);
    Pow(v, a + u * x % n) % n
  }

  /** `calc_key`, up to the final hash. */
  method CalcKey(c: SrpClient, k: nat, bPub: nat, x: nat, u: nat) returns (s: nat)
    requires c.Valid()
    ensures s == ClientSecret(c.params, k, c.a, bPub, x, u)
  {
    var n := c.params.n;
    var gx := Powm(c.params.g, x, n);
    var interm := k * gx % n;
    var v := if bPub > interm then (bPub - interm) % n else (n + bPub - interm) % n;
    s := Powm(v, c.a + u * x % n, n);
  }

  /** Exactly when client and server agree on the secret, for every group, every secret of either
      side and every public value B that is right modulo N: when the exponent a + u * x and the
      one the client uses, with u * x reduced modulo N, are the same for the power g^b. N is not
      the order of anything, so the two can differ. */
  lemma KeysAgreeIff(group: SrpGroup, k: nat, a: nat, b: nat, x: nat, u: nat, bPub: nat)
    requires group.n > 1
    requires bPub % group.n == ServerPublic(group, k, b, x)
    ensures ClientSecret(group, k, a, bPub, x, u) == ServerSecret(group, Pow(group.g, a) % group.n, b, x, u)
       <==> Pow(group.g, b * (a + u * x % group.n)) % group.n == Pow(group.g, b * (a + u * x)) % group.n
  {
    hide Pow, ClientSecret, ServerSecret, ServerPublic;
    ClientSecretIs(group, k, a, b, x, u, bPub);
    ServerSecretIs(group, a, b, x, u);
    SameExponent(a, b, x, u);
  }

  /** They do agree as long as u * x is below N. */
  lemma KeysAgree(group: SrpGroup, k: nat, a: nat, b: nat, x: nat, u: nat, bPub: nat)
    requires group.n > 1 && u * x < group.n
    requires bPub % group.n == ServerPublic(group, k, b, x)
    ensures ClientSecret(group, k, a, bPub, x, u)
         == ServerSecret(group, Pow(group.g, a) % group.n, b, x, u)
  {
    hide Pow, ClientSecret, ServerSecret, ServerPublic;
    KeysAgreeIff(group, k, a, b, x, u, bPub);
    SmallRemainder(u * x, group.n);
  }

  lemma SameExponent(a: nat, b: nat, x: nat, u: nat)
    ensures b * (a + u * x) == (a + x * u) * b
  {
  }

  lemma ServerSecretIs(group: SrpGroup, a: nat, b: nat, x: nat, u: nat)
    requires group.n > 0
    ensures ServerSecret(group, Pow(group.g, a) % group.n, b, x, u) == Pow(group.g, (a + x * u) * b) % group.n
  {
    hide Pow;
    ServerExponent(group.g, group.n, a, b, x, u);
  }

  lemma ClientSecretIs(group: SrpGroup, k: nat, a: nat, b: nat, x: nat, u: nat, bPub: nat)
    requires group.n > 1
    requires bPub % group.n == ServerPublic(group, k, b, x)
    ensures ClientSecret(group, k, a, bPub, x, u) == Pow(group.g, b * (a + u * x % group.n)) % group.n
  {
    hide Pow, Difference;
    var n, g := group.n, group.g;
    var gx, gb := Pow(g, x) % n, Pow(g, b) % n;
    PublicValueDifference(k * gx, gb, bPub, n);
    ClientExponent(g, n, b, a + u * x % n);
  }

  lemma SmallRemainder(e: nat, n: nat)
    requires e < n
    ensures e % n == e
  {
  }

  lemma PublicValueDifference(kv: nat, gb: nat, bPub: nat, n: nat)
    requires n > 0 && gb < n && bPub % n == (kv + gb) % n
    ensures Difference(bPub, kv % n, n) == gb
  {
    SubtractionUndone(bPub, kv % n, n);
    ReduceSummand(kv, gb, n);
    CancelSummand(Difference(bPub, kv % n, n), gb, kv % n, n);
  }

  lemma ClientExponent(g: nat, n: nat, b: nat, e: nat)
    requires n > 0
    ensures Pow(Pow(g, b) % n, e) % n == Pow(g, b * e) % n
  {
    ReduceBase(Pow(g, b), e, n);
    PowPow(g, b, e);
  }

  lemma ServerExponent(g: nat, n: nat, a: nat, b: nat, x: nat, u: nat)
    requires n > 0
    ensures Pow((Pow(g, a) % n) * Pow(Pow(g, x) % n, u), b) % n == Pow(g, (a + x * u) * b) % n
  {
    var ga, gxu, w := Pow(g, a), Pow(g, x * u), Pow(Pow(g, x) % n, u);
    ClientExponent(g, n, x, u);
    ReduceFactor(ga, w, n);
    ReduceFactor(w, ga, n);
    ReduceFactor(gxu, ga, n);
    assert ga * w == w * ga && ga * gxu == gxu * ga;
    assert (ga % n * w) % n == (ga * gxu) % n;
    CongruentBases(ga % n * w, ga * gxu, b, n);
    PowAdd(g, a, x * u);
    PowPow(g, a + x * u, b);
  }

  /** In Firebird's group the condition always holds, because u and x are SHA-1 values. */
  lemma HashesAreSmall(u: Hash160, x: Hash160)
    ensures SRP_GROUP.n > 1 && u * x < SRP_GROUP.n
  {
    assert u * x <= u * TWO_160 by { assert u * (TWO_160 - x) >= 0; }
    assert u * TWO_160 <= TWO_160 * TWO_160;
  }

  /** Without the bound the secrets can differ: modulo 5 with generator 2, u * x = 5 is reduced
      to an exponent of 0. */
  lemma ReducedExponentMatters()
    ensures ClientSecret(SrpGroup(5, 2), 0, 0, ServerPublic(SrpGroup(5, 2), 0, 1, 5), 5, 1)
         != ServerSecret(SrpGroup(5, 2), Pow(2, 0) % 5, 1, 5, 1)
  {
    assert Pow(2, 1) == 2 && Pow(2, 2) == 4 && Pow(2, 3) == 8 && Pow(2, 4) == 16 && Pow(2, 5) == 32;
    assert ServerPublic(SrpGroup(5, 2), 0, 1, 5) == 2;
    assert Pow(2, 0 + 1 * 5 % 5) == 1;
    assert Pow(32 % 5, 1) == 2;
    assert Pow(1 * 2, 1) == 2;
  }

  datatype SrpAuthError = MaliciousPublicValue

  /** What a server knows of a login: who logs in, with which salt, the public value it got, the
      one it sent, and its own secret. */
  datatype Login = Login(user: seq<byte>, salt: seq<byte>, received: nat, sent: nat, b: nat) {
    /** Its session key, from its own side of the agreement. */
    function Key(hashes: Hashes, group: SrpGroup, x: nat, u: nat): seq<byte>
      requires group.n > 0
    {
      hashes.key(ServerSecret(group, received, b, x, u))
    }

    /** The proof it expects: the hash of H(N) ^ H(g) mod N, the hash of the user, the salt, the
        public value of the client, its own, and the key. */
    function Proof(hashes: Hashes, group: SrpGroup, x: nat, u: nat): seq<byte>
      requires group.n > 0
    {
      hashes.proof(Statement(group := Pow(hashes.number(group.n), hashes.number(group.g)) % group.n,
                             user := hashes.user(user), salt := salt, aPub := received, bPub := sent,
                             key := Key(hashes, group, x, u)))
    }
  }

  /** `process_reply`. A public value that is zero modulo N is refused, and no other. The key is
      the hash of the secret, and the proof that of the group, the user, the salt, the client's own
      public value, the one received, and the key. With Firebird's group, a private key that is a
      SHA-1 value, and a server that follows the protocol, whatever secret it chose, both are those
      of the server. */
  method ProcessReply(c: SrpClient, hashes: Hashes, user: seq<byte>, salt: seq<byte>, privateKey: seq<byte>,
                      bBytes: seq<byte>)
    returns (r: Result<Verifier, SrpAuthError>)
    requires c.Valid()
    ensures r.Err? <==> BigEndianValue(bBytes) % c.params.n == 0
    ensures r.Ok? ==>
              && r.value.key
                 == hashes.key(ClientSecret(c.params, hashes.k(c.params), c.a, BigEndianValue(bBytes),
                                            BigEndianValue(privateKey), hashes.u(c.aPub, bBytes)))
              && r.value.proof
                 == hashes.proof(Statement(group := Pow(hashes.number(c.params.n), hashes.number(c.params.g)) % c.params.n,
                                           user := hashes.user(user), salt := salt, aPub := c.aPub,
                                           bPub := BigEndianValue(bBytes), key := r.value.key))
    ensures c.params == SRP_GROUP && |privateKey| == 20 && r.Ok? ==>
              forall b: nat ::
                BigEndianValue(bBytes) % c.params.n
                == ServerPublic(c.params, hashes.k(c.params), b, BigEndianValue(privateKey)) ==>
                var server := Login(user, salt, c.aPub, BigEndianValue(bBytes), b);
                var x, u := BigEndianValue(privateKey), hashes.u(c.aPub, bBytes);
                r.value == Verifier(server.Proof(hashes, c.params, x, u), server.Key(hashes, c.params, x, u))
  {
    hide BigEndianValue, ServerPublic, ServerSecret, ClientSecret, Pow;
    var u := hashes.u(c.aPub, bBytes);
    var bPub := BigEndianValue(bBytes);
    if bPub % c.params.n == 0 {
      return Err(MaliciousPublicValue);
    }
    var x := BigEndianValue(privateKey);
    var k := hashes.k(c.params);
    var s := CalcKey(c, k, bPub, x, u);
    if c.params == SRP_GROUP && |privateKey| == 20 {
      PrivateKeyIsSmall(privateKey);
      HashesAreSmall(u, x);
      forall b: nat | bPub % c.params.n == ServerPublic(c.params, k, b, x)
        ensures s == ServerSecret(c.params, c.aPub, b, x, u)
      {
        KeysAgree(c.params, k, c.a, b, x, u, bPub);
      }
    }
    var key := hashes.key(s);
    var h := Pow(hashes.number(c.params.n), hashes.number(c.params.g)) % c.params.n;
    return Ok(Verifier(hashes.proof(Statement(h, hashes.user(user), salt, c.aPub, bPub, key)), key));
  }

  lemma PrivateKeyIsSmall(bytes: seq<byte>)
    requires |bytes| == 20
    ensures BigEndianValue(bytes) < TWO_160
  {
    hide BigEndianValue;
    WordSizes();
    Pow256Adds(8, 8);
    Pow256Adds(16, 4);
  }

  lemma {:induction false} Pow256Adds(a: nat, b: nat)
    ensures Pow256(a + b) == Pow256(a) * Pow256(b)
  {
    if a != 0 {
      Pow256Adds(a - 1, b);
      assert 256 * (Pow256(a - 1) * Pow256(b)) == 256 * Pow256(a - 1) * Pow256(b);
    }
  }
}
