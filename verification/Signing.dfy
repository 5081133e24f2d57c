/** Ed25519 keys in the expanded form that Tor uses, and signatures made with them.

    SHA-512 is an arbitrary function from byte strings to digests.
 */
module Signing {
  import opened Options
  import opened Bits
  import opened Words
  import opened Residues
  import opened Curve
  import opened Multiples
  import opened ScalarLimbs
  import opened Scalars
  import opened FieldBytes
  import opened PointDecoding
  import opened GroupElements
  import opened BasePoint
  import opened ScalarMult
  import opened Recoding

  type Digest = s: seq<byte> | |s| == 64 witness seq(64, _ => 0)

  /** The first 32 bytes of a private key are the scalar, the others seed the nonce. */
  datatype KeyPair = KeyPair(privateKey: seq<byte>, publicKey: seq<byte>)

  ghost function Scalar(privateKey: seq<byte>): nat {
    Le(FirstBytes(privateKey))
  }

  method CopyBytes(p: seq<byte>) returns (a: array<byte>)
    ensures fresh(a) && a.Length == 32 && a[..] == FirstBytes(p)
  {
    var s := FirstBytes(p);
    a := new byte[32](i requires 0 <= i < 32 => s[i]);
  }

  /** The order of the base point is L; a hypothesis. */
  ghost predicate BaseHasOrderL() {
    Multiple(L, B) == ZERO
  }

  /** The public key is the encoding of the scalar's multiple of the base point. */
  ghost predicate Matches(pair: KeyPair) {
    |pair.publicKey| == 32 && Le(pair.publicKey) == Encode(Multiple(Scalar(pair.privateKey), B))
  }

  method PublicKey(privateKey: seq<byte>, base: seq<seq<Entry>>) returns (publicKey: seq<byte>)
    requires IsGroup() && IsBaseTable(base)
    ensures IsComputed(KeyPair(privateKey, publicKey))
    ensures FirstBytes(privateKey)[31] <= 127 ==> Matches(KeyPair(privateKey, publicKey))
  {
    hide FermatsLittleTheorem, AdditionIsAssociative, IsBaseTable, Multiple, OnCurve, Le, Encode;
    hide ExtendedGroupElement.Is, BaseScalar;
    var A := new ExtendedGroupElement();
    var hBytes := CopyBytes(privateKey);
    GeScalarMultBase(A, hBytes, base);
    var publicKeyBytes := new byte[32];
    ghost var n := BaseScalar(Scalar(privateKey));
    BaseMultipleIsOnCurve(n);
    A.ToBytes(publicKeyBytes, Multiple(n, B));
    publicKey := publicKeyBytes[..];
  }

  /** The public key that PublicKey computes, which leaves out what GeScalarMultBase does. */
  ghost predicate IsComputed(pair: KeyPair) {
    && |pair.publicKey| == 32
    && Le(pair.publicKey) == Encode(Multiple(BaseScalar(Scalar(pair.privateKey)), B))
  }

  /** The computed public key matches exactly when the scalar leaves at most 8 for the last of the 64 digits. */
  lemma ComputedMatches(pair: KeyPair)
    requires IsGroup() && BaseHasOrderL() && IsComputed(pair)
    ensures Matches(pair) <==> TopDigit(Scalar(pair.privateKey), 63) <= 8
  {
    hide FermatsLittleTheorem, AdditionIsAssociative, BaseHasOrderL, Multiple, OnCurve, Le, Encode,
      Decodes;
    hide TopDigit, Pow16;
    var n := Scalar(pair.privateKey);
    var t := TopDigit(n, 63);
    if Matches(pair) && t > 8 {
      var m := t * Pow16(63);
      BaseMultipleIsOnCurve(n - m);
      BaseMultipleIsOnCurve(n);
      DecodeEncode(Multiple(n - m, B), pair.publicKey, Multiple(n, B));
      DecodeEncode(Multiple(n, B), pair.publicKey, Multiple(n, B));
      EqualMultiples(n - m, n);
      ScalarTopDigit(FirstBytes(pair.privateKey));
      LastDigitCounts(t);
      assert false;
    }
  }

  /** A private key whose scalar is 2^256 - 1 leaves 16 for the last digit, so that its computed public key is
      another's. */
  lemma UnmatchedKey(pair: KeyPair)
    requires IsGroup() && BaseHasOrderL() && IsComputed(pair)
    requires AllOnes(FirstBytes(pair.privateKey))
    ensures TopDigit(Scalar(pair.privateKey), 63) == 16 && !Matches(pair)
  {
    hide FermatsLittleTheorem, AdditionIsAssociative, BaseHasOrderL, Matches, IsComputed, Le;
    OnesOf(FirstBytes(pair.privateKey));
    TopDigitOfOnes();
    ComputedMatches(pair);
  }

  lemma TopDigitOfOnes()
    ensures TopDigit(Pow2(256) - 1, 63) == 16
  {
    hide Pow16, Ones16, Pow2;
    LastWeight();
    PowersOf16(63);
    SixteenWeights();
    var p := Pow16(63);
    DivisionIsUnique(Pow2(256) - 1 + 8 * Ones16(63), p, 16, 8 * Ones16(63) - 1);
  }

  lemma SixteenWeights()
    ensures Pow2(256) == 16 * Pow16(63)
  {
    hide Pow16, Ones16, Pow2;
    PowersOf16(63);
    PowersOfTwo();
    Pow2Sum(252, 4);
  }

  /** A lost carry matters: no a A + b B with A = B is left the same when 2^256 is taken from a. */
  lemma LostMultiple(a: int, b: int)
    requires IsGroup() && BaseHasOrderL()
    ensures Combination(a - Pow2(256), b, B) != Combination(a, b, B)
  {
    hide FermatsLittleTheorem, AdditionIsAssociative, BaseHasOrderL, Multiple, Add, Pow2, Pow16;
    BaseIsOnCurve();
    hide OnCurve;
    MultipleSum(a - Pow2(256), b, B);
    MultipleSum(a, b, B);
    if Combination(a - Pow2(256), b, B) == Combination(a, b, B) {
      EqualMultiples(a - Pow2(256) + b, a + b);
      SixteenWeights();
      LastDigitCounts(16);
      assert false;
    }
  }

  lemma EqualMultiples(m: int, n: int)
    requires IsGroup() && Multiple(m, B) == Multiple(n, B)
    ensures Multiple(n - m, B) == ZERO
  {
    hide FermatsLittleTheorem, AdditionIsAssociative, Multiple, Add;
    BaseIsOnCurve();
    hide OnCurve;
    MultipleSum(n, -m, B);
    MultipleSum(m, -m, B);
    NoMultiple();
  }

  lemma ScalarTopDigit(s: seq<byte>)
    requires |s| == 32
    ensures TopDigit(Le(s), 63) <= 16
  {
    hide Le, Pow16, Ones16;
    LastWeight();
    TopByteBounds(s);
  }

  lemma {:induction false} PowersOf16(k: nat)
    ensures Pow16(k) == Pow2(4 * k) == 15 * Ones16(k) + 1
  {
    if k > 0 {
      PowersOf16(k - 1);
      Pow2Sum(4, 4 * (k - 1));
      assert Pow2(4) == 16;
    }
  }

  lemma LastWeight()
    ensures Pow16(63) == 0x1000_0000_0000_0000_0000_0000_0000_0000_0000_0000_0000_0000_0000_0000_0000_0000
    ensures 8 * Ones16(63) < Pow16(63)
  {
    hide Pow16, Ones16, Pow2;
    PowersOf16(63);
    PowersOfTwo();
    LargePowers();
    Pow2Sum(252, 2);
  }

  /** No multiple of 16^63 * B by 9 .. 16 vanishes: all of them divide one that is a unit modulo L. */
  lemma LastDigitCounts(t: int)
    requires IsGroup() && BaseHasOrderL() && 9 <= t <= 16
    ensures Multiple(t * Pow16(63), B) != ZERO
  {
    BaseIsOnCurve();
    hide FermatsLittleTheorem, AdditionIsAssociative, Multiple, OnCurve, Add, Pow16;
    if Multiple(t * Pow16(63), B) == ZERO {
      var k := Cofactor(t);
      VanishingProduct(k, t * Pow16(63));
      Reassociate(k, t, Pow16(63));
      LastWeight();
      VanishingProduct(U, 0xa_ff50 * Pow16(63));
      VanishingProduct(V, L);
      UnitModuloL();
      EqualMultiples(V * L, V * L + 1);
      SmallMultiples(B);
      assert false;
    }
  }

  lemma VanishingProduct(k: int, m: int)
    requires IsGroup() && Multiple(m, B) == ZERO
    ensures Multiple(k * m, B) == ZERO
  {
    BaseIsOnCurve();
    hide FermatsLittleTheorem, AdditionIsAssociative, Multiple, OnCurve, Add;
    MultipleProduct(k, m, B);
    MultipleOfZero(k);
  }

  lemma Cofactor(t: int) returns (k: int)
    requires 9 <= t <= 16
    ensures k * t == 0xa_ff50
  {
    k := if t == 9 then 80080 else if t == 10 then 72072 else if t == 11 then 65520 else if t == 12 then 60060
         else if t == 13 then 55440 else if t == 14 then 51480 else if t == 15 then 48048 else 45045;
  }

  /** An inverse modulo L of 720720 * 16^63, and the quotient that goes with it. */
  const U: int := 0x8913a52ce88c42d16793aee8804f4a402249be8976467c7bc080bc34fc15073
  const V: int := 0x5e379db6c6f26fe9183614e75438ffa36beab1a206f2fdba84ffd2b51da312547e1b

  lemma UnitModuloL()
    ensures U * (0xa_ff50 * 0x1000_0000_0000_0000_0000_0000_0000_0000_0000_0000_0000_0000_0000_0000_0000_0000)
            == V * L + 1
  {
  }

  lemma BaseMultipleIsOnCurve(n: int)
    requires IsGroup()
    ensures OnCurve(Multiple(n, B))
  {
    hide FermatsLittleTheorem, Multiple;
    BaseIsOnCurve();
    hide OnCurve;
    MultipleIsOnCurve(n, B);
  }

  // ----- signatures

  /** The nonce that is bound to a message, and the challenge that is bound to a commitment. */
  ghost function Nonce(sha512: seq<byte> -> Digest, pair: KeyPair, message: seq<byte>): nat
    requires |pair.privateKey| >= 32
  {
    Le(sha512(pair.privateKey[32..] + message))
  }

  ghost function Challenge(sha512: seq<byte> -> Digest, commitment: seq<byte>, publicKey: seq<byte>,
                           message: seq<byte>): nat
  {
    Le(sha512(commitment + publicKey + message))
  }

  /** What Sign computes: R = r B and S = k a + r modulo L. */
  ghost predicate IsSignature(sha512: seq<byte> -> Digest, pair: KeyPair, message: seq<byte>, signature: seq<byte>)
    requires |pair.privateKey| >= 32
  {
    && |signature| == 64
    && Le(signature[..32]) == Encode(Multiple(Nonce(sha512, pair, message) % L, B))
    && Le(signature[32..])
       == ((Challenge(sha512, signature[..32], pair.publicKey, message) % L) * Scalar(pair.privateKey)
                               + Nonce(sha512, pair, message) % L) % L
  }

  method Sign(sha512: seq<byte> -> Digest, pair: KeyPair, message: seq<byte>, base: seq<seq<Entry>>)
    returns (signature: seq<byte>)
    requires IsGroup() && IsBaseTable(base)
    requires |pair.privateKey| >= 32
    ensures IsSignature(sha512, pair, message, signature)
  {
    hide IsGroup, IsBaseTable, Multiple, OnCurve, Le, Encode;
    var privateKeyA := CopyBytes(pair.privateKey);
    var messageDigestReduced := Reduce(sha512(pair.privateKey[32..] + message));
    var encodedR := Commit(messageDigestReduced, base);
    var hramDigestReduced := Reduce(sha512(encodedR + pair.publicKey + message));
    var s := new byte[32];
    ScMulAdd(s, hramDigestReduced, privateKeyA, messageDigestReduced);
    signature := encodedR + s[..];
    assert signature[..32] == encodedR && signature[32..] == s[..];
  }

  method Reduce(digest: Digest) returns (reduced: array<byte>)
    ensures fresh(reduced) && reduced.Length == 32 && Le(reduced[..]) == Le(digest) % L
  {
    hide Le;
    reduced := new byte[32];
    var wide := new byte[64](i requires 0 <= i < 64 => digest[i]);
    assert wide[..] == digest;
    ScReduce(reduced, wide);
  }

  method Commit(nonce: array<byte>, base: seq<seq<Entry>>) returns (encodedR: seq<byte>)
    requires IsGroup() && IsBaseTable(base)
    requires nonce.Length == 32 && Le(nonce[..]) < L
    ensures |encodedR| == 32 && Le(encodedR) == Encode(Multiple(Le(nonce[..]), B))
  {
    hide FermatsLittleTheorem, AdditionIsAssociative, IsBaseTable, Multiple, OnCurve, Le, Encode;
    hide ExtendedGroupElement.Is;
    ReducedScalar(nonce[..]);
    var R := new ExtendedGroupElement();
    GeScalarMultBase(R, nonce, base);
    BaseMultipleIsOnCurve(Le(nonce[..]));
    var bytes := new byte[32];
    R.ToBytes(bytes, Multiple(Le(nonce[..]), B));
    encodedR := bytes[..];
  }

  /** What is signed, by the places in the hashed strings (RFC 8032, section 5.1.6): the second half of the private key
      in front of the message, and the encoding of R, the public key and the message in this order. */
  lemma SignatureByPlaces(sha512: seq<byte> -> Digest, pair: KeyPair, message: seq<byte>, signature: seq<byte>,
                          y: seq<byte>, x: seq<byte>)
    requires |pair.privateKey| >= 32 && IsSignature(sha512, pair, message, signature)
    requires var n := |pair.privateKey| - 32;
             |y| == n + |message| && y[..n] == pair.privateKey[32..] && y[n..] == message
    requires var n := 32 + |pair.publicKey|;
             |x| == n + |message| && x[..32] == signature[..32] && x[32..n] == pair.publicKey && x[n..] == message
    ensures Le(signature[..32]) == Encode(Multiple(Le(sha512(y)) % L, B))
    ensures Le(signature[32..]) == (Le(sha512(x)) * Le(pair.privateKey[..32]) + Le(sha512(y))) % L
  {
    hide Multiple, Encode, Le;
    assert y == pair.privateKey[32..] + message;
    assert x == signature[..32] + pair.publicKey + message;
    ReducedSum(Le(sha512(x)), Le(pair.privateKey[..32]), Le(sha512(y)));
  }

  lemma ReducedSum(k: int, a: int, r: int)
    ensures ((k % L) * a + r % L) % L == (k * a + r) % L
  {
    ProductModulo(k, a, L);
    var u, v := (k % L) * a, k * a;
    SumModulo(u, r % L, L);
    SumModulo(v, r, L);
    SumModulo(v, r % L, L);
    SumOfRemainders(r, v, L);
  }

  lemma SumModulo(u: int, r: int, m: nat)
    requires m > 0
    ensures (u + r) % m == (u % m + r) % m
  {
    DivisionIsUnique(u + r, m, u / m + (u % m + r) / m, (u % m + r) % m);
  }

  lemma SumOfRemainders(r: int, v: int, m: nat)
    requires m > 0
    ensures (v % m + r % m) % m == (v % m + r) % m
  {
    SumModulo(r, v % m, m);
  }

  /** The equation of the check: S B = R + k A, where k is the hash of the encoding of R, the public key and the message
      in this order. */
  ghost predicate SatisfiesEquation(sha512: seq<byte> -> Digest, publicKey: seq<byte>, message: seq<byte>,
                                    signature: seq<byte>, R: Point, A: Point)
    requires |signature| == 64 && |publicKey| == 32
  {
    forall x: seq<byte> ::
      |x| == 64 + |message| && x[..32] == signature[..32] && x[32..64] == publicKey && x[64..] == message ==>
        Multiple(Le(signature[32..]), B) == Add(R, Multiple(Le(sha512(x)), A))
  }

  /** The check of RFC 8032, section 5.1.7: S is reduced, R and the public key decode, and the equation holds. */
  ghost predicate Verifies(sha512: seq<byte> -> Digest, publicKey: seq<byte>, message: seq<byte>,
                           signature: seq<byte>)
  {
    && |signature| == 64 && |publicKey| == 32
    && Le(signature[32..]) < L
    && exists R, A :: && Decodes(signature[..32], R) && Decodes(publicKey, A)
                      && SatisfiesEquation(sha512, publicKey, message, signature, R, A)
  }

  /** Every signature verifies under the public key that belongs to the private key. */
  lemma SignatureVerifies(sha512: seq<byte> -> Digest, pair: KeyPair, message: seq<byte>, signature: seq<byte>)
    requires IsGroup() && BaseHasOrderL()
    requires |pair.privateKey| >= 32 && Matches(pair)
    requires IsSignature(sha512, pair, message, signature)
    ensures Verifies(sha512, pair.publicKey, message, signature)
  {
    hide FermatsLittleTheorem, AdditionIsAssociative, OnCurve, Multiple, Add, Le, Encode, Decodes;
    hide BaseHasOrderL, Nonce, Challenge, Scalar, SatisfiesEquation;
    var a, r := Scalar(pair.privateKey), Nonce(sha512, pair, message) % L;
    var R, A := Multiple(r, B), Multiple(a, B);
    BaseMultipleIsOnCurve(r);
    BaseMultipleIsOnCurve(a);
    DecodeEncode(R, signature[..32], R);
    DecodeEncode(A, pair.publicKey, A);
    GroupEquation(a, r, Challenge(sha512, signature[..32], pair.publicKey, message));
    EquationByPlaces(sha512, pair.publicKey, message, signature, R, A);
  }

  lemma EquationByPlaces(sha512: seq<byte> -> Digest, publicKey: seq<byte>, message: seq<byte>,
                         signature: seq<byte>, R: Point, A: Point)
    requires |signature| == 64 && |publicKey| == 32
    requires Multiple(Le(signature[32..]), B)
          == Add(R, Multiple(Challenge(sha512, signature[..32], publicKey, message), A))
    ensures SatisfiesEquation(sha512, publicKey, message, signature, R, A)
  {
    hide Multiple, Add, Le, Challenge;
    forall x: seq<byte> | |x| == 64 + |message| && x[..32] == signature[..32] && x[32..64] == publicKey
                          && x[64..] == message
      ensures Multiple(Le(signature[32..]), B) == Add(R, Multiple(Le(sha512(x)), A))
    {
      ChallengeByPlaces(sha512, signature[..32], publicKey, message, x);
    }
  }

  lemma ChallengeByPlaces(sha512: seq<byte> -> Digest, commitment: seq<byte>, publicKey: seq<byte>,
                          message: seq<byte>, x: seq<byte>)
    requires |commitment| == |publicKey| == 32 && |x| == 64 + |message|
    requires x[..32] == commitment && x[32..64] == publicKey && x[64..] == message
    ensures Challenge(sha512, commitment, publicKey, message) == Le(sha512(x))
  {
    assert x == commitment + publicKey + message;
  }

  /** With L B = 0 the reductions modulo L do not matter. */
  lemma GroupEquation(a: int, r: int, k: int)
    requires IsGroup() && BaseHasOrderL()
    ensures Multiple(((k % L) * a + r) % L, B) == Add(Multiple(r, B), Multiple(k, Multiple(a, B)))
  {
    BaseIsOnCurve();
    hide FermatsLittleTheorem, AdditionIsAssociative, OnCurve, Multiple, Add;
    var n := (k % L) * a;
    MultipleModulo(n + r, L, B);
    MultipleSum(r, n, B);
    MultipleProduct(k % L, a, B);
    MultipleModulo(k * a, L, B);
    MultipleModulo(n, L, B);
    ProductModulo(k, a, L);
    MultipleProduct(k, a, B);
    assert n + r == r + n;
  }

  lemma ProductModulo(k: int, a: int, m: nat)
    requires m > 0
    ensures ((k % m) * a) % m == (k * a) % m
  {
    var q, r := k / m, (k % m) * a;
    assert k * a == r + (q * a) * m by {
      assert k == q * m + k % m;
      assert (q * m + k % m) * a == q * m * a + (k % m) * a;
      assert q * m * a == (q * a) * m;
    }
    assert k * a == (r / m + q * a) * m + r % m by {
      assert r == (r / m) * m + r % m;
      assert (r / m + q * a) * m == (r / m) * m + (q * a) * m;
    }
    DivisionIsUnique(k * a, m, r / m + q * a, r % m);
  }

  // ----- keys

  /** The bits that the clamping of a digest clears and sets. */
  method Clamp(digest: Digest) returns (key: seq<byte>)
    ensures |key| == 64 && key[32..] == digest[32..] && key[1..31] == digest[1..31]
    ensures Le(key[..32]) % 8 == 0 && Pow2(254) <= Le(key[..32]) < Pow2(255)
    ensures key[0] as int == digest[0] as int - digest[0] as int % 8
    ensures key[31] as int == 64 + digest[31] as int % 64
  {
    hide And, Or, Pow2, Le;
    PowersOfTwo();
    var low, high := digest[0] as int, digest[31] as int;
    HighMask(31, low, 3);
    AndMask(5, low / 8);
    AndMask(7, high);
    HighMask(1, And(127, high), 6);
    TopBit(And(127, high) / 64);
    key := digest[0 := And(248, low) as byte];
    key := key[31 := And(127, high) as byte];
    key := key[31 := Or(64, key[31] as int) as byte];
    ClampedScalar(key[..32]);
  }

  lemma TopBit(b: int)
    requires b == 0 || b == 1
    ensures Or(1, b) == 1
  {
  }

  lemma ClampedScalar(s: seq<byte>)
    requires |s| == 32 && s[0] % 8 == 0 && 64 <= s[31] < 128
    ensures Le(s) % 8 == 0 && Pow2(254) <= Le(s) < Pow2(255)
  {
    hide Pow2;
    LargePowers();
    LowestBits(s);
    TopByteBounds(s);
  }

  lemma LowestBits(s: seq<byte>)
    requires |s| == 32
    ensures Le(s) % 8 == s[0] as int % 8
  {
    assert Le(s) == s[0] as nat + 0x100 * LeFrom(s, 1);
  }

  lemma TopByteBounds(s: seq<byte>)
    requires |s| == 32
    ensures 0x100_0000_0000_0000_0000_0000_0000_0000_0000_0000_0000_0000_0000_0000_0000_0000 * s[31] as int <= Le(s)
            < 0x100_0000_0000_0000_0000_0000_0000_0000_0000_0000_0000_0000_0000_0000_0000_0000 * (s[31] as int + 1)
  {
    LeOf32(s);
    hide Le;
    assert 0x100_0000_0000_0000 * s[31] as nat <= Word64(s, 24) < 0x100_0000_0000_0000 * (s[31] as nat + 1);
    hide Word64;
  }

  lemma LargePowers()
    ensures Pow2(254) == 0x4000_0000_0000_0000_0000_0000_0000_0000_0000_0000_0000_0000_0000_0000_0000_0000
    ensures Pow2(255) == TWO255
  {
    hide Pow2;
    PowersOfTwo();
    Pow2Sum(16, 16);
    Pow2Sum(32, 32);
    Pow2Sum(64, 64);
    Pow2Sum(128, 64);
    Pow2Sum(192, 32);
    Pow2Sum(224, 24);
    Pow2Sum(248, 6);
    Pow2Sum(248, 7);
  }

  ghost predicate IsClamped(digest: Digest, key: seq<byte>) {
    && |key| == 64 && key[1..31] == digest[1..31] && key[32..] == digest[32..]
    && key[0] as int == digest[0] as int - digest[0] as int % 8 && key[31] as int == 64 + digest[31] as int % 64
  }

  /** The scalar of a seed (RFC 8032, section 5.1.5): the lowest three bits cleared, the highest one bit 254, set. */
  ghost function SeedScalar(digest: Digest): int {
    var n := Le(digest[..32]);
    Pow2(254) + n % Pow2(254) - n % 8
  }

  /** A clamped key has the scalar of its seed, which meets the precondition of GeScalarMultBase. */
  lemma ClampedKey(digest: Digest, key: seq<byte>)
    requires IsClamped(digest, key)
    ensures Scalar(key) == SeedScalar(digest) && FirstBytes(key)[31] <= 127
    ensures Scalar(key) % 8 == 0 && Pow2(254) <= Scalar(key) < Pow2(255)
  {
    var s, k := digest[..32], key[..32];
    assert k == s[0 := k[0]][31 := k[31]] by {
      forall i | 0 < i < 31 ensures k[i] == s[i] {
        assert k[i] == key[1..31][i - 1] && s[i] == digest[1..31][i - 1];
      }
    }
    hide Le, Pow2;
    ReplaceLowByte(s, k[0]);
    ReplaceTopByte(s[0 := k[0]], k[31]);
    ClampedScalar(k);
    LowestBits(s);
    TopByteBounds(s);
    LargePowers();
    RemainderBelowTop(Le(s), s[31] as int);
  }

  lemma RemainderBelowTop(n: int, top: int)
    requires 0 <= n - 0x100_0000_0000_0000_0000_0000_0000_0000_0000_0000_0000_0000_0000_0000_0000_0000 * top
             < 0x100_0000_0000_0000_0000_0000_0000_0000_0000_0000_0000_0000_0000_0000_0000_0000
    ensures n % 0x4000_0000_0000_0000_0000_0000_0000_0000_0000_0000_0000_0000_0000_0000_0000_0000
         == n - 0x4000_0000_0000_0000_0000_0000_0000_0000_0000_0000_0000_0000_0000_0000_0000_0000 * (top / 64)
  {
  }

  lemma ReplaceLowByte(s: seq<byte>, low: byte)
    requires |s| == 32
    ensures Le(s[0 := low]) == Le(s) + (low as int - s[0] as int)
  {
    SameLe(s, s[0 := low], 1);
  }

  lemma {:induction false} SameLe(s: seq<byte>, t: seq<byte>, i: nat)
    requires |s| == |t| && forall j :: i <= j < |s| ==> s[j] == t[j]
    ensures LeFrom(s, i) == LeFrom(t, i)
    decreases |s| - i
  {
    if i < |s| {
      SameLe(s, t, i + 1);
    }
  }

  lemma {:induction false} LeIsInjective(s: seq<byte>, t: seq<byte>, i: nat)
    requires |s| == |t| && i <= |s| && LeFrom(s, i) == LeFrom(t, i)
    ensures s[i..] == t[i..]
    decreases |s| - i
  {
    if i < |s| {
      QuotientIsUnique(0x100, LeFrom(s, i + 1), s[i] as int, LeFrom(t, i + 1), t[i] as int);
      LeIsInjective(s, t, i + 1);
      assert s[i..] == [s[i]] + s[i + 1..] && t[i..] == [t[i]] + t[i + 1..];
    }
  }

  /** A key of Go's own package: the seed, followed by the encoding of its scalar's multiple of the base point. */
  ghost predicate IsGoKey(sha512: seq<byte> -> Digest, key: seq<byte>) {
    && |key| == 64
    && Le(key[32..]) == Encode(Multiple(SeedScalar(sha512(key[..32])), B))
  }

  /** Reads a seed from a source of random bytes, which may run out. */
  method GenerateKey(sha512: seq<byte> -> Digest, source: seq<byte>, base: seq<seq<Entry>>) returns (r: Option<KeyPair>)
    requires IsGroup() && IsBaseTable(base)
    ensures r.Some? <==> |source| >= 32
    ensures r.Some? ==> IsClamped(sha512(source[..32]), r.value.privateKey) && Matches(r.value)
    ensures r.Some? ==> IsGoKey(sha512, source[..32] + r.value.publicKey)
  {
    hide IsGroup, IsBaseTable, Le, Encode, Multiple, SeedScalar, Pow2;
    if |source| < 32 {
      return None;
    }
    var privateKey := Clamp(sha512(source[..32]));
    assert FirstBytes(privateKey) == privateKey[..32];
    var publicKey := PublicKey(privateKey, base);
    ClampedKey(sha512(source[..32]), privateKey);
    ghost var key := source[..32] + publicKey;
    assert key[..32] == source[..32] && key[32..] == publicKey;
    return Some(KeyPair(privateKey, publicKey));
  }

  /** A Go private key is a seed followed by the public key. */
  method FromCryptoPrivateKey(sha512: seq<byte> -> Digest, key: seq<byte>) returns (pair: KeyPair)
    requires |key| >= 32
    ensures IsClamped(sha512(key[..32]), pair.privateKey) && pair.publicKey == key[32..]
    ensures Matches(pair) <==> IsGoKey(sha512, key)
  {
    hide Le, Encode, Multiple, SeedScalar, Pow2;
    var privateKey := Clamp(sha512(key[..32]));
    pair := KeyPair(privateKey, key[32..]);
    ClampedKey(sha512(key[..32]), privateKey);
  }

  /** The converted pair of a Go key signs so that the Go key's public key verifies it. */
  lemma GoKeyVerifies(sha512: seq<byte> -> Digest, key: seq<byte>, pair: KeyPair, message: seq<byte>,
                      signature: seq<byte>)
    requires IsGroup() && BaseHasOrderL() && IsGoKey(sha512, key)
    requires IsClamped(sha512(key[..32]), pair.privateKey) && pair.publicKey == key[32..]
    requires IsSignature(sha512, pair, message, signature)
    ensures Verifies(sha512, key[32..], message, signature)
  {
    hide IsGroup, BaseHasOrderL, Le, Encode, Multiple, SeedScalar, Pow2, IsSignature, Verifies;
    ClampedKey(sha512(key[..32]), pair.privateKey);
    SignatureVerifies(sha512, pair, message, signature);
  }

  /** Both ways to a key pair agree: the pair generated from a seed is the one converted from the seed's Go key. */
  lemma SameKeyFromSeed(sha512: seq<byte> -> Digest, key: seq<byte>, generated: KeyPair, converted: KeyPair)
    requires IsGoKey(sha512, key)
    requires IsClamped(sha512(key[..32]), generated.privateKey) && Matches(generated)
    requires IsClamped(sha512(key[..32]), converted.privateKey) && converted.publicKey == key[32..]
    ensures generated == converted
  {
    hide Le, Encode, Multiple, SeedScalar, Pow2;
    ClampedKey(sha512(key[..32]), generated.privateKey);
    SameClamped(sha512(key[..32]), generated.privateKey, converted.privateKey);
    SameNumber(generated.publicKey, converted.publicKey);
  }

  lemma SameNumber(s: seq<byte>, t: seq<byte>)
    requires |s| == |t| && Le(s) == Le(t)
    ensures s == t
  {
    LeIsInjective(s, t, 0);
    assert s[0..] == s && t[0..] == t;
  }

  lemma SameClamped(digest: Digest, p: seq<byte>, q: seq<byte>)
    requires IsClamped(digest, p) && IsClamped(digest, q)
    ensures p == q
  {
    forall i | 0 <= i < 64 ensures p[i] == q[i] {
      if 0 < i < 31 {
        assert p[i] == p[1..31][i - 1] && q[i] == q[1..31][i - 1];
      } else if 32 <= i {
        assert p[i] == p[32..][i - 32] && q[i] == q[32..][i - 32];
      }
    }
  }

  /** crypto.Signer's Sign: messages that were hashed before are refused. */
  method SignMessage(sha512: seq<byte> -> Digest, pair: KeyPair, message: seq<byte>, hashFunc: nat,
                     base: seq<seq<Entry>>)
    returns (r: Option<seq<byte>>)
    requires IsGroup() && IsBaseTable(base)
    requires |pair.privateKey| >= 32
    ensures r.Some? <==> hashFunc == 0
    ensures r.Some? ==> IsSignature(sha512, pair, message, r.value)
  {
    hide IsGroup, IsBaseTable, IsSignature;
    if hashFunc != 0 {
      return None;
    }
    var signature := Sign(sha512, pair, message, base);
    return Some(signature);
  }
}
