/** The packet cipher: a running exclusive-or over bytes, with two chained states. */
module PacketCipher {

  import opened Words

  /** One mixing step: the states only ever matter modulo 256. */
  function Mix(x: Byte, state: Byte, key: Byte, i: nat): Byte {
    Xor(x, LowByte(state + key + i + 1))
  }

  /** The cipher from position `i` on, after the states `p` and `e`. */
  function EncryptFrom(plain: Bytes, i: nat, p: Byte, e: Byte, rand: Byte, key: Byte): (cipher: Bytes)
    ensures |cipher| == |plain|
    decreases |plain|
  {
    if plain == [] then []
    else
      var p' := Mix(plain[0], p, rand, i);
      var e' := Mix(p', e, key, i);
      [e'] + EncryptFrom(plain[1..], i + 1, p', e', rand, key)
  }

  function DecryptFrom(cipher: Bytes, i: nat, p: Byte, e: Byte, rand: Byte, key: Byte): (plain: Bytes)
    ensures |plain| == |cipher|
    decreases |cipher|
  {
    if cipher == [] then []
    else
      var p' := Mix(cipher[0], e, key, i);
      var d := Mix(p', p, rand, i);
      [d] + DecryptFrom(cipher[1..], i + 1, p', cipher[0], rand, key)
  }

  function Encrypt(plain: Bytes, rand: Byte, key: Byte): (cipher: Bytes)
    ensures |cipher| == |plain|
  {
    EncryptFrom(plain, 0, 0, 0, rand, key)
  }

  function Decrypt(cipher: Bytes, rand: Byte, key: Byte): (plain: Bytes)
    ensures |plain| == |cipher|
  {
    DecryptFrom(cipher, 0, 0, 0, rand, key)
  }

  lemma {:induction false} MixCancels(x: Byte, state: Byte, key: Byte, i: nat)
    ensures Mix(Mix(x, state, key, i), state, key, i) == x
  {
    XorCancels(x, LowByte(state + key + i + 1));
  }

  lemma {:induction false} EncryptCons(d: Byte, plain: Bytes, i: nat, p: Byte, e: Byte, rand: Byte, key: Byte)
    ensures EncryptFrom([d] + plain, i, p, e, rand, key)
         == (var p' := Mix(d, p, rand, i);
             var e' := Mix(p', e, key, i);
             [e'] + EncryptFrom(plain, i + 1, p', e', rand, key))
  {
  }

  lemma {:induction false} DecryptCons(c: Byte, cipher: Bytes, i: nat, p: Byte, e: Byte, rand: Byte, key: Byte)
    ensures DecryptFrom([c] + cipher, i, p, e, rand, key)
         == (var p' := Mix(c, e, key, i);
             [Mix(p', p, rand, i)] + DecryptFrom(cipher, i + 1, p', c, rand, key))
  {
  }

  /** `done` is enciphered, and the states fit the bytes still to do. */
  ghost predicate Enciphering(plain: Bytes, done: Bytes, p: Byte, e: Byte, rand: Byte, key: Byte) {
    && |done| <= |plain|
    && Encrypt(plain, rand, key) == done + EncryptFrom(plain[|done|..], |done|, p, e, rand, key)
  }

  ghost predicate Deciphering(cipher: Bytes, done: Bytes, p: Byte, e: Byte, rand: Byte, key: Byte) {
    && |done| <= |cipher|
    && Decrypt(cipher, rand, key) == done + DecryptFrom(cipher[|done|..], |done|, p, e, rand, key)
  }

  lemma {:induction false} CipherStart(bytes: Bytes, rand: Byte, key: Byte)
    ensures Enciphering(bytes, [], 0, 0, rand, key) && Deciphering(bytes, [], 0, 0, rand, key)
  {
  }

  lemma {:induction false} EncipheringIs(plain: Bytes, done: Bytes, p: Byte, e: Byte, rand: Byte, key: Byte)
    ensures Enciphering(plain, done, p, e, rand, key) <==>
            |done| <= |plain| && Encrypt(plain, rand, key) == done + EncryptFrom(plain[|done|..], |done|, p, e, rand, key)
  {
    hide Encrypt, EncryptFrom;
  }

  lemma {:induction false} DecipheringIs(cipher: Bytes, done: Bytes, p: Byte, e: Byte, rand: Byte, key: Byte)
    ensures Deciphering(cipher, done, p, e, rand, key) <==>
            |done| <= |cipher| && Decrypt(cipher, rand, key) == done + DecryptFrom(cipher[|done|..], |done|, p, e, rand, key)
  {
    hide Decrypt, DecryptFrom;
  }

  lemma {:induction false} JoinNext(done: Bytes, next: Byte, rest: Bytes)
    ensures done + ([next] + rest) == (done + [next]) + rest
  {
  }

  lemma {:induction false} EncipherStep(plain: Bytes, done: Bytes, p: Byte, e: Byte, rand: Byte, key: Byte)
    requires Enciphering(plain, done, p, e, rand, key) && |done| < |plain|
    ensures var p' := Mix(plain[|done|], p, rand, |done|);
            var e' := Mix(p', e, key, |done|);
            Enciphering(plain, done + [e'], p', e', rand, key)
  {
    hide *;
    var i := |done|;
    assert plain[i..] == [plain[i]] + plain[i + 1..];
    EncryptCons(plain[i], plain[i + 1..], i, p, e, rand, key);
    var p' := Mix(plain[i], p, rand, i);
    var e' := Mix(p', e, key, i);
    EncipheringIs(plain, done, p, e, rand, key);
    EncipheringIs(plain, done + [e'], p', e', rand, key);
    JoinNext(done, e', EncryptFrom(plain[i + 1..], i + 1, p', e', rand, key));
  }

  lemma {:induction false} DecipherStep(cipher: Bytes, done: Bytes, p: Byte, e: Byte, rand: Byte, key: Byte)
    requires Deciphering(cipher, done, p, e, rand, key) && |done| < |cipher|
    ensures var p' := Mix(cipher[|done|], e, key, |done|);
            Deciphering(cipher, done + [Mix(p', p, rand, |done|)], p', cipher[|done|], rand, key)
  {
    hide *;
    var i := |done|;
    assert cipher[i..] == [cipher[i]] + cipher[i + 1..];
    DecryptCons(cipher[i], cipher[i + 1..], i, p, e, rand, key);
    var p' := Mix(cipher[i], e, key, i);
    var d := Mix(p', p, rand, i);
    DecipheringIs(cipher, done, p, e, rand, key);
    DecipheringIs(cipher, done + [d], p', cipher[i], rand, key);
    JoinNext(done, d, DecryptFrom(cipher[i + 1..], i + 1, p', cipher[i], rand, key));
  }

  lemma {:induction false} CipherEnd(bytes: Bytes, done: Bytes, p: Byte, e: Byte, rand: Byte, key: Byte)
    requires |done| == |bytes|
    ensures Enciphering(bytes, done, p, e, rand, key) ==> done == Encrypt(bytes, rand, key)
    ensures Deciphering(bytes, done, p, e, rand, key) ==> done == Decrypt(bytes, rand, key)
  {
  }

  lemma {:induction false} DecryptEncryptFrom(plain: Bytes, i: nat, p: Byte, e: Byte, rand: Byte, key: Byte)
    ensures DecryptFrom(EncryptFrom(plain, i, p, e, rand, key), i, p, e, rand, key) == plain
    decreases |plain|
  {
    if plain != [] {
      var d, rest := plain[0], plain[1..];
      var p' := Mix(d, p, rand, i);
      var e' := Mix(p', e, key, i);
      MixCancels(d, p, rand, i);
      MixCancels(p', e, key, i);
      DecryptEncryptFrom(rest, i + 1, p', e', rand, key);
      DecryptCons(e', EncryptFrom(rest, i + 1, p', e', rand, key), i, p, e, rand, key);
      assert plain == [d] + rest;
    }
  }

  lemma {:induction false} EncryptDecryptFrom(cipher: Bytes, i: nat, p: Byte, e: Byte, rand: Byte, key: Byte)
    ensures EncryptFrom(DecryptFrom(cipher, i, p, e, rand, key), i, p, e, rand, key) == cipher
    decreases |cipher|
  {
    if cipher != [] {
      var c, rest := cipher[0], cipher[1..];
      var p' := Mix(c, e, key, i);
      var d := Mix(p', p, rand, i);
      MixCancels(c, e, key, i);
      MixCancels(p', p, rand, i);
      EncryptDecryptFrom(rest, i + 1, p', c, rand, key);
      EncryptCons(d, DecryptFrom(rest, i + 1, p', c, rand, key), i, p, e, rand, key);
      assert cipher == [c] + rest;
    }
  }

  /** Under any keys the cipher is a bijection on byte strings of each length. */
  lemma {:induction false} CipherRoundTrip(bytes: Bytes, rand: Byte, key: Byte)
    ensures Decrypt(Encrypt(bytes, rand, key), rand, key) == bytes
    ensures Encrypt(Decrypt(bytes, rand, key), rand, key) == bytes
  {
    DecryptEncryptFrom(bytes, 0, 0, 0, rand, key);
    EncryptDecryptFrom(bytes, 0, 0, 0, rand, key);
  }

  // ---------- the bytes of the cipher ----------

  /** `r` is the exclusive or of `x` and the low byte of `n`, bit by bit. */
  ghost predicate IsXor(r: Byte, x: Byte, n: nat) {
    forall j :: 0 <= j < 8 ==> Bit(r, j) == (Bit(x, j) + Bit(n, j)) % 2
  }

  lemma {:induction false} XorIs(r: Byte, x: Byte, n: nat)
    ensures IsXor(r, x, n) <==> r == Xor(x, LowByte(n))
  {
    var y := Xor(x, LowByte(n));
    forall j | 0 <= j < 8 ensures Bit(y, j) == (Bit(x, j) + Bit(n, j)) % 2 {
      XorAt(x, LowByte(n), j);
      LowByteBits(n, j);
    }
    hide Xor, Bit, LowByte;
    if IsXor(r, x, n) { ByteBits(r, y); }
  }

  /** Step `k` of the two chains of `encode`, from position `i` on after the states `p0` and
      `e0`: each state is the exclusive or of a byte with the state before, a key byte and the
      position counted from 1. */
  ghost predicate Linked(plain: Bytes, p: Bytes, e: Bytes, i: nat, p0: Byte, e0: Byte, rand: Byte, key: Byte, k: nat)
    requires k < |plain| == |p| == |e|
  {
    && IsXor(p[k], plain[k], (if k == 0 then p0 else p[k - 1]) + rand + (i + k) + 1)
    && IsXor(e[k], p[k], (if k == 0 then e0 else e[k - 1]) + key + (i + k) + 1)
  }

  ghost predicate Chained(plain: Bytes, p: Bytes, e: Bytes, i: nat, p0: Byte, e0: Byte, rand: Byte, key: Byte) {
    && |p| == |plain| && |e| == |plain|
    && forall k :: 0 <= k < |plain| ==> Linked(plain, p, e, i, p0, e0, rand, key, k)
  }

  lemma {:induction false} MixIs(r: Byte, x: Byte, state: Byte, key: Byte, i: nat)
    ensures IsXor(r, x, state + key + i + 1) <==> r == Mix(x, state, key, i)
  {
    XorIs(r, x, state + key + i + 1);
    hide Xor, IsXor, LowByte;
  }

  lemma {:induction false} LinkedFirst(plain: Bytes, p: Bytes, e: Bytes, i: nat, p0: Byte, e0: Byte, rand: Byte,
                                       key: Byte)
    requires |p| == |e| == |plain| > 0
    ensures Linked(plain, p, e, i, p0, e0, rand, key, 0) <==>
            p[0] == Mix(plain[0], p0, rand, i) && e[0] == Mix(p[0], e0, key, i)
  {
    hide IsXor, Mix;
    MixIs(p[0], plain[0], p0, rand, i);
    MixIs(e[0], p[0], e0, key, i);
  }

  lemma {:induction false} LinkedTail(plain: Bytes, p: Bytes, e: Bytes, i: nat, p0: Byte, e0: Byte, rand: Byte,
                                      key: Byte, k: nat)
    requires 0 < k < |plain| == |p| == |e|
    ensures Linked(plain, p, e, i, p0, e0, rand, key, k) <==>
            Linked(plain[1..], p[1..], e[1..], i + 1, p[0], e[0], rand, key, k - 1)
  {
    hide IsXor;
    assert i + k == i + 1 + (k - 1);
  }

  lemma {:induction false} ChainedTail(plain: Bytes, p: Bytes, e: Bytes, i: nat, p0: Byte, e0: Byte, rand: Byte,
                                       key: Byte)
    requires |p| == |e| == |plain| > 0
    ensures Chained(plain, p, e, i, p0, e0, rand, key) <==>
            && p[0] == Mix(plain[0], p0, rand, i) && e[0] == Mix(p[0], e0, key, i)
            && Chained(plain[1..], p[1..], e[1..], i + 1, p[0], e[0], rand, key)
  {
    hide Mix, Linked;
    LinkedFirst(plain, p, e, i, p0, e0, rand, key);
    var plain', p', e', next, p1, e1 := plain[1..], p[1..], e[1..], i + 1, p[0], e[0];
    forall k | 0 < k < |plain|
      ensures Linked(plain, p, e, i, p0, e0, rand, key, k) <==> Linked(plain', p', e', next, p1, e1, rand, key, k - 1)
    {
      LinkedTail(plain, p, e, i, p0, e0, rand, key, k);
    }
    if Chained(plain, p, e, i, p0, e0, rand, key) {
      forall k | 0 <= k < |plain'| ensures Linked(plain', p', e', next, p1, e1, rand, key, k) {
        assert Linked(plain, p, e, i, p0, e0, rand, key, k + 1);
      }
    }
  }

  lemma {:induction false} EncryptChains(plain: Bytes, i: nat, p0: Byte, e0: Byte, rand: Byte, key: Byte)
    returns (p: Bytes)
    ensures Chained(plain, p, EncryptFrom(plain, i, p0, e0, rand, key), i, p0, e0, rand, key)
    decreases |plain|
  {
    var e := EncryptFrom(plain, i, p0, e0, rand, key);
    if plain == [] {
      p := [];
    } else {
      var first := Mix(plain[0], p0, rand, i);
      var rest := EncryptChains(plain[1..], i + 1, first, Mix(first, e0, key, i), rand, key);
      p := [first] + rest;
      assert e[1..] == EncryptFrom(plain[1..], i + 1, first, Mix(first, e0, key, i), rand, key);
      hide Mix, EncryptFrom;
      ChainedTail(plain, p, e, i, p0, e0, rand, key);
    }
  }

  lemma {:induction false} ChainEncrypts(plain: Bytes, p: Bytes, e: Bytes, i: nat, p0: Byte, e0: Byte, rand: Byte,
                                         key: Byte)
    requires Chained(plain, p, e, i, p0, e0, rand, key)
    ensures e == EncryptFrom(plain, i, p0, e0, rand, key)
    decreases |plain|
  {
    hide *;
    ChainedLengths(plain, p, e, i, p0, e0, rand, key);
    if plain == [] {
      EncryptNothing(i, p0, e0, rand, key);
    } else {
      ChainedTail(plain, p, e, i, p0, e0, rand, key);
      ChainEncrypts(plain[1..], p[1..], e[1..], i + 1, p[0], e[0], rand, key);
      assert plain == [plain[0]] + plain[1..];
      assert e == [e[0]] + e[1..];
      EncryptCons(plain[0], plain[1..], i, p0, e0, rand, key);
    }
  }

  lemma {:induction false} ChainedLengths(plain: Bytes, p: Bytes, e: Bytes, i: nat, p0: Byte, e0: Byte, rand: Byte,
                                          key: Byte)
    requires Chained(plain, p, e, i, p0, e0, rand, key)
    ensures |p| == |e| == |plain|
  {
  }

  lemma {:induction false} EncryptNothing(i: nat, p: Byte, e: Byte, rand: Byte, key: Byte)
    ensures EncryptFrom([], i, p, e, rand, key) == []
  {
  }

  /** The chains of `encode` from their start: states P and E, both 0 before the first byte. */
  ghost predicate EncodeChains(plain: Bytes, p: Bytes, e: Bytes, rand: Byte, key: Byte) {
    && |p| == |plain| && |e| == |plain|
    && forall k :: 0 <= k < |plain| ==>
         && IsXor(p[k], plain[k], (if k == 0 then 0 else p[k - 1]) + rand + k + 1)
         && IsXor(e[k], p[k], (if k == 0 then 0 else e[k - 1]) + key + k + 1)
  }

  lemma {:induction false} ChainsAre(plain: Bytes, p: Bytes, e: Bytes, rand: Byte, key: Byte)
    ensures EncodeChains(plain, p, e, rand, key) <==> Chained(plain, p, e, 0, 0, 0, rand, key)
  {
    hide IsXor;
    if Chained(plain, p, e, 0, 0, 0, rand, key) {
      forall k | 0 <= k < |plain|
        ensures IsXor(p[k], plain[k], (if k == 0 then 0 else p[k - 1]) + rand + k + 1)
        ensures IsXor(e[k], p[k], (if k == 0 then 0 else e[k - 1]) + key + k + 1)
      {
        assert Linked(plain, p, e, 0, 0, 0, rand, key, k);
      }
    }
  }

  /** What `encode` puts out, in arithmetic: `cipher` is the encryption of `plain` exactly when
      its bytes and some middle states follow the two chains. */
  lemma {:induction false} EncryptedBytes(plain: Bytes, cipher: Bytes, rand: Byte, key: Byte)
    ensures cipher == Encrypt(plain, rand, key) <==> exists p: Bytes :: EncodeChains(plain, p, cipher, rand, key)
  {
    if cipher == Encrypt(plain, rand, key) {
      var p := EncryptChains(plain, 0, 0, 0, rand, key);
      hide EncodeChains, Chained;
      ChainsAre(plain, p, cipher, rand, key);
      assert EncodeChains(plain, p, cipher, rand, key);
    }
    if p: Bytes :| EncodeChains(plain, p, cipher, rand, key) {
      hide EncodeChains, Chained, EncryptFrom;
      ChainsAre(plain, p, cipher, rand, key);
      ChainEncrypts(plain, p, cipher, 0, 0, 0, rand, key);
    }
  }

  /** The byte `k` places into `cipher`, 0 before its start. */
  function Before(cipher: Bytes, k: int): Byte
    requires k < |cipher|
  {
    if k < 0 then 0 else cipher[k]
  }

  /** The middle state at position k, from the two cipher bytes it depends on. */
  function Middle(cipher: Bytes, k: int, key: Byte): Byte
    requires k < |cipher|
  {
    if k < 0 then 0 else Mix(cipher[k], Before(cipher, k - 1), key, k)
  }

  lemma {:induction false} DecryptSuffix(cipher: Bytes, k: nat, rand: Byte, key: Byte)
    requires k <= |cipher|
    ensures Decrypt(cipher, rand, key)[k..]
         == DecryptFrom(cipher[k..], k, Middle(cipher, k - 1, key), Before(cipher, k - 1), rand, key)
    decreases k
  {
    if k == 0 {
      assert cipher[0..] == cipher;
    } else {
      DecryptSuffix(cipher, k - 1, rand, key);
      var tail := cipher[k - 1..];
      assert tail[1..] == cipher[k..];
      var plain := Decrypt(cipher, rand, key);
      assert plain[k..] == plain[k - 1..][1..];
    }
  }

  /** A decrypted byte depends on its own cipher byte and the two before it, so a
      damaged byte never reaches further than two places. */
  lemma {:induction false} DecryptIsLocal(cipher: Bytes, k: nat, rand: Byte, key: Byte)
    requires k < |cipher|
    ensures Decrypt(cipher, rand, key)[k]
         == Mix(Middle(cipher, k, key), Middle(cipher, k - 1, key), rand, k)
  {
    DecryptSuffix(cipher, k, rand, key);
    assert Decrypt(cipher, rand, key)[k..][0] == Decrypt(cipher, rand, key)[k];
  }

  lemma {:induction false} DamageIsLocal(a: Bytes, b: Bytes, j: nat, k: nat, rand: Byte, key: Byte)
    requires |a| == |b| && j < |a| && k < |a|
    requires forall i :: 0 <= i < |a| && i != j ==> a[i] == b[i]
    requires k < j || j + 2 < k
    ensures Decrypt(a, rand, key)[k] == Decrypt(b, rand, key)[k]
  {
    DecryptIsLocal(a, k, rand, key);
    DecryptIsLocal(b, k, rand, key);
  }

  /** The sum of the bytes modulo 256. */
  function Sum(bytes: Bytes): Byte {
    if bytes == [] then 0 else LowByte(Sum(bytes[..|bytes| - 1]) + bytes[|bytes| - 1])
  }

  // ---------- the checksum ----------

  lemma {:induction false} SumOfOne(x: Byte)
    ensures Sum([x]) == x && Sum([]) == 0
  {
  }

  lemma {:induction false} LowByteAdd(a: int, b: int)
    ensures LowByte(LowByte(a) + b) == LowByte(a + b)
  {
  }

  lemma {:induction false} SumSnoc(s: Bytes, x: Byte)
    ensures Sum(s + [x]) == LowByte(Sum(s) + x)
  {
    assert (s + [x])[..|s|] == s;
  }

  lemma {:induction false} SumConcat(a: Bytes, b: Bytes)
    ensures Sum(a + b) == LowByte(Sum(a) + Sum(b))
    decreases |b|
  {
    hide *;
    if b == [] {
      assert a + b == a;
      SumOfOne(0);
      LowByteKeeps(Sum(a));
    } else {
      var init, last := b[..|b| - 1], b[|b| - 1];
      assert b == init + [last] && a + b == (a + init) + [last];
      SumConcat(a, init);
      SumSnoc(init, last);
      SumSnoc(a + init, last);
      LowByteAdd(Sum(a) + Sum(init), last);
      LowByteAdd(Sum(init) + last, Sum(a));
    }
  }

  lemma {:induction false} LowByteKeeps(x: Byte)
    ensures LowByte(x) == x
  {
  }

  /** The checksum tells apart any two payloads of one length that differ in one byte. */
  lemma {:induction false} OneByteChangesSum(a: Bytes, b: Bytes, k: nat)
    requires |a| == |b| && k < |a| && a[k] != b[k]
    requires forall i :: 0 <= i < |a| && i != k ==> a[i] == b[i]
    ensures Sum(a) != Sum(b)
  {
    hide Sum, LowByte;
    SplitAt(a, k);
    SplitAt(b, k);
    assert b[..k] == a[..k] && b[k + 1..] == a[k + 1..];
    SumAround(a[..k], a[k], a[k + 1..]);
    SumAround(a[..k], b[k], a[k + 1..]);
    LowByteApart(a[k], b[k], Sum(a[..k]) + Sum(a[k + 1..]));
  }

  lemma {:induction false} SplitAt(a: Bytes, k: nat)
    requires k < |a|
    ensures a == a[..k] + ([a[k]] + a[k + 1..])
  {
  }

  lemma {:induction false} SumAround(a: Bytes, x: Byte, b: Bytes)
    ensures Sum(a + ([x] + b)) == LowByte(x + (Sum(a) + Sum(b)))
  {
    SumConcat(a, [x] + b);
    SumConcat([x], b);
    SumOfOne(x);
    hide Sum, LowByte;
    LowByteAdd(x + Sum(b), Sum(a));
  }

  lemma {:induction false} LowByteApart(x: Byte, y: Byte, n: nat)
    requires x != y
    ensures LowByte(x + n) != LowByte(y + n)
  {
  }
}
