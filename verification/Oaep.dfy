/** RSAES-OAEP as `PKCS1OAepCipher` implements it (sections 7.1.1 and 7.1.2 of RFC 3447).
    The hash of the label and the mask generation function are parameters of which only the
    length of the output is known. */
module Oaep {
  import opened NumberTheory
  import opened Octets
  import opened Results

  /** What the cipher raises ValueError for. */
  datatype OaepError = PlaintextTooLong | UnequalLengths | WrongCiphertextLength | IncorrectDecryption

  datatype Key = Key(n: nat, e: nat, d: nat, p: nat, q: nat) {

    /** A key pair over two different primes, e and d inverse modulo p - 1 and q - 1. */
    ghost predicate Valid() {
      && Prime(p) && Prime(q) && p != q && n == p * q
      && e * d > 0 && Divides(p - 1, e * d - 1) && Divides(q - 1, e * d - 1)
    }
  }

  /** Length of a SHA-1 digest: the label is hashed with SHA-1 whatever hash was configured. */
  const SHA1_SIZE := 20

  /** A cipher object: the key, the digest size of the configured hash, the SHA-1 digest of the
      label and the mask generation function. */
  datatype Cipher = Cipher(key: Key, hLen: nat, lHash: Bytes, mgf: (Bytes, nat) -> Bytes) {

    ghost predicate Valid() {
      && key.n > 0 && |lHash| == SHA1_SIZE
      && forall s: Bytes, l: nat :: |mgf(s, l)| == l
    }

    function K(): nat {
      OctetSize(key.n)
    }

    /** The encryption exponentiation on octet strings of the size of the modulus. */
    function Exponentiate(s: Bytes, exponent: nat): (r: Bytes)
      requires key.n > 0
      ensures |r| == K()
    {
      OctetSizeBounds(key.n);
      I2OSP(Pow(OS2IP(s), exponent) % key.n, K())
    }

    /** Steps 1b to 2i of encryption: the encoded message. */
    function Encode(message: Bytes, ros: Bytes): (r: Result<Bytes, OaepError>)
      requires Valid() && |ros| == hLen
      ensures r.Ok? ==> |r.value| == K()
    {
      var psLen := K() - |message| - 2 * hLen - 2;
      if psLen < 0 then Err(PlaintextTooLong)
      else
        var db := lHash + Zeros(psLen) + [1] + message;
        var dbMask := mgf(ros, K() - hLen - 1);
        if |db| != |dbMask| then Err(UnequalLengths)
        else
          var maskedDB := Xor(db, dbMask);
          var maskedSeed := Xor(ros, mgf(maskedDB, hLen));
          Ok([0] + maskedSeed + maskedDB)
    }

    function Encrypt(message: Bytes, ros: Bytes): (r: Result<Bytes, OaepError>)
      requires Valid() && |ros| == hLen
    {
      var em :- Encode(message, ros);
      Ok(Exponentiate(em, key.e))
    }

    /** The seed and the data block hidden in an encoded message. */
    function Unmask(em: Bytes): (r: (Bytes, Bytes))
      requires Valid() && |em| == K() && K() >= hLen + 2
      ensures |r.0| == hLen && |r.1| == K() - hLen - 1
    {
      var maskedSeed, maskedDB := em[1..hLen + 1], em[hLen + 1..];
      var seed := Xor(maskedSeed, mgf(maskedDB, hLen));
      (seed, Xor(maskedDB, mgf(seed, K() - hLen - 1)))
    }

    /** The message of an encoded message, or the reason it is refused. */
    function Decode(em: Bytes): Result<Bytes, OaepError>
      requires Valid() && |em| == K() && K() >= hLen + 2
    {
      Unpad(em[0], Unmask(em).1)
    }

    /** The message of a data block under the leading octet y. */
    function Unpad(y: Octet, db: Bytes): Result<Bytes, OaepError> {
      if Min(hLen, |db|) != |lHash| then Err(UnequalLengths)
      else if y == 0 && |db| > hLen && db[..hLen] == lHash && PaddingEnd(db[hLen..]).Some? then
        Ok(db[hLen + PaddingEnd(db[hLen..]).value + 1..])
      else Err(IncorrectDecryption)
    }

    function Decrypted(ciphertext: Bytes): Result<Bytes, OaepError>
      requires Valid()
    {
      if |ciphertext| != K() || K() < hLen + 2 then Err(WrongCiphertextLength)
      else Decode(Exponentiate(ciphertext, key.d))
    }

    /** Decryption as the code runs it. */
    method Decrypt(ciphertext: Bytes) returns (r: Result<Bytes, OaepError>)
      requires Valid()
      ensures r == Decrypted(ciphertext)
    {
      if |ciphertext| != K() || K() < hLen + 2 {
        return Err(WrongCiphertextLength);
      }
      var em := Exponentiate(ciphertext, key.d);
      var y := em[0];
      var maskedSeed := em[1..hLen + 1];
      var maskedDB := em[hLen + 1..];
      var seed := Xor(maskedSeed, mgf(maskedDB, hLen));
      var db := Xor(maskedDB, mgf(seed, K() - hLen - 1));
      r := CheckBlock(y, db);
    }

    /** Step 3g of decryption: every reason for refusal is accumulated in `invalid`. */
    method CheckBlock(y: Octet, db: Bytes) returns (r: Result<Bytes, OaepError>)
      ensures r == Unpad(y, db)
    {
      var bound := Min(hLen, |db|);
      var onePos := hLen + Find(db[bound..], 1);
      var lHash1 := db[..bound];
      var invalid := OrOctets(y, if onePos < hLen then 1 else 0);
      if |lHash1| != |lHash| {
        return Err(UnequalLengths);
      }
      var hashCompare := Xor(lHash1, lHash);
      invalid := Accumulate(invalid, hashCompare);
      var padding := if onePos < hLen then [] else db[hLen..onePos];
      invalid := Accumulate(invalid, padding);
      XorIsZero(lHash1, lHash);
      BlockVerdict(y, db, db[bound..]);
      assert onePos >= hLen ==> padding == db[bound..][..onePos - hLen];
      if invalid != 0 {
        return Err(IncorrectDecryption);
      }
      return Ok(db[onePos + 1..]);
    }

    lemma BlockVerdict(y: Octet, db: Bytes, rest: Bytes)
      requires Min(hLen, |db|) == |lHash| && rest == db[Min(hLen, |db|)..]
      ensures var f := Find(rest, 1);
              Unpad(y, db) ==
              if y == 0 && f >= 0 && db[..Min(hLen, |db|)] == lHash && AllZero(rest[..f])
              then Ok(db[hLen + f + 1..]) else Err(IncorrectDecryption)
    {
      if |db| > hLen {
        FindOneIsPaddingEnd(rest);
      }
    }
  }

  lemma XorIsZero(a: Bytes, b: Bytes)
    requires |a| == |b|
    ensures AllZero(Xor(a, b)) <==> a == b
  {
    if AllZero(Xor(a, b)) {
      forall i | 0 <= i < |a|
        ensures a[i] == b[i]
      {
        assert Xor(a, b)[i] == 0;
      }
    }
  }

  predicate AllZero(s: Bytes) {
    forall i :: 0 <= i < |s| ==> s[i] == 0
  }

  /** The accumulation loop: no early exit, every octet of s is folded into the result. */
  method Accumulate(invalid: Octet, s: Bytes) returns (r: Octet)
    ensures r == 0 <==> invalid == 0 && AllZero(s)
  {
    r := invalid;
    for i := 0 to |s|
      invariant r == 0 <==> invalid == 0 && forall j :: 0 <= j < i ==> s[j] == 0
    {
      r := OrOctets(r, s[i]);
    }
  }

  function Min(a: nat, b: nat): nat {
    if a < b then a else b
  }

  /** bytes.find for a single octet: the first position, or -1. */
  function Find(s: Bytes, x: Octet): (r: int)
    ensures -1 <= r < |s|
    ensures r == -1 ==> forall j :: 0 <= j < |s| ==> s[j] != x
    ensures r != -1 ==> s[r] == x && forall j :: 0 <= j < r ==> s[j] != x
  {
    if s == [] then -1
    else if s[0] == x then 0
    else
      var r := Find(s[1..], x);
      assert forall j :: 0 < j < |s| ==> s[j] == s[1..][j - 1];
      if r == -1 then -1 else r + 1
  }

  /** Where the run of zeros at the front of s ends, if a 1 follows it. */
  function PaddingEnd(s: Bytes): (r: Option<nat>)
    ensures r.Some? ==> r.value < |s| && s[r.value] == 1 && forall j :: 0 <= j < r.value ==> s[j] == 0
    ensures forall k: nat :: k < |s| && s[k] == 1 && (forall j :: 0 <= j < k ==> s[j] == 0) ==> r == Some(k)
  {
    if s == [] then None
    else if s[0] == 1 then Some(0)
    else if s[0] != 0 then None
    else
      var rest := PaddingEnd(s[1..]);
      assert forall k: nat :: 0 < k < |s| ==> s[k] == s[1..][k - 1];
      if rest.Some? then Some(rest.value + 1) else None
  }

  lemma FindOneIsPaddingEnd(s: Bytes)
    ensures PaddingEnd(s).Some? <==> Find(s, 1) != -1 && AllZero(s[..Find(s, 1)])
    ensures PaddingEnd(s).Some? ==> PaddingEnd(s).value == Find(s, 1)
  {
    var r := Find(s, 1);
    if PaddingEnd(s).Some? {
      var k := PaddingEnd(s).value;
      assert r == k;
    } else if r != -1 && AllZero(s[..r]) {
      assert forall j :: 0 <= j < r ==> s[j] == s[..r][j];
    }
  }
}
