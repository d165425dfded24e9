/** What the OAEP cipher promises: decryption undoes encryption, and every accepted ciphertext
    is one that encryption can produce, up to the modulus. */
module OaepProofs {
  import opened NumberTheory
  import opened Octets
  import opened Oaep
  import opened Results

  /** Keys of this kind exist. */
  lemma SmallKey()
    ensures Key(15, 3, 3, 3, 5).Valid()
  {
    forall d: nat | 1 < d < 3
      ensures !Divides(d, 3)
    {
      assert d == 2;
    }
    forall d: nat | 1 < d < 5
      ensures !Divides(d, 5)
    {
      assert d == 2 || d == 3 || d == 4;
    }
  }

  // ---- The padding ----

  /** Encoding succeeds exactly for messages of at most k - 2 hLen - 2 octets, and only when the
      configured hash has the length of SHA-1. */
  lemma EncodeSucceedsExactly(c: Cipher, message: Bytes, ros: Bytes)
    requires c.Valid() && |ros| == c.hLen
    ensures c.Encode(message, ros).Ok? <==> |message| + 2 * c.hLen + 2 <= c.K() && c.hLen == SHA1_SIZE
  {
  }

  lemma BlockIsAccepted(c: Cipher, psLen: nat, message: Bytes)
    requires c.Valid() && c.hLen == SHA1_SIZE
    ensures c.Unpad(0, c.lHash + Zeros(psLen) + [1] + message) == Ok(message)
  {
    var h := c.hLen;
    var db := c.lHash + Zeros(psLen) + [1] + message;
    var rest := db[h..];
    assert rest[psLen] == 1 && forall j :: 0 <= j < psLen ==> rest[j] == 0;
    assert PaddingEnd(rest) == Some(psLen);
    assert db[h + psLen + 1..] == message && db[..h] == c.lHash;
  }

  lemma AcceptedIsBlock(c: Cipher, db: Bytes, psLen: nat, message: Bytes)
    requires c.Valid() && c.hLen == SHA1_SIZE && |db| == c.hLen + psLen + 1 + |message|
    requires c.Unpad(0, db) == Ok(message)
    ensures db == c.lHash + Zeros(psLen) + [1] + message
  {
    var h := c.hLen;
    var rest := db[h..];
    var k := PaddingEnd(rest).value;
    assert k == psLen by {
      assert |db[h + k + 1..]| == |db| - (h + k + 1);
    }
    assert rest[..k] == Zeros(psLen);
    assert rest == rest[..k] + [1] + rest[k + 1..];
    assert db == db[..h] + rest && rest[k + 1..] == db[h + k + 1..];
  }

  /** A data block is accepted exactly when it is label hash, zeros, 1, message. */
  lemma UnpadAcceptsExactly(c: Cipher, db: Bytes, psLen: nat, message: Bytes)
    requires c.Valid() && c.hLen == SHA1_SIZE && |db| == c.hLen + psLen + 1 + |message|
    ensures db == c.lHash + Zeros(psLen) + [1] + message <==>
            c.Unpad(0, db) == Ok(message)
  {
    hide Cipher.Unpad;
    BlockIsAccepted(c, psLen, message);
    if c.Unpad(0, db) == Ok(message) {
      AcceptedIsBlock(c, db, psLen, message);
    }
  }

  /** The octets of an encoded message: zero, the seed masked by the masked block, and the block of
      label hash, zeros, 1 and message masked by the seed, where masking makes each bit the
      difference of two. */
  lemma EncodedOctets(c: Cipher, message: Bytes, ros: Bytes)
    requires c.Valid() && |ros| == c.hLen && c.Encode(message, ros).Ok?
    ensures var em, h, k := c.Encode(message, ros).value, c.hLen, c.K();
            var oneAt := k - h - 2 - |message|;
            && |em| == k > 2 * h + 1 + |message| && em[0] == 0
            && |c.mgf(em[h + 1..], h)| == h && |c.mgf(ros, k - h - 1)| == k - h - 1 && h == |c.lHash| <= oneAt
            && (forall j, i: nat :: 0 <= j < h && i < 8 ==>
                  (em[1 + j] / Pow(2, i) % 2 == 1 <==> ros[j] / Pow(2, i) % 2 != c.mgf(em[h + 1..], h)[j] / Pow(2, i) % 2))
            && (forall j, i: nat :: 0 <= j < k - h - 1 && i < 8 ==>
                  var octet := if j < h then c.lHash[j] else if j < oneAt then 0 else if j == oneAt then 1 else message[j - oneAt - 1];
                  (em[h + 1 + j] / Pow(2, i) % 2 == 1 <==> octet / Pow(2, i) % 2 != c.mgf(ros, k - h - 1)[j] / Pow(2, i) % 2))
  {
    var h, k := c.hLen, c.K();
    EncodeSucceedsExactly(c, message, ros);
    var em := c.Encode(message, ros).value;
    var db := Block(c, message);
    EncodedParts(c, message, ros);
    BlockOctets(c, message);
    XorBitsAll(db, c.mgf(ros, k - h - 1));
    XorBitsAll(ros, c.mgf(em[h + 1..], h));
    hide Xor;
    hide Block;
    hide Cipher.Encode;
    var maskedSeed, maskedDB := em[1..h + 1], em[h + 1..];
    assert forall j :: 0 <= j < h ==> maskedSeed[j] == em[1 + j];
    assert forall j :: 0 <= j < k - h - 1 ==> maskedDB[j] == em[h + 1 + j];
  }

  /** The unmasked data block of a message that fits. */
  function Block(c: Cipher, message: Bytes): (db: Bytes)
    requires |message| + 2 * c.hLen + 2 <= c.K() && |c.lHash| == c.hLen
    ensures |db| == c.K() - c.hLen - 1
  {
    c.lHash + Zeros(c.K() - |message| - 2 * c.hLen - 2) + [1] + message
  }

  lemma BlockOctets(c: Cipher, message: Bytes)
    requires |message| + 2 * c.hLen + 2 <= c.K() && |c.lHash| == c.hLen
    ensures var h, oneAt := c.hLen, c.K() - c.hLen - 2 - |message|;
            forall j :: 0 <= j < c.K() - h - 1 ==>
              Block(c, message)[j] == if j < h then c.lHash[j] else if j < oneAt then 0 else if j == oneAt then 1 else message[j - oneAt - 1]
  {
  }

  lemma EncodedParts(c: Cipher, message: Bytes, ros: Bytes)
    requires c.Valid() && |ros| == c.hLen && c.Encode(message, ros).Ok?
    ensures |c.lHash| == c.hLen && |message| + 2 * c.hLen + 2 <= c.K()
    ensures var em, h, k := c.Encode(message, ros).value, c.hLen, c.K();
            && em[0] == 0 && em[h + 1..] == Xor(Block(c, message), c.mgf(ros, k - h - 1))
            && em[1..h + 1] == Xor(ros, c.mgf(em[h + 1..], h))
  {
    var h, k := c.hLen, c.K();
    EncodeSucceedsExactly(c, message, ros);
    var maskedDB := Xor(Block(c, message), c.mgf(ros, k - h - 1));
    var maskedSeed := Xor(ros, c.mgf(maskedDB, h));
    var em := [0] + maskedSeed + maskedDB;
    assert c.Encode(message, ros).value == em && em[h + 1..] == maskedDB && em[1..h + 1] == maskedSeed;
  }

  /** A ciphertext is the encoded message, as an integer, to the public exponent. */
  lemma EncryptedIsPower(c: Cipher, message: Bytes, ros: Bytes)
    requires c.Valid() && |ros| == c.hLen
    ensures c.Encrypt(message, ros).Ok? <==> c.Encode(message, ros).Ok?
    ensures c.Encrypt(message, ros).Ok? ==>
              && |c.Encrypt(message, ros).value| == c.K()
              && OS2IP(c.Encrypt(message, ros).value) == Pow(OS2IP(c.Encode(message, ros).value), c.key.e) % c.key.n
  {
    if c.Encode(message, ros).Ok? {
      ExponentiateReadsBack(c, c.Encode(message, ros).value, c.key.e);
    }
  }

  lemma UnmaskUndoesMasking(c: Cipher, ros: Bytes, db: Bytes)
    requires c.Valid() && |ros| == c.hLen && c.K() >= c.hLen + 2 && |db| == c.K() - c.hLen - 1
    ensures var maskedDB := Xor(db, c.mgf(ros, c.K() - c.hLen - 1));
            c.Unmask([0] + Xor(ros, c.mgf(maskedDB, c.hLen)) + maskedDB) == (ros, db)
  {
    var dbMask := c.mgf(ros, c.K() - c.hLen - 1);
    var maskedDB := Xor(db, dbMask);
    var seedMask := c.mgf(maskedDB, c.hLen);
    var em := [0] + Xor(ros, seedMask) + maskedDB;
    assert em[1..c.hLen + 1] == Xor(ros, seedMask) && em[c.hLen + 1..] == maskedDB;
    XorCancels(ros, seedMask);
    XorCancels(db, dbMask);
  }

  lemma MaskingUndoesUnmask(c: Cipher, em: Bytes)
    requires c.Valid() && |em| == c.K() && c.K() >= c.hLen + 2 && em[0] == 0
    ensures var (ros, db) := c.Unmask(em);
            var maskedDB := Xor(db, c.mgf(ros, c.K() - c.hLen - 1));
            em == [0] + Xor(ros, c.mgf(maskedDB, c.hLen)) + maskedDB
  {
    var (ros, db) := c.Unmask(em);
    XorCancels(em[c.hLen + 1..], c.mgf(ros, c.K() - c.hLen - 1));
    XorCancels(em[1..c.hLen + 1], c.mgf(em[c.hLen + 1..], c.hLen));
    assert em == [em[0]] + em[1..c.hLen + 1] + em[c.hLen + 1..];
  }

  lemma DecodeUndoesEncode(c: Cipher, message: Bytes, ros: Bytes)
    requires c.Valid() && |ros| == c.hLen && c.Encode(message, ros).Ok?
    ensures c.Decode(c.Encode(message, ros).value) == Ok(message)
  {
    EncodeSucceedsExactly(c, message, ros);
    var psLen := c.K() - |message| - 2 * c.hLen - 2;
    var db := c.lHash + Zeros(psLen) + [1] + message;
    var em := c.Encode(message, ros).value;
    assert em[0] == 0 && c.Unmask(em) == (ros, db) by {
      UnmaskUndoesMasking(c, ros, db);
    }
    UnpadAcceptsExactly(c, db, psLen, message);
  }

  lemma EncodeUndoesDecode(c: Cipher, em: Bytes)
    requires c.Valid() && |em| == c.K() && c.K() >= c.hLen + 2 && c.Decode(em).Ok?
    ensures c.Encode(c.Decode(em).value, c.Unmask(em).0) == Ok(em)
  {
    var (ros, db) := c.Unmask(em);
    var message := c.Decode(em).value;
    var psLen := PaddingEnd(db[c.hLen..]).value;
    assert |message| == |db| - c.hLen - psLen - 1;
    UnpadAcceptsExactly(c, db, psLen, message);
    MaskingUndoesUnmask(c, em);
  }

  // ---- The exponentiation ----

  /** An encoded message starts with a zero octet and so, read as an integer, is below n. */
  lemma EncodedIsBelowModulus(c: Cipher, message: Bytes, ros: Bytes)
    requires c.Valid() && |ros| == c.hLen && c.Encode(message, ros).Ok?
    ensures OS2IP(c.Encode(message, ros).value) < c.key.n
  {
    var em := c.Encode(message, ros).value;
    assert em == [0] + em[1..];
    LeadingZero(em[1..]);
    IntegerFitsOctets(em[1..]);
    OctetSizeBounds(c.key.n);
  }

  lemma ExponentiateReadsBack(c: Cipher, s: Bytes, exponent: nat)
    requires c.key.n > 0
    ensures OS2IP(c.Exponentiate(s, exponent)) == Pow(OS2IP(s), exponent) % c.key.n < c.key.n
  {
    OctetSizeBounds(c.key.n);
    IntegerOfOctets(Pow(OS2IP(s), exponent) % c.key.n, c.K());
  }

  lemma ExponentiationInverts(c: Cipher, s: Bytes, a: nat, b: nat)
    requires c.key.n > 0 && |s| == c.K()
    requires Pow(Pow(OS2IP(s), a) % c.key.n, b) % c.key.n == OS2IP(s)
    ensures c.Exponentiate(c.Exponentiate(s, a), b) == s
  {
    OctetSizeBounds(c.key.n);
    ExponentiateReadsBack(c, s, a);
    OctetsOfInteger(s);
  }

  /** For a valid key, the two exponentiations undo each other in both orders. */
  lemma ExponentiationsInvert(c: Cipher, s: Bytes)
    requires c.Valid() && c.key.Valid() && |s| == c.K() && OS2IP(s) < c.key.n
    ensures c.Exponentiate(c.Exponentiate(s, c.key.e), c.key.d) == s
    ensures c.Exponentiate(c.Exponentiate(s, c.key.d), c.key.e) == s
  {
    var Key(n, e, d, p, q) := c.key;
    ExponentsInvert(p, q, e, d, OS2IP(s));
    ExponentiationInverts(c, s, e, d);
    assert d * e == e * d;
    ExponentsInvert(p, q, d, e, OS2IP(s));
    ExponentiationInverts(c, s, d, e);
  }

  // ---- The cipher ----

  /** Every message that fits is encrypted, and its ciphertext decrypts to it. */
  lemma DecryptUndoesEncrypt(c: Cipher, message: Bytes, ros: Bytes)
    requires c.Valid() && c.key.Valid() && |ros| == c.hLen
    ensures c.Encrypt(message, ros).Ok? <==> |message| + 2 * c.hLen + 2 <= c.K() && c.hLen == SHA1_SIZE
    ensures c.Encrypt(message, ros).Ok? ==> c.Decrypted(c.Encrypt(message, ros).value) == Ok(message)
  {
    EncodeSucceedsExactly(c, message, ros);
    if c.Encode(message, ros).Ok? {
      DecodeUndoesEncode(c, message, ros);
      EncodedIsBelowModulus(c, message, ros);
      ExponentiationsInvert(c, c.Encode(message, ros).value);
    }
  }

  ghost predicate Encrypts(c: Cipher, message: Bytes, ros: Bytes, ciphertext: Bytes)
    requires c.Valid()
  {
    |ros| == c.hLen && c.Encrypt(message, ros) == Ok(ciphertext)
  }

  /** An accepted ciphertext is an encryption of the message it decrypts to exactly when it is
      below the modulus. */
  lemma AcceptedIsEncryptedExactly(c: Cipher, ciphertext: Bytes)
    requires c.Valid() && c.key.Valid() && c.Decrypted(ciphertext).Ok?
    ensures OS2IP(ciphertext) < c.key.n <==>
            exists ros :: Encrypts(c, c.Decrypted(ciphertext).value, ros, ciphertext)
  {
    var message := c.Decrypted(ciphertext).value;
    if OS2IP(ciphertext) < c.key.n {
      var em := c.Exponentiate(ciphertext, c.key.d);
      EncodeUndoesDecode(c, em);
      ExponentiationsInvert(c, ciphertext);
      assert Encrypts(c, message, c.Unmask(em).0, ciphertext);
    }
    forall ros | Encrypts(c, message, ros, ciphertext)
      ensures OS2IP(ciphertext) < c.key.n
    {
      ExponentiateReadsBack(c, c.Encode(message, ros).value, c.key.e);
    }
  }

  /** Decryption does not check the bound: a string of octets at or above the modulus decrypts
      like its residue, which is how a ciphertext outside the range of encryption is accepted. */
  lemma DecryptsLikeResidue(c: Cipher, ciphertext: Bytes)
    requires c.Valid() && |ciphertext| == c.K()
    ensures OS2IP(ciphertext) % c.key.n < Pow(256, c.K())
    ensures c.Decrypted(ciphertext) == c.Decrypted(I2OSP(OS2IP(ciphertext) % c.key.n, c.K()))
  {
    var x, n := OS2IP(ciphertext), c.key.n;
    OctetSizeBounds(n);
    IntegerOfOctets(x % n, c.K());
    ResidueIsCongruent(x, n);
    CongruentPow(x, x % n, c.key.d, n);
    var u, v := Pow(x, c.key.d), Pow(x % n, c.key.d);
    ResidueIsCongruent(u, n);
    ResidueIsCongruent(v, n);
    CongruentTransitive(u % n, u, v, n);
    CongruentTransitive(u % n, v, v % n, n);
    CongruentResiduesAreEqual(u % n, v % n, n);
  }

  lemma EncryptionIsBelowModulus(c: Cipher, message: Bytes, ros: Bytes, ciphertext: Bytes)
    requires c.Valid() && Encrypts(c, message, ros, ciphertext)
    ensures OS2IP(ciphertext) < c.key.n
  {
    ExponentiateReadsBack(c, c.Encode(message, ros).value, c.key.e);
  }

  lemma SameResidue(x: nat, n: nat)
    requires n > 0
    ensures (x + n) % n == x % n
  {
    ResidueIsCongruent(x + n, n);
    ResidueIsCongruent(x, n);
    assert Congruent(x + n, x, n) by {
      assert x + n - x == n && n % n == 0;
    }
    CongruentTransitive((x + n) % n, x + n, x, n);
    CongruentTransitive((x + n) % n, x, x % n, n);
    CongruentResiduesAreEqual((x + n) % n, x % n, n);
  }

  lemma SameResidueDecryptsAlike(c: Cipher, ciphertext: Bytes, other: Bytes)
    requires c.Valid() && |ciphertext| == |other| == c.K()
    requires OS2IP(ciphertext) % c.key.n == OS2IP(other) % c.key.n
    ensures c.Decrypted(ciphertext) == c.Decrypted(other)
  {
    hide Cipher.Decrypted;
    DecryptsLikeResidue(c, ciphertext);
    DecryptsLikeResidue(c, other);
  }

  /** Such ciphertexts exist beside every accepted one that leaves room for another modulus: the
      octets of the sum decrypt to the same message, and no encryption produces them. */
  lemma AcceptedBeyondModulus(c: Cipher, ciphertext: Bytes) returns (beyond: Bytes)
    requires c.Valid() && c.Decrypted(ciphertext).Ok?
    requires OS2IP(ciphertext) + c.key.n < Pow(256, c.K())
    ensures OS2IP(beyond) == OS2IP(ciphertext) + c.key.n
    ensures c.Decrypted(beyond) == c.Decrypted(ciphertext)
    ensures forall message, ros :: !Encrypts(c, message, ros, beyond)
  {
    assert |ciphertext| == c.K();
    hide *;
    beyond := I2OSP(OS2IP(ciphertext) + c.key.n, c.K());
    IntegerOfOctets(OS2IP(ciphertext) + c.key.n, c.K());
    SumDecryptsAlike(c, ciphertext, beyond);
    NoEncryptionBeyond(c, beyond);
  }

  lemma NoEncryptionBeyond(c: Cipher, beyond: Bytes)
    requires c.Valid() && OS2IP(beyond) >= c.key.n
    ensures forall message, ros :: !Encrypts(c, message, ros, beyond)
  {
    forall message, ros
      ensures !Encrypts(c, message, ros, beyond)
    {
      hide Encrypts;
      if Encrypts(c, message, ros, beyond) {
        EncryptionIsBelowModulus(c, message, ros, beyond);
      }
    }
  }

  /** Under a key that leaves room, every encryption has such a neighbour. */
  lemma EveryEncryptionHasNeighbour(c: Cipher, message: Bytes, ros: Bytes) returns (beyond: Bytes)
    requires c.Valid() && c.key.Valid() && |ros| == c.hLen && c.Encrypt(message, ros).Ok?
    requires 2 * c.key.n <= Pow(256, c.K())
    ensures OS2IP(beyond) >= c.key.n && c.Decrypted(beyond) == Ok(message)
    ensures forall m, seed :: !Encrypts(c, m, seed, beyond)
  {
    var ciphertext := c.Encrypt(message, ros).value;
    assert Encrypts(c, message, ros, ciphertext);
    hide *;
    DecryptUndoesEncrypt(c, message, ros);
    EncryptionIsBelowModulus(c, message, ros, ciphertext);
    beyond := AcceptedBeyondModulus(c, ciphertext);
  }

  lemma SumDecryptsAlike(c: Cipher, ciphertext: Bytes, beyond: Bytes)
    requires c.Valid() && |ciphertext| == |beyond| == c.K() && OS2IP(beyond) == OS2IP(ciphertext) + c.key.n
    ensures c.Decrypted(beyond) == c.Decrypted(ciphertext)
  {
    hide Cipher.Decrypted;
    SameResidue(OS2IP(ciphertext), c.key.n);
    SameResidueDecryptsAlike(c, ciphertext, beyond);
  }
}
