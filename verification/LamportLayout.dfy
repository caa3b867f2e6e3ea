/**
 Which byte goes where: digest bits, revealed blocks, encoded keys and fingerprints,
 each said of positions alone.
 */
module LamportLayout {
  import opened Options
  import opened Lamport

  /** Bit `i` of a digest: bytes in order, in each byte the highest bit first. */
  function Bit(digest: Bytes, i: nat): bv8
    requires i < 8 * |digest|
  {
    (digest[i / 8] >> (7 - i % 8)) & 1
  }

  lemma {:induction false} MessageBitsAre(digest: Bytes, i: nat)
    requires i < 8 * |digest|
    ensures MessageBits(digest)[i] <==> Bit(digest, i) == 1
  {
    if i < 8 {
      assert i in {0, 1, 2, 3, 4, 5, 6, 7};
    } else {
      MessageBitsAre(digest[1..], i - 8);
      assert digest[1..][(i - 8) / 8] == digest[i / 8];
    }
  }

  /** Block `i` of a signature is the first block of private pair `i` where the digest has a
      zero bit and the second where it has a one, and public blocks are hashes of the
      private blocks in the same place. */
  lemma RevealedBlock(h: Bytes -> Bytes, private: seq<Pair>, message: Bytes, i: nat)
    requires IsHash(h) && IsKey(private) && i < 256
    ensures var s, public := Sign(h, private, message), PublicOf(h, private);
      && |s| == |public| == 256
      && (Bit(h(message), i) == 0 ==> s[i] == private[i].zero)
      && (Bit(h(message), i) == 1 ==> s[i] == private[i].one)
      && public[i].zero == h(private[i].zero) && public[i].one == h(private[i].one)
  {
    MessageBitsAre(h(message), i);
  }

  /** The public block a digest bit stands for is the hash of the signature's block. */
  ghost predicate Matches(h: Bytes -> Bytes, p: Pair, bit: bv8, block: Bytes) {
    |block| == 32 && |p.zero| == 32 && |p.one| == 32 && h(block) == if bit == 0 then p.zero else p.one
  }

  /** A signature verifies exactly when it and the key have 256 blocks and pairs of 32
      bytes, and every block hashes to the public block its digest bit stands for. */
  lemma VerifiesIff(h: Bytes -> Bytes, public: seq<Pair>, message: Bytes, s: seq<Bytes>)
    requires IsHash(h)
    ensures Verifies(h, public, message, s) <==>
      |public| == 256 && |s| == 256
      && forall i :: 0 <= i < 256 ==> Matches(h, public[i], Bit(h(message), i), s[i])
  {
    forall i | 0 <= i < 256
      ensures MessageBits(h(message))[i] <==> Bit(h(message), i) == 1
    {
      MessageBitsAre(h(message), i);
    }
    if |public| == 256 && |s| == 256 && forall i :: 0 <= i < 256 ==> Matches(h, public[i], Bit(h(message), i), s[i]) {
      forall i | 0 <= i < 256
        ensures IsBlock(public[i].zero) && IsBlock(public[i].one) && IsBlock(s[i])
        ensures h(s[i]) == Select(public[i], MessageBits(h(message))[i])
      {
        assert Matches(h, public[i], Bit(h(message), i), s[i]);
      }
    }
  }

  // ---------------------------------------------------------------- hexadecimal text

  const DIGITS := "0123456789abcdef"

  lemma DigitsOfByte(b: bv8)
    ensures HexDigit(b >> 4) == DIGITS[b as nat / 16] && HexDigit(b & 15) == DIGITS[b as nat % 16]
  {
    assert (b >> 4) as nat == b as nat / 16;
    assert (b & 15) as nat == b as nat % 16;
    assert b >> 4 <= 15 && b & 15 <= 15;
    DigitAt(b >> 4);
    DigitAt(b & 15);
  }

  lemma DigitAt(d: bv8)
    requires d <= 15
    ensures HexDigit(d) == DIGITS[d as nat]
  {
  }

  /** Two lower-case digits for each byte, the high one first. */
  lemma {:induction false} HexAt(b: Bytes, i: nat)
    requires i < |b|
    ensures |Hex(b)| == 2 * |b|
    ensures Hex(b)[2 * i] == DIGITS[b[i] as nat / 16] && Hex(b)[2 * i + 1] == DIGITS[b[i] as nat % 16]
  {
    DigitsOfByte(b[0]);
    if i > 0 {
      HexAt(b[1..], i - 1);
    }
  }

  /** Text decodes exactly when it has an even number of lower-case digits. */
  lemma {:induction false} DecodesIff(s: string)
    ensures FromHex(s).Some? <==> |s| % 2 == 0 && forall i :: 0 <= i < |s| ==> LowerDigit(s[i])
    ensures FromHex(s).Some? ==> 2 * |FromHex(s).value| == |s|
  {
    if |s| >= 2 {
      DecodesIff(s[2..]);
      assert s == [s[0], s[1]] + s[2..];
      assert forall i :: 2 <= i < |s| ==> s[i] == s[2..][i - 2];
      assert forall i :: 0 <= i < |s| - 2 ==> s[2..][i] == s[i + 2];
    } else if |s| == 1 {
      assert FromHex(s).None?;
    }
  }

  ghost predicate LowerDigit(c: char) {
    '0' <= c <= '9' || 'a' <= c <= 'f'
  }

  // ----------------------------------------------------------- keys and fingerprints

  /** Item `i` of an encoded key lists the two texts of pair `i`, item `i` of an encoded
      signature is the text of block `i`. */
  lemma {:induction false} EncodedAt(k: seq<Pair>, blocks: seq<Bytes>, i: nat)
    ensures i < |k| ==>
      |EncodePairs(k)| == |k| && EncodePairs(k)[i] == List([Text(Hex(k[i].zero)), Text(Hex(k[i].one))])
    ensures i < |blocks| ==> |EncodeBlocks(blocks)| == |blocks| && EncodeBlocks(blocks)[i] == Text(Hex(blocks[i]))
    decreases |k| + |blocks|
  {
    if i < |k| - 1 {
      EncodedAt(k[..|k| - 1], [], i);
    }
    if i < |blocks| - 1 {
      EncodedAt([], blocks[..|blocks| - 1], i);
    }
  }

  /** A key is fingerprinted over 64 bytes a pair, in order: the first block, then the second. */
  lemma {:induction false} FlatAt(k: seq<Pair>, i: nat, j: nat)
    requires (forall p :: p in k ==> |p.zero| == 32 && |p.one| == 32) && i < |k| && j < 32
    ensures |Flat(k)| == 64 * |k|
    ensures Flat(k)[64 * i + j] == k[i].zero[j] && Flat(k)[64 * i + 32 + j] == k[i].one[j]
  {
    var rest := k[0].one + Flat(k[1..]);
    assert k == [k[0]] + k[1..];
    if i > 0 {
      FlatAt(k[1..], i - 1, j);
      assert Flat(k)[64 * i + j] == rest[64 * i + j - 32] == Flat(k[1..])[64 * (i - 1) + j];
      assert Flat(k)[64 * i + 32 + j] == rest[64 * i + j] == Flat(k[1..])[64 * (i - 1) + 32 + j];
    } else {
      if |k| > 1 {
        FlatAt(k[1..], 0, j);
      }
      assert Flat(k)[32 + j] == rest[j];
    }
  }

  /** A fingerprint is the prefix and the 64 digits of the hash of those bytes; canonical
      fingerprints are the texts of that form. */
  lemma FingerprintIs(h: Bytes -> Bytes, k: seq<Pair>, f: string)
    requires IsHash(h)
    ensures |Fingerprint(h, k)| == 71 && Fingerprint(h, k)[..7] == "sha256:"
    ensures forall i :: 0 <= i < 32 ==> Spelt(Fingerprint(h, k), h(Flat(k)), i)
    ensures IsFingerprint(f) <==> |f| == 71 && f[..7] == "sha256:" && forall i :: 7 <= i < 71 ==> LowerDigit(f[i])
  {
    forall i | 0 <= i < 32
      ensures Spelt(Fingerprint(h, k), h(Flat(k)), i)
    {
      HexAt(h(Flat(k)), i);
    }
    if |f| == 71 {
      DecodesIff(f[7..]);
      assert forall i :: 7 <= i < 71 ==> f[i] == f[7..][i - 7];
      assert forall i :: 0 <= i < 64 ==> f[7..][i] == f[i + 7];
    }
  }

  ghost predicate Spelt(f: string, b: Bytes, i: nat)
    requires |f| == 7 + 2 * |b| && i < |b|
  {
    f[7 + 2 * i] == DIGITS[b[i] as nat / 16] && f[8 + 2 * i] == DIGITS[b[i] as nat % 16]
  }

  // ----------------------------------------------------------------------- envelopes

  /** The signature block is complete, decodes, and covers the body. */
  ghost predicate Covers<B>(
      h: Bytes -> Bytes, canonical: B -> Option<Bytes>, e: Envelope<B>, public: seq<Pair>, blocks: seq<Bytes>)
    requires IsHash(h)
  {
    && e.Signed? && e.signature.keyId != "" && e.signature.algorithm == "lamport-sha256/1"
    && IsFingerprint(e.signature.fingerprint)
    && DecodePairs(e.signature.publicKey) == Some(public) && DecodeBlocks(e.signature.value) == Some(blocks)
    && canonical(e.body).Some? && |public| == 256 && |blocks| == 256
    && forall i :: 0 <= i < 256 ==> Matches(h, public[i], Bit(h(canonical(e.body).value), i), blocks[i])
  }

  /** An envelope is intact exactly when its signature covers its body under the key it
      carries. A stranger accepts it exactly when moreover the key has the fingerprint
      declared for it, and that is among canonical fingerprints the stranger brings. */
  lemma AuthenticIff<B>(
      h: Bytes -> Bytes, canonical: B -> Option<Bytes>, e: Envelope<B>, expected: set<string>, f: string)
    requires IsHash(h)
    ensures VerifyObject(h, canonical, e) <==> exists public, blocks :: Covers(h, canonical, e, public, blocks)
    ensures VerifyEnvelopeWith(h, canonical, e, expected) == Authentic(f) <==>
      && (forall x :: x in expected ==> IsFingerprint(x)) && f in expected
      && exists public, blocks :: Covers(h, canonical, e, public, blocks)
           && e.signature.fingerprint == f && Fingerprint(h, public) == f
  {
    if e.Signed? && DecodePairs(e.signature.publicKey).Some? && DecodeBlocks(e.signature.value).Some?
       && canonical(e.body).Some? {
      var public, blocks := DecodePairs(e.signature.publicKey).value, DecodeBlocks(e.signature.value).value;
      VerifiesIff(h, public, canonical(e.body).value, blocks);
      assert VerifyObject(h, canonical, e) <==> Covers(h, canonical, e, public, blocks);
    }
  }
}
