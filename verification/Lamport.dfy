/**
 Lamport one-time signatures: signing reveals one block of the private key per bit of
 the message digest, and verification hashes each revealed block.

 The hash is a parameter: any function to blocks. What the source gets from a random
 generator, the private key, is an input.
 */
module Lamport {
  import opened Options

  type Bytes = seq<bv8>

  datatype Pair = Pair(zero: Bytes, one: Bytes)

  const BITS := 256
  const BLOCK := 32

  ghost predicate IsHash(h: Bytes -> Bytes) {
    forall m :: |h(m)| == BLOCK
  }

  predicate IsBlock(b: Bytes) {
    |b| == BLOCK
  }

  /** A private or a public key. */
  predicate IsKey(k: seq<Pair>) {
    |k| == BITS && forall i :: 0 <= i < |k| ==> IsBlock(k[i].zero) && IsBlock(k[i].one)
  }

  function Select(p: Pair, bit: bool): Bytes {
    if bit then p.one else p.zero
  }

  // ---------------------------------------------------------------- digest bits

  /** The bits of a byte, the highest first. */
  function ByteBits(b: bv8): seq<bool> {
    [(b >> 7) & 1 == 1, (b >> 6) & 1 == 1, (b >> 5) & 1 == 1, (b >> 4) & 1 == 1,
     (b >> 3) & 1 == 1, (b >> 2) & 1 == 1, (b >> 1) & 1 == 1, b & 1 == 1]
  }

  function MessageBits(digest: Bytes): (r: seq<bool>)
    ensures |r| == 8 * |digest|
  {
    if digest == [] then [] else ByteBits(digest[0]) + MessageBits(digest[1..])
  }

  /** Digests with the same bits are the same. */
  lemma {:induction false} BitsDetermine(a: Bytes, b: Bytes)
    requires |a| == |b| && MessageBits(a) == MessageBits(b)
    ensures a == b
  {
    if a == [] {
    } else {
      var x, y := MessageBits(a), MessageBits(b);
      assert x[..8] == ByteBits(a[0]) && y[..8] == ByteBits(b[0]);
      assert x[8..] == MessageBits(a[1..]) && y[8..] == MessageBits(b[1..]);
      BitsDetermine(a[1..], b[1..]);
      assert a == [a[0]] + a[1..] && b == [b[0]] + b[1..];
    }
  }

  // ------------------------------------------------------------ sign and verify

  function PublicOf(h: Bytes -> Bytes, private: seq<Pair>): seq<Pair> {
    seq(|private|, i requires 0 <= i < |private| => Pair(h(private[i].zero), h(private[i].one)))
  }

  /** Reveals one block per bit of the digest. */
  function Sign(h: Bytes -> Bytes, private: seq<Pair>, message: Bytes): (r: seq<Bytes>)
    requires IsKey(private) && |h(message)| == BLOCK
    ensures |r| == BITS
    ensures forall i :: 0 <= i < BITS ==> r[i] == Select(private[i], MessageBits(h(message))[i])
  {
    var bits := MessageBits(h(message));
    seq(BITS, i requires 0 <= i < BITS => Select(private[i], bits[i]))
  }

  /** Every revealed block hashes to the public block its bit selects. */
  predicate Verifies(h: Bytes -> Bytes, public: seq<Pair>, message: Bytes, signature: seq<Bytes>)
    requires |h(message)| == BLOCK
  {
    && IsKey(public) && |signature| == BITS
    && (forall i :: 0 <= i < BITS ==> IsBlock(signature[i]))
    && forall i :: 0 <= i < BITS ==> h(signature[i]) == Select(public[i], MessageBits(h(message))[i])
  }

  /** Checks every block, without stopping at the first mismatch. */
  method Verify(h: Bytes -> Bytes, public: seq<Pair>, message: Bytes, signature: seq<Bytes>) returns (ok: bool)
    requires |h(message)| == BLOCK
    ensures ok == Verifies(h, public, message, signature)
  {
    if |signature| != BITS || !IsKey(public) || exists i :: 0 <= i < |signature| && !IsBlock(signature[i]) {
      return false;
    }
    var bits := MessageBits(h(message));
    ok := true;
    var i := 0;
    while i < BITS
      invariant i <= BITS
      invariant ok == forall j :: 0 <= j < i ==> h(signature[j]) == Select(public[j], bits[j])
    {
      var same := h(signature[i]) == Select(public[i], bits[i]);
      ok := ok && same;
      i := i + 1;
    }
  }

  /** What is signed verifies, for every message and key. */
  lemma SignedVerifies(h: Bytes -> Bytes, private: seq<Pair>, message: Bytes)
    requires IsHash(h) && IsKey(private)
    ensures Verifies(h, PublicOf(h, private), message, Sign(h, private, message))
  {
  }

  /** `s` gives away a block the signature of `message` kept secret. */
  ghost predicate RevealsSecret(h: Bytes -> Bytes, public: seq<Pair>, message: Bytes, s: seq<Bytes>, i: nat)
    requires |h(message)| == BLOCK && |public| == BITS && |s| == BITS
  {
    i < BITS && h(s[i]) == Select(public[i], !MessageBits(h(message))[i])
  }

  /** One key signs one digest: a signature that verifies for a message with another
      digest contains a preimage of a public block the first one did not reveal. */
  lemma ForgeryRevealsSecret(h: Bytes -> Bytes, public: seq<Pair>, message: Bytes, other: Bytes, s: seq<Bytes>)
    requires IsHash(h) && IsKey(public) && h(other) != h(message) && Verifies(h, public, other, s)
    ensures exists i: nat :: RevealsSecret(h, public, message, s, i)
  {
    var x, y := MessageBits(h(message)), MessageBits(h(other));
    if x == y {
      BitsDetermine(h(message), h(other));
    }
    var k :| 0 <= k < |x| && x[k] != y[k];
    assert RevealsSecret(h, public, message, s, k);
  }

  // ------------------------------------------------------------------- encoding

  /** What a decoded JSON document holds where a key or a signature should be. */
  datatype Json = Text(text: string) | List(items: seq<Json>) | OtherJson

  function HexDigit(d: bv8): char {
    if d == 0 then '0' else if d == 1 then '1' else if d == 2 then '2' else if d == 3 then '3'
    else if d == 4 then '4' else if d == 5 then '5' else if d == 6 then '6' else if d == 7 then '7'
    else if d == 8 then '8' else if d == 9 then '9' else if d == 10 then 'a' else if d == 11 then 'b'
    else if d == 12 then 'c' else if d == 13 then 'd' else if d == 14 then 'e' else 'f'
  }

  function DigitOf(c: char): Option<bv8> {
    match c
    case '0' => Some(0) case '1' => Some(1) case '2' => Some(2) case '3' => Some(3)
    case '4' => Some(4) case '5' => Some(5) case '6' => Some(6) case '7' => Some(7)
    case '8' => Some(8) case '9' => Some(9) case 'a' => Some(10) case 'b' => Some(11)
    case 'c' => Some(12) case 'd' => Some(13) case 'e' => Some(14) case 'f' => Some(15)
    case _ => None
  }

  function Hex(b: Bytes): (r: string)
    ensures |r| == 2 * |b|
  {
    if b == [] then "" else [HexDigit(b[0] >> 4), HexDigit(b[0] & 15)] + Hex(b[1..])
  }

  /** Lower-case digits in pairs, or `None`. */
  function FromHex(s: string): Option<Bytes> {
    if s == "" then Some([])
    else if |s| == 1 then None
    else
      var high, low, rest := DigitOf(s[0]), DigitOf(s[1]), FromHex(s[2..]);
      if high.None? || low.None? || rest.None? then None
      else Some([(high.value << 4) | low.value] + rest.value)
  }

  lemma DigitRoundTrip(b: bv8)
    ensures DigitOf(HexDigit(b >> 4)) == Some(b >> 4) && DigitOf(HexDigit(b & 15)) == Some(b & 15)
    ensures ((b >> 4) << 4) | (b & 15) == b
  {
  }

  lemma {:induction false} HexRoundTrip(b: Bytes)
    ensures FromHex(Hex(b)) == Some(b)
  {
    if b == [] {
    } else {
      DigitRoundTrip(b[0]);
      HexRoundTrip(b[1..]);
      assert Hex(b)[2..] == Hex(b[1..]);
      assert b == [b[0]] + b[1..];
    }
  }

  lemma BlockRoundTrip(b: Bytes)
    requires IsBlock(b)
    ensures DecodeBlock(Text(Hex(b))) == Some(b)
  {
    HexRoundTrip(b);
  }

  lemma PairRoundTrip(c: char, d: char)
    ensures DigitOf(c).Some? && DigitOf(d).Some? ==>
      var b := (DigitOf(c).value << 4) | DigitOf(d).value;
      HexDigit(b >> 4) == c && HexDigit(b & 15) == d
  {
  }

  /** Text that decodes is the one canonical text of what it decodes to. */
  lemma {:induction false} HexCanonical(s: string)
    ensures FromHex(s).Some? ==> Hex(FromHex(s).value) == s
  {
    if |s| >= 2 && FromHex(s).Some? {
      PairRoundTrip(s[0], s[1]);
      HexCanonical(s[2..]);
      assert s == [s[0], s[1]] + s[2..];
      var b := FromHex(s).value;
      assert b[1..] == FromHex(s[2..]).value;
    }
  }

  function DecodeBlock(j: Json): (r: Option<Bytes>)
    ensures r.Some? ==> IsBlock(r.value)
  {
    if j.Text? && |j.text| == 2 * BLOCK then
      var b := FromHex(j.text);
      if b.Some? && |b.value| == BLOCK then b else None
    else None
  }

  function EncodeBlocks(blocks: seq<Bytes>): (r: seq<Json>)
    ensures |r| == |blocks|
  {
    if blocks == [] then [] else EncodeBlocks(blocks[..|blocks| - 1]) + [Text(Hex(blocks[|blocks| - 1]))]
  }

  function DecodeBlockList(js: seq<Json>): (r: Option<seq<Bytes>>)
    ensures r.Some? ==> |r.value| == |js| && forall i :: 0 <= i < |js| ==> IsBlock(r.value[i])
  {
    if js == [] then Some([])
    else
      var front, b := DecodeBlockList(js[..|js| - 1]), DecodeBlock(js[|js| - 1]);
      if front.Some? && b.Some? then Some(front.value + [b.value]) else None
  }

  function DecodeBlocks(j: Json): Option<seq<Bytes>> {
    if j.List? && |j.items| == BITS then DecodeBlockList(j.items) else None
  }

  function EncodePairs(k: seq<Pair>): (r: seq<Json>)
    ensures |r| == |k|
  {
    if k == [] then [] else EncodePairs(k[..|k| - 1]) + [List([Text(Hex(k[|k| - 1].zero)), Text(Hex(k[|k| - 1].one))])]
  }

  function DecodePair(j: Json): Option<Pair> {
    if j.List? && |j.items| == 2 then
      var a, b := DecodeBlock(j.items[0]), DecodeBlock(j.items[1]);
      if a.Some? && b.Some? then Some(Pair(a.value, b.value)) else None
    else None
  }

  function DecodePairList(js: seq<Json>): (r: Option<seq<Pair>>)
    ensures r.Some? ==>
      |r.value| == |js| && forall i :: 0 <= i < |js| ==> IsBlock(r.value[i].zero) && IsBlock(r.value[i].one)
  {
    if js == [] then Some([])
    else
      var front, p := DecodePairList(js[..|js| - 1]), DecodePair(js[|js| - 1]);
      if front.Some? && p.Some? then Some(front.value + [p.value]) else None
  }

  function DecodePairs(j: Json): Option<seq<Pair>> {
    if j.List? && |j.items| == BITS then DecodePairList(j.items) else None
  }

  lemma {:induction false} BlocksRoundTrip(blocks: seq<Bytes>)
    requires forall i :: 0 <= i < |blocks| ==> IsBlock(blocks[i])
    ensures DecodeBlockList(EncodeBlocks(blocks)) == Some(blocks)
  {
    if blocks == [] {
    } else {
      var front, last := blocks[..|blocks| - 1], blocks[|blocks| - 1];
      BlocksRoundTrip(front);
      BlockRoundTrip(last);
      assert EncodeBlocks(blocks)[..|blocks| - 1] == EncodeBlocks(front);
      assert blocks == front + [last];
    }
  }

  lemma PairRoundTrips(p: Pair)
    requires IsBlock(p.zero) && IsBlock(p.one)
    ensures DecodePair(List([Text(Hex(p.zero)), Text(Hex(p.one))])) == Some(p)
  {
    BlockRoundTrip(p.zero);
    BlockRoundTrip(p.one);
  }

  lemma {:induction false} PairsRoundTrip(k: seq<Pair>)
    requires forall i :: 0 <= i < |k| ==> IsBlock(k[i].zero) && IsBlock(k[i].one)
    ensures DecodePairList(EncodePairs(k)) == Some(k)
  {
    if k == [] {
    } else {
      var front, last := k[..|k| - 1], k[|k| - 1];
      PairsRoundTrip(front);
      PairRoundTrips(last);
      assert EncodePairs(k)[..|k| - 1] == EncodePairs(front);
      assert k == front + [last];
    }
  }

  /** Decoding an encoded key, and an encoded signature, gives them back. */
  lemma DecodeEncode(k: seq<Pair>, blocks: seq<Bytes>)
    requires IsKey(k) && |blocks| == BITS && forall i :: 0 <= i < BITS ==> IsBlock(blocks[i])
    ensures DecodePairs(List(EncodePairs(k))) == Some(k) && DecodeBlocks(List(EncodeBlocks(blocks))) == Some(blocks)
  {
    PairsRoundTrip(k);
    BlocksRoundTrip(blocks);
  }

  lemma {:induction false} PairListCanonical(js: seq<Json>)
    ensures DecodePairList(js).Some? ==> EncodePairs(DecodePairList(js).value) == js
  {
    if js != [] && DecodePairList(js).Some? {
      var front, last := js[..|js| - 1], js[|js| - 1];
      PairListCanonical(front);
      HexCanonical(last.items[0].text);
      HexCanonical(last.items[1].text);
      var k := DecodePairList(js).value;
      assert k[..|k| - 1] == DecodePairList(front).value;
      assert last.items == [last.items[0], last.items[1]];
      assert js == front + [last];
    }
  }

  /** A key has one encoding: whatever decodes to it is that encoding. */
  lemma EncodingUnique(j: Json)
    ensures DecodePairs(j).Some? ==> j == List(EncodePairs(DecodePairs(j).value))
  {
    if DecodePairs(j).Some? {
      PairListCanonical(j.items);
    }
  }

  // ------------------------------------------------------------------ fingerprints

  function Flat(k: seq<Pair>): Bytes {
    if k == [] then [] else k[0].zero + (k[0].one + Flat(k[1..]))
  }

  function Fingerprint(h: Bytes -> Bytes, k: seq<Pair>): string {
    "sha256:" + Hex(h(Flat(k)))
  }

  predicate IsFingerprint(s: string) {
    |s| == 7 + 2 * BLOCK && s[..7] == "sha256:" && FromHex(s[7..]).Some?
  }

  lemma FingerprintShape(h: Bytes -> Bytes, k: seq<Pair>)
    requires IsHash(h)
    ensures IsFingerprint(Fingerprint(h, k)) && FromHex(Fingerprint(h, k)[7..]) == Some(h(Flat(k)))
  {
    HexRoundTrip(h(Flat(k)));
    assert Fingerprint(h, k)[7..] == Hex(h(Flat(k)));
  }

  lemma TakeDrop(a: Bytes, x: Bytes, b: Bytes, y: Bytes)
    requires a + x == b + y && |a| == |b|
    ensures a == b && x == y
  {
    assert a == (a + x)[..|a|] && b == (b + y)[..|b|];
    assert x == (a + x)[|a|..] && y == (b + y)[|b|..];
  }

  /** The bytes a fingerprint is taken over determine the key. */
  lemma {:induction false} FlatDetermines(a: seq<Pair>, b: seq<Pair>)
    requires |a| == |b| && Flat(a) == Flat(b)
    requires forall i :: 0 <= i < |a| ==>
      IsBlock(a[i].zero) && IsBlock(a[i].one) && IsBlock(b[i].zero) && IsBlock(b[i].one)
    ensures a == b
  {
    if a == [] {
    } else {
      TakeDrop(a[0].zero, a[0].one + Flat(a[1..]), b[0].zero, b[0].one + Flat(b[1..]));
      TakeDrop(a[0].one, Flat(a[1..]), b[0].one, Flat(b[1..]));
      FlatDetermines(a[1..], b[1..]);
      assert a == [a[0]] + a[1..] && b == [b[0]] + b[1..];
    }
  }

  predicate Collide(h: Bytes -> Bytes, x: Bytes, y: Bytes) {
    x != y && h(x) == h(y)
  }

  /** Two keys with one fingerprint are one key, or a collision of the hash. */
  lemma FingerprintBinds(h: Bytes -> Bytes, a: seq<Pair>, b: seq<Pair>)
    requires IsHash(h) && IsKey(a) && IsKey(b) && Fingerprint(h, a) == Fingerprint(h, b)
    ensures a == b || Collide(h, Flat(a), Flat(b))
  {
    FingerprintShape(h, a);
    FingerprintShape(h, b);
    if Flat(a) == Flat(b) {
      FlatDetermines(a, b);
    }
  }

  // --------------------------------------------------------------------- envelopes

  const ALGORITHM := "lamport-sha256/1"

  datatype Signature = Signature(keyId: string, algorithm: string, fingerprint: string, publicKey: Json, value: Json)

  /** A signed object apart from its signature, and what stands in the signature's place. */
  datatype Envelope<B> = Unsigned(body: B) | Signed(body: B, signature: Signature)

  predicate Shape(s: Signature) {
    s.keyId != "" && s.algorithm == ALGORITHM && IsFingerprint(s.fingerprint)
  }

  datatype Verdict =
    | BadExpectation | MalformedSignature | FingerprintMismatch | MalformedBody
    | NotCovered(fingerprint: string) | Unregistered(fingerprint: string) | Authentic(fingerprint: string)

  /** Integrity and authenticity, for fingerprints obtained elsewhere; `canonical` is the
      bytes of a body's canonical text, if it has one. */
  function VerifyEnvelopeWith<B>(
      h: Bytes -> Bytes, canonical: B -> Option<Bytes>, e: Envelope<B>, expected: set<string>): Verdict
    requires IsHash(h)
  {
    if expected == {} || exists f :: f in expected && !IsFingerprint(f) then BadExpectation
    else if e.Unsigned? || !Shape(e.signature) then MalformedSignature
    else
      var public, blocks := DecodePairs(e.signature.publicKey), DecodeBlocks(e.signature.value);
      if public.None? || blocks.None? then MalformedSignature
      else
        var actual, message := Fingerprint(h, public.value), canonical(e.body);
        if e.signature.fingerprint != actual then FingerprintMismatch
        else if message.None? then MalformedBody
        else if !Verifies(h, public.value, message.value, blocks.value) then NotCovered(actual)
        else if actual !in expected then Unregistered(actual)
        else Authentic(actual)
  }

  /** Integrity only: the attached key is taken at its word. */
  predicate VerifyObject<B>(h: Bytes -> Bytes, canonical: B -> Option<Bytes>, e: Envelope<B>)
    requires IsHash(h)
  {
    && e.Signed? && Shape(e.signature)
    && var public, blocks := DecodePairs(e.signature.publicKey), DecodeBlocks(e.signature.value);
    && public.Some? && blocks.Some? && canonical(e.body).Some?
    && Verifies(h, public.value, canonical(e.body).value, blocks.value)
  }

  function SignBody(h: Bytes -> Bytes, keyId: string, message: Bytes, private: seq<Pair>): Signature
    requires IsHash(h) && IsKey(private)
  {
    var public := PublicOf(h, private);
    Signature(keyId, ALGORITHM, Fingerprint(h, public), List(EncodePairs(public)),
      List(EncodeBlocks(Sign(h, private, message))))
  }

  /** A signed object passes the integrity check, and passes for authentic with exactly
      those verifiers that expect its fingerprint. */
  lemma SignedIsAuthentic<B>(
      h: Bytes -> Bytes, canonical: B -> Option<Bytes>, body: B, keyId: string, private: seq<Pair>,
      expected: set<string>)
    requires IsHash(h) && IsKey(private) && keyId != "" && canonical(body).Some?
    requires expected != {} && forall f :: f in expected ==> IsFingerprint(f)
    ensures var e := Signed(body, SignBody(h, keyId, canonical(body).value, private));
      var f := Fingerprint(h, PublicOf(h, private));
      && VerifyObject(h, canonical, e)
      && VerifyEnvelopeWith(h, canonical, e, expected) == if f in expected then Authentic(f) else Unregistered(f)
  {
    var message, public := canonical(body).value, PublicOf(h, private);
    SignedVerifies(h, private, message);
    DecodeEncode(public, Sign(h, private, message));
    FingerprintShape(h, public);
  }

  /** A key used once, and the one message signed with it. */
  datatype Statement = Statement(public: seq<Pair>, message: Bytes)

  /** The ways an envelope can pass for one of the statements without stating it. */
  ghost predicate Breaks(h: Bytes -> Bytes, s: Statement, public: seq<Pair>, message: Bytes, blocks: seq<Bytes>)
    requires IsHash(h) && IsKey(s.public) && |blocks| == BITS
  {
    || Collide(h, Flat(s.public), Flat(public))
    || Collide(h, s.message, message)
    || exists i: nat :: RevealsSecret(h, s.public, s.message, blocks, i)
  }

  /** An envelope a stranger accepts carries one of the statements signed under the
      expected fingerprints, word for word, or else its author has found a collision of
      the hash or a preimage the signatures kept secret. */
  lemma AuthenticIsStated<B>(
      h: Bytes -> Bytes, canonical: B -> Option<Bytes>, e: Envelope<B>, expected: set<string>, signed: set<Statement>)
    requires IsHash(h)
    requires forall s :: s in signed ==> IsKey(s.public)
    requires forall f :: f in expected ==> exists s :: s in signed && Fingerprint(h, s.public) == f
    requires VerifyEnvelopeWith(h, canonical, e, expected).Authentic?
    ensures var public, blocks := DecodePairs(e.signature.publicKey).value, DecodeBlocks(e.signature.value).value;
      var message := canonical(e.body).value;
      exists s :: s in signed && Fingerprint(h, s.public) == e.signature.fingerprint
        && (message == s.message || Breaks(h, s, public, message, blocks))
  {
    var public, blocks := DecodePairs(e.signature.publicKey).value, DecodeBlocks(e.signature.value).value;
    var message := canonical(e.body).value;
    var s :| s in signed && Fingerprint(h, s.public) == Fingerprint(h, public);
    StatedOrBroken(h, s, public, message, blocks);
  }

  lemma StatedOrBroken(h: Bytes -> Bytes, s: Statement, public: seq<Pair>, message: Bytes, blocks: seq<Bytes>)
    requires IsHash(h) && IsKey(s.public) && IsKey(public) && Fingerprint(h, s.public) == Fingerprint(h, public)
    requires Verifies(h, public, message, blocks)
    ensures message == s.message || Breaks(h, s, public, message, blocks)
  {
    FingerprintBinds(h, s.public, public);
    if public == s.public && message != s.message && h(message) != h(s.message) {
      ForgeryRevealsSecret(h, s.public, s.message, message, blocks);
    }
  }

  // -------------------------------------------------------------------- the signer

  class Signer<B(!new)> {
    const h: Bytes -> Bytes
    const canonical: B -> Option<Bytes>
    const keyId: string
    var issued: seq<string>
    var registered: set<string>

    ghost predicate Valid()
      reads this
    {
      && IsHash(h) && keyId != ""
      && (forall f :: f in issued ==> f in registered)
      && forall f :: f in registered ==> IsFingerprint(f)
    }

    /** Key identifiers are non-empty, and fingerprints canonical. */
    constructor (h: Bytes -> Bytes, canonical: B -> Option<Bytes>, keyId: string, registered: set<string>)
      requires IsHash(h) && keyId != "" && forall f :: f in registered ==> IsFingerprint(f)
      ensures Valid() && this.h == h && this.canonical == canonical && this.keyId == keyId
      ensures issued == [] && this.registered == registered
    {
      this.h, this.canonical, this.keyId := h, canonical, keyId;
      issued, this.registered := [], registered;
    }

    method Register(f: string) returns (ok: bool)
      requires Valid()
      modifies this`registered
      ensures Valid() && ok == IsFingerprint(f)
      ensures registered == old(registered) + if ok then {f} else {}
    {
      ok := IsFingerprint(f);
      if ok {
        registered := registered + {f};
      }
    }

    /** Signs a body with a key that is used for nothing else, and vouches for that key. */
    method SignObject(body: B, private: seq<Pair>) returns (s: Option<Signature>)
      requires Valid() && IsKey(private)
      modifies this
      ensures Valid() && (s.Some? <==> canonical(body).Some?)
      ensures s.None? ==> issued == old(issued) && registered == old(registered)
      ensures s.Some? ==>
        var f := s.value.fingerprint;
        && f == Fingerprint(h, PublicOf(h, private))
        && issued == old(issued) + [f] && registered == old(registered) + {f}
        && VerifyObject(h, canonical, Signed(body, s.value))
        && VerifyEnvelopeWith(h, canonical, Signed(body, s.value), registered) == Authentic(f)
    {
      var message := canonical(body);
      if message.None? {
        return None;
      }
      var f := Fingerprint(h, PublicOf(h, private));
      FingerprintShape(h, PublicOf(h, private));
      issued := issued + [f];
      registered := registered + {f};
      SignedIsAuthentic(h, canonical, body, keyId, private, registered);
      return Some(SignBody(h, keyId, message.value, private));
    }
  }
}
