/**
 Signatures over canonical JSON: what a stranger learns about the value itself from an
 envelope that verifies. The text encoding is a parameter that loses nothing.
 */
module SignedJson {
  import opened Options
  import C = CanonicalJson
  import opened Lamport

  ghost predicate Lossless(utf8: string -> Bytes) {
    forall s, t :: utf8(s) == utf8(t) ==> s == t
  }

  /** The bytes that are signed for a value, if it has a canonical text. */
  function Message(utf8: string -> Bytes, v: C.Json): Option<Bytes> {
    if !C.WellTyped(v) then None
    else match C.CanonicalJson(v)
      case Canonical(text) => Some(utf8(text))
      case NotCanonical => None
  }

  /** Values have the same message exactly when they are the same value. */
  lemma MessageIffSame(utf8: string -> Bytes, v: C.Json, w: C.Json)
    requires Lossless(utf8) && Message(utf8, v).Some? && Message(utf8, w).Some?
    ensures Message(utf8, v) == Message(utf8, w) <==> C.Same(v, w)
  {
    C.CanonicalIffSame(v, w);
  }

  datatype SignedValue = SignedValue(public: seq<Pair>, value: C.Json)

  ghost predicate Signs(h: Bytes -> Bytes, utf8: string -> Bytes, s: SignedValue, fingerprint: string) {
    IsKey(s.public) && Message(utf8, s.value).Some? && Fingerprint(h, s.public) == fingerprint
  }

  /** An envelope a stranger accepts carries the very value signed under the expected
      fingerprint, or breaks the hash. */
  lemma AcceptedIsSignedValue(
      h: Bytes -> Bytes, utf8: string -> Bytes, e: Envelope<C.Json>, expected: set<string>, s: SignedValue)
    requires IsHash(h) && Lossless(utf8)
    requires VerifyEnvelopeWith(h, v => Message(utf8, v), e, expected).Authentic?
    requires Signs(h, utf8, s, e.signature.fingerprint)
    ensures var public, blocks := DecodePairs(e.signature.publicKey).value, DecodeBlocks(e.signature.value).value;
      || C.Same(e.body, s.value)
      || Breaks(h, Statement(s.public, Message(utf8, s.value).value), public, Message(utf8, e.body).value, blocks)
  {
    var public, blocks := DecodePairs(e.signature.publicKey).value, DecodeBlocks(e.signature.value).value;
    StatedOrBroken(h, Statement(s.public, Message(utf8, s.value).value), public, Message(utf8, e.body).value, blocks);
    MessageIffSame(utf8, e.body, s.value);
  }
}
