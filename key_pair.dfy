/**
 * The part of `KeyPair` the key store relies on: a key pair is written as
 * `<curve>:<encoded key>` by `toString` and read back by `fromString`.
 * Key generation, signing and the encodings themselves are not modelled;
 * a key pair here is just its curve name and its encoded secret key.
 */
module KeyPairs {
  import opened Strings

  /** A curve name; it never holds the separator. */
  type Curve = s: string | ':' !in s

  /** The curve a string without a curve prefix is read with. */
  const DEFAULT_CURVE: Curve := "ed25519"

  datatype KeyPair = KeyPair(curve: Curve, secretKey: string)

  /** `keyPair.toString()`: the curve, a colon, the encoded key. */
  function KeyPairToString(kp: KeyPair): (s: string)
    ensures ':' in s && s != []
    ensures IndexOf(s, ':') == |kp.curve|
  {
    var s := kp.curve + ":" + kp.secretKey;
    IndexOfAt(s, ':', |kp.curve|);
    s
  }

  /** `KeyPair.fromString(s)`: split at the first colon; no colon means the default curve. */
  function KeyPairFromString(s: string): (kp: KeyPair)
  {
    if ':' in s then
      var i := IndexOf(s, ':');
      KeyPair(s[..i], s[i + 1..])
    else KeyPair(DEFAULT_CURVE, s)
  }

  /** Reading back what was written gives the same key pair. */
  lemma {:induction false} KeyPairRoundTrip(kp: KeyPair)
    ensures KeyPairFromString(KeyPairToString(kp)) == kp
  {
    var s := KeyPairToString(kp);
    assert s[..|kp.curve|] == kp.curve;
    assert s[|kp.curve| + 1..] == kp.secretKey;
  }

  /** Writing back what was read from a string with a curve prefix gives the same string. */
  lemma {:induction false} KeyPairStringRoundTrip(s: string)
    requires ':' in s
    ensures KeyPairToString(KeyPairFromString(s)) == s
  {
    var i := IndexOf(s, ':');
    assert s == s[..i] + ":" + s[i + 1..];
  }
}
