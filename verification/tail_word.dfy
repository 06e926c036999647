/**
 * The engine's tail is one signed machine word that packs two things: whether
 * a drain currently holds the buffer (the sign) and the tail position (the
 * magnitude).  Two encodings are modelled:
 *   - SignOnly, as src/lib.rs does it: locking negates the word, so
 *     locked-at-p is `-p` and the position is `|raw|`;
 *   - SignOffset: locked-at-p is `-p - 1`, a bijection between words and
 *     (locked, position) pairs.
 * Under SignOnly the locked and unlocked words for position 0 coincide.
 */
module TailWord {

  datatype Encoding = SignOnly | SignOffset

  /** The decoded tail: the drain lock and the position of the oldest element. */
  datatype TailState = TailState(locked: bool, pos: nat)

  function Decode(e: Encoding, raw: int): (t: TailState)
    ensures t.locked <==> raw < 0
    ensures !t.locked ==> t.pos == raw
    ensures t.locked ==> t.pos == -raw - (if e == SignOffset then 1 else 0)
  {
    if raw >= 0 then TailState(false, raw)
    else match e
      case SignOnly => TailState(true, -raw)
      case SignOffset => TailState(true, -raw - 1)
  }

  /** Decoding recovers the position in every case, and the lock in every
      case except a locked position 0 under SignOnly. */
  function Encode(e: Encoding, t: TailState): (raw: int)
    ensures Decode(e, raw).pos == t.pos
    ensures Decode(e, raw).locked <==> t.locked && (e == SignOffset || t.pos > 0)
    ensures !t.locked ==> raw == t.pos
  {
    if !t.locked then t.pos
    else match e
      case SignOnly => -(t.pos as int)
      case SignOffset => -(t.pos as int) - 1
  }

  /** Every word is the encoding of what it decodes to, in both encodings. */
  lemma EncodeDecode(e: Encoding, raw: int)
    ensures Encode(e, Decode(e, raw)) == raw
  {
  }

  /** The offset encoding is a bijection: decoding undoes encoding. */
  lemma DecodeEncodeOffset(t: TailState)
    ensures Decode(SignOffset, Encode(SignOffset, t)) == t
  {
  }

  /** The sign-only encoding round-trips exactly when the state is not
      "locked at position 0". */
  lemma DecodeEncodeSignOnly(t: TailState)
    ensures Decode(SignOnly, Encode(SignOnly, t)) == t <==> !(t.locked && t.pos == 0)
  {
  }

  /** Locking position 0 under the sign-only encoding yields the unlocked word 0. */
  lemma SignOnlyLosesLockAtZero()
    ensures Encode(SignOnly, TailState(true, 0)) == Encode(SignOnly, TailState(false, 0)) == 0
    ensures !Decode(SignOnly, Encode(SignOnly, TailState(true, 0))).locked
  {
  }
}
