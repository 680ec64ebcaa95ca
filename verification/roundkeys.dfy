/** How the round keys of `generateRoundKeys` (2.0/AES.py) meet the cipher.
    The derivation keeps `c = N // (N // (2 * rounds))` samples per sequence
    and cuts their `8 * c` bytes into 16-byte keys, so an odd `c` leaves a
    last key of 8 bytes, which `encrypt` cannot convert to a state. The
    corrected derivation keeps exactly `2 * rounds` samples. */
module RoundKeys {

  import opened Wrappers
  import opened ByteSeq
  import opened Padding
  import opened RoundFunc
  import KeyMaterial
  import Schedule
  import Cipher
  import Arith

  /** For equal-length in-range sequences, the parity of the kept count
      decides everything: the keys are all 16 bytes, and encryption succeeds,
      exactly when `c` is even; otherwise encryption fails with ValueError.
      There are `rounds` keys exactly when `c == 2 * rounds`. */
  lemma KeptCountDecides(x1: seq<real>, x2: seq<real>, y1: seq<real>, y2: seq<real>, rounds: nat,
                         t: Tables, v: Cipher.Version, msg: seq<byte>)
    requires rounds >= 1 && |x1| >= 2 * rounds
    requires |x2| == |x1| && |y1| == |x1| && |y2| == |x1|
    requires KeyMaterial.InRange(x1) && KeyMaterial.InRange(x2) && KeyMaterial.InRange(y1) && KeyMaterial.InRange(y2)
    ensures var c := |x1| / (|x1| / (2 * rounds));
      var keys := KeyMaterial.GenerateRoundKeys(x1, x2, y1, y2, rounds).value;
      && (Schedule.KeysWellFormed(keys) <==> c % 2 == 0)
      && (|keys| == rounds <==> c == 2 * rounds)
      && (Cipher.Encrypt(t, v, msg, keys).Ok? <==> c % 2 == 0)
      && (c % 2 == 1 ==> Cipher.Encrypt(t, v, msg, keys) == Err(ValueError))
  {
    KeyMaterial.RoundKeysShape(x1, x2, y1, y2, rounds);
  }

  /** 21 samples with the default 10 rounds: one sample per run is kept, so
      the 168-byte key gives ten 16-byte keys and an eleventh of 8 bytes,
      and encryption of any message fails. */
  lemma TwentyOneSamplesFail(s: seq<real>, t: Tables, v: Cipher.Version, msg: seq<byte>)
    requires |s| == 21 && KeyMaterial.InRange(s)
    ensures var keys := KeyMaterial.GenerateRoundKeys(s, s, s, s, 10);
      && keys.Ok?
      && |keys.value| == 11
      && |keys.value[10]| == 8
      && Cipher.Encrypt(t, v, msg, keys.value) == Err(ValueError)
  {
    assert 21 / (21 / 20) == 21;
    KeptCountDecides(s, s, s, s, 10, t, v, msg);
    KeyMaterial.RoundKeysShape(s, s, s, s, 10);
  }

  /** Keys from the corrected derivation drive the corrected cipher: the
      encryption succeeds and decryption recovers the message up to its
      trailing zero bytes. */
  lemma CorrectedKeysRoundTrip(x1: seq<real>, x2: seq<real>, y1: seq<real>, y2: seq<real>, rounds: nat,
                               t: Tables, msg: seq<byte>)
    requires rounds >= 1 && |x1| >= 2 * rounds
    requires |x2| == |x1| && |y1| == |x1| && |y2| == |x1|
    requires KeyMaterial.InRange(x1) && KeyMaterial.InRange(x2) && KeyMaterial.InRange(y1) && KeyMaterial.InRange(y2)
    requires SubInverts(t) && MixInverts(t)
    ensures var keys := KeyMaterial.CorrectedGenerateRoundKeys(x1, x2, y1, y2, rounds).value;
      && Schedule.KeysWellFormed(keys)
      && Cipher.Encrypt(t, Cipher.Corrected, msg, keys).Ok?
      && Cipher.Decrypt(t, Cipher.Corrected, Cipher.Encrypt(t, Cipher.Corrected, msg, keys).value, keys)
         == Ok(RemovePadding(msg))
  {
    KeyMaterial.CorrectedRoundKeysShape(x1, x2, y1, y2, rounds);
    var keys := KeyMaterial.CorrectedGenerateRoundKeys(x1, x2, y1, y2, rounds).value;
    Cipher.RoundTrip(t, Cipher.Corrected, keys, msg);
  }
}
