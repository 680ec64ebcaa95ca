/** The pure parts of `encryptToImage` and `decryptFromImage` in
    module/AES.py: the IV is prepended to the ciphertext, and the result
    is laid out as a grey-scale image whose height is the largest divisor
    of the byte count not above its square root. AES-CBC itself comes from
    a library, so it enters as a pair of functions of (IV, data) with the
    key fixed. */
module ImageFrame {

  import opened Wrappers
  import opened ByteSeq
  import opened Padding
  import Arith

  /** `h` is the height `encryptToImage` settles on for `total` bytes: a
      divisor of `total`, at most the square root, and no larger divisor
      is. */
  predicate NearSquareHeight(total: nat, h: nat) {
    1 <= h && h * h <= total && total % h == 0 && NoDivisorAbove(total, h)
  }

  /** No divisor of `total` lies above `h` with its square within `total`. */
  predicate NoDivisorAbove(total: nat, h: nat) {
    forall d: nat | h < d <= total && d * d <= total :: total % d != 0
  }

  /** `floor(sqrt(n))`, on integers. */
  method FloorSqrt(n: nat) returns (r: nat)
    ensures r * r <= n < (r + 1) * (r + 1)
  {
    r := 0;
    while (r + 1) * (r + 1) <= n
      invariant r * r <= n
      decreases n - r * r
    {
      r := r + 1;
    }
  }

  /** Squares of naturals grow with their roots. */
  lemma SquareMono(a: nat, b: nat)
    requires a <= b
    ensures a * a <= b * b
  {
    assert a * a <= a * b <= b * b;
  }

  /** The loop of `encryptToImage`: start at the square root and step down
      until the count divides. With no bytes at all the first `%` divides by
      zero. */
  method ChooseHeight(total: nat) returns (r: Result<nat>)
    ensures r.Err? <==> total == 0
    ensures r.Err? ==> r.error == ZeroDivisionError
    ensures r.Ok? ==> NearSquareHeight(total, r.value)
  {
    var s := FloorSqrt(total);
    if s == 0 {
      return Err(ZeroDivisionError);
    }
    var h := s;
    NothingAboveRoot(total, s);
    while total % h != 0
      invariant 1 <= h <= s
      invariant NoDivisorAbove(total, h)
      decreases h
    {
      StepDown(total, s, h);
      h := h - 1;
    }
    SquareMono(h, s);
    return Ok(h);
  }

  /** Nothing above the floor of the square root has its square within
      `total`, so the loop's invariant holds at the start. */
  lemma NothingAboveRoot(total: nat, s: nat)
    requires total < (s + 1) * (s + 1)
    ensures NoDivisorAbove(total, s)
  {
    forall d: nat | s < d <= total
      ensures d * d > total || total % d != 0
    {
      SquareMono(s + 1, d);
    }
  }

  /** One step down the loop: `h` does not divide, so no divisor lies
      above `h - 1`; divisors above the square root are out of range. */
  lemma StepDown(total: nat, s: nat, h: nat)
    requires 1 <= h <= s && total < (s + 1) * (s + 1)
    requires total % h != 0 && NoDivisorAbove(total, h)
    ensures NoDivisorAbove(total, h - 1)
  {
    forall d: nat | h - 1 < d <= total && d * d <= total
      ensures total % d != 0
    {
      if d > s {
        SquareMono(s + 1, d);
      }
    }
  }

  /** At most one height meets the rule. */
  lemma NearSquareUnique(total: nat, h1: nat, h2: nat)
    requires NearSquareHeight(total, h1) && NearSquareHeight(total, h2)
    ensures h1 == h2
  {
  }

  /** The chosen height times `totPixels // height` covers every byte. */
  lemma DimensionsCover(total: nat, h: nat)
    requires NearSquareHeight(total, h)
    ensures h * (total / h) == total
    ensures h <= total / h
  {
    assert total == h * (total / h) + total % h;
    Arith.DivAtLeast(total, h, h);
  }

  /** `initial_vector + cipherMsg` with `cipherMsg` the CBC encryption of
      the zero-padded message. */
  function CipherFrame(msg: seq<byte>, iv: seq<byte>, encryptCbc: (seq<byte>, seq<byte>) -> seq<byte>): (r: seq<byte>)
    ensures |r| >= |iv|
    ensures r[..|iv|] == iv
    ensures r[|iv|..] == encryptCbc(iv, AddPadding(msg, 16))
  {
    iv + encryptCbc(iv, AddPadding(msg, 16))
  }

  /** The grey-scale image `encryptToImage` hands to PIL: its bytes and
      its dimensions. */
  datatype CipherImage = CipherImage(pixels: seq<byte>, width: nat, height: nat)

  /** `encryptToImage` up to saving the file. */
  method EncryptToImage(msg: seq<byte>, iv: seq<byte>, encryptCbc: (seq<byte>, seq<byte>) -> seq<byte>)
    returns (r: Result<CipherImage>)
    ensures r.Ok? <==> |CipherFrame(msg, iv, encryptCbc)| > 0
    ensures r.Err? ==> r.error == ZeroDivisionError
    ensures r.Ok? ==> r.value.pixels == CipherFrame(msg, iv, encryptCbc)
    ensures r.Ok? ==> r.value.width * r.value.height == |r.value.pixels|
    ensures r.Ok? ==> NearSquareHeight(|r.value.pixels|, r.value.height)
  {
    var frame := CipherFrame(msg, iv, encryptCbc);
    var total := |frame|;
    var height := ChooseHeight(total);
    if height.Err? {
      return Err(height.error);
    }
    var h := height.value;
    DimensionsCover(total, h);
    return Ok(CipherImage(frame, total / h, h));
  }

  /** `cipherMsg[0:16], cipherMsg[16:]` */
  function SplitFrame(data: seq<byte>): (r: (seq<byte>, seq<byte>))
    ensures r.0 + r.1 == data
    ensures |r.0| == Min(16, |data|)
  {
    (Slice(data, 0, 16), Drop(data, 16))
  }

  /** Splitting at 16 recovers the IV and the ciphertext exactly when the IV
      is 16 bytes long, or shorter with nothing after it. */
  lemma SplitFrameInverts(iv: seq<byte>, c: seq<byte>)
    ensures SplitFrame(iv + c) == (iv, c) <==> |iv| == 16 || (|iv| < 16 && c == [])
  {
    var r := SplitFrame(iv + c);
    if |iv| == 16 {
      assert r.0 == (iv + c)[..16] == iv;
    } else if |iv| < 16 && c == [] {
      assert iv + c == iv;
    } else {
      assert |r.0| != |iv|;
    }
  }

  /** `decryptFromImage` after reading the pixel bytes back. */
  function DecryptFromImage(pixels: seq<byte>, decryptCbc: (seq<byte>, seq<byte>) -> seq<byte>): (r: seq<byte>)
    ensures |r| == 0 || r[|r| - 1] != 0
  {
    var parts := SplitFrame(pixels);
    RemovePadding(decryptCbc(parts.0, parts.1))
  }

  /** With a 16-byte IV and a CBC decryption that undoes the encryption on
      the padded message, the image decrypts to the message less its
      trailing zero bytes. */
  lemma ImageRoundTrip(msg: seq<byte>, iv: seq<byte>,
                       encryptCbc: (seq<byte>, seq<byte>) -> seq<byte>,
                       decryptCbc: (seq<byte>, seq<byte>) -> seq<byte>)
    requires |iv| == 16
    requires decryptCbc(iv, encryptCbc(iv, AddPadding(msg, 16))) == AddPadding(msg, 16)
    ensures DecryptFromImage(CipherFrame(msg, iv, encryptCbc), decryptCbc) == RemovePadding(msg)
  {
    SplitFrameInverts(iv, encryptCbc(iv, AddPadding(msg, 16)));
    PadThenStrip(msg, 16);
  }
}
