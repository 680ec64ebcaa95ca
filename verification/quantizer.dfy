/** `__toBinary` (identical in 2.0/AES.py and module/AES.py): a chaotic
    sample in the open interval (-8, 8) becomes a 16-bit fixed-point code,
    4 bits of integer part after shifting to (0, 16) and 12 bits of fraction.
    Python floats are modelled as reals. */
module Quantizer {

  import opened Wrappers
  import opened ByteSeq
  import opened Bits
  import Arith

  /** Integer part of the shifted sample, `int(val + 8)`; Python's `int()`
      truncates, which is the floor here because `val + 8 > 0`. */
  function IntegerPart(val: real): int {
    (val + 8.0).Floor
  }

  /** The fraction of the shifted sample scaled to 12 bits, `int(2**12 * fraction)`. */
  function ScaledFraction(val: real): int {
    (4096.0 * (val + 8.0 - IntegerPart(val) as real)).Floor
  }

  /** The shifted sample in units of 2^-12, rounded down: the 16-bit number
      the two code bytes spell. */
  function FixedPoint(val: real): int {
    (4096.0 * (val + 8.0)).Floor
  }

  /** `__toBinary(val)`: ValueError outside (-8, 8), otherwise the fixed-point
      value as two big-endian bytes. ToBinaryMatchesSource shows these are the
      bytes the source assembles from its two bit fields. */
  function ToBinary(val: real): (r: Result<seq<byte>>)
    ensures r.Ok? <==> -8.0 < val < 8.0
    ensures r.Err? ==> r.error == ValueError
    ensures r.Ok? ==> |r.value| == 2
  {
    if val <= -8.0 || val >= 8.0 then Err(ValueError)
    else
      var q := FixedPoint(val);
      assert 0 <= q < 65536;
      Ok([(q / 256) as byte, (q % 256) as byte])
  }

  /** The source's byte assembly from the two fields,
      `bytes([(integer << 4) | (scaled >> 8), scaled & 0xFF])`. */
  function SourceBytes(integer: nat, scaled: nat): (r: seq<byte>)
    requires integer < 16 && scaled < 4096
    ensures |r| == 2
    ensures r[0] as int == 16 * integer + scaled / 256
    ensures r[1] as int == scaled % 256
  {
    var byte1 := Or(Shl(integer, 4), Shr(scaled, 8));
    var byte2 := And(scaled, 0xFF);
    PackFields(integer, scaled);
    [byte1 as byte, byte2 as byte]
  }

  /** The two fields of an in-range sample fit in 4 and 12 bits, and they
      split the fixed-point value: `FixedPoint == 4096 * integer + scaled`. */
  lemma FieldsInRange(val: real)
    requires -8.0 < val < 8.0
    ensures 0 <= IntegerPart(val) < 16
    ensures 0 <= ScaledFraction(val) < 4096
    ensures FixedPoint(val) == 4096 * IntegerPart(val) + ScaledFraction(val)
  {
    var n := IntegerPart(val);
    var f := val + 8.0 - n as real;
    assert 0.0 <= f < 1.0;
    assert 0.0 <= 4096.0 * f < 4096.0;
    var s := ScaledFraction(val);
    assert 4096.0 * (val + 8.0) == (4096 * n) as real + 4096.0 * f;
    assert (4096 * n + s) as real <= 4096.0 * (val + 8.0) < (4096 * n + s + 1) as real;
  }

  /** The byte operations of lines 37 and 39 on in-range fields. */
  lemma PackFields(n: nat, s: nat)
    requires n < 16 && s < 4096
    ensures Or(Shl(n, 4), Shr(s, 8)) == 16 * n + s / 256 < 256
    ensures And(s, 0xFF) == s % 256
  {
    assert Pow2(4) == 16 && Pow2(8) == 256;
    ShrIsDiv(s, 8);
    OrOfShifted(n, Shr(s, 8), 4);
    AndLowMask(s, 8);
  }

  /** For every sample in range, the code is exactly what the source builds
      from `integer` and `scaled` with shifts, OR and AND. */
  lemma ToBinaryMatchesSource(val: real)
    requires -8.0 < val < 8.0
    ensures 0 <= IntegerPart(val) < 16 && 0 <= ScaledFraction(val) < 4096
    ensures ToBinary(val).value == SourceBytes(IntegerPart(val), ScaledFraction(val))
  {
    FieldsInRange(val);
    var n := IntegerPart(val);
    var s := ScaledFraction(val);
    var q := FixedPoint(val);
    Arith.ModUnique(q, 256, 16 * n + s / 256, s % 256);
  }

  /** Reads a 2-byte code back as a real number in [-8, 8). */
  function Dequantize(code: seq<byte>): real
    requires |code| == 2
  {
    (code[0] as int * 256 + code[1] as int) as real / 4096.0 - 8.0
  }

  /** The code loses less than 2^-12 and never rounds up. */
  lemma QuantizeApproximates(val: real)
    requires -8.0 < val < 8.0
    ensures ToBinary(val).Ok?
    ensures var d := Dequantize(ToBinary(val).value); val - 1.0 / 4096.0 < d <= val
  {
    var c := ToBinary(val).value;
    var q := FixedPoint(val);
    assert c[0] as int * 256 + c[1] as int == q;
    assert q as real <= 4096.0 * (val + 8.0) < q as real + 1.0;
  }

  /** Every code except the all-zero one, which stands for -8 itself, is
      produced by exactly the sample it reads back as. */
  lemma DequantizeThenQuantize(code: seq<byte>)
    requires |code| == 2 && code != [0, 0]
    ensures -8.0 < Dequantize(code) < 8.0
    ensures ToBinary(Dequantize(code)) == Ok(code)
  {
    var q := code[0] as int * 256 + code[1] as int;
    assert 0 < q < 65536;
    var val := Dequantize(code);
    assert 4096.0 * (val + 8.0) == q as real;
    assert FixedPoint(val) == q;
    Arith.ModUnique(q, 256, code[0] as int, code[1] as int);
    assert ToBinary(val).value == code;
  }
}
