/** Key material from four chaotic sample sequences x1, x2, y1, y2:
    `generateRoundKeys` (2.0/AES.py) and `masterKey` (module/AES.py). Both
    resample every sequence with the slice `xs[step-1 : N : step]`, where
    `N = len(x1)`, quantize each kept sample to 2 bytes, and concatenate the
    codes in the order x1, y1, x2, y2. */
module KeyMaterial {

  import opened Wrappers
  import opened ByteSeq
  import opened Quantizer
  import Arith

  /** Every sample lies in the quantizer's domain (-8, 8). */
  predicate InRange(xs: seq<real>) {
    forall i | 0 <= i < |xs| :: -8.0 < xs[i] < 8.0
  }

  /** Python's slice `xs[start:stop:step]` for a positive step: the elements
      at `start`, `start + step`, ... below both `stop` and `len(xs)`. */
  function Stride(xs: seq<real>, start: nat, step: nat, stop: nat): (r: seq<real>)
    requires step >= 1
    ensures |r| == StrideCount(start, step, Min(stop, |xs|))
    decreases |xs| - start
  {
    if start >= stop || start >= |xs| then []
    else [xs[start]] + Stride(xs, start + step, step, stop)
  }

  /** How many of `start`, `start + step`, ... lie below `lim`. */
  function StrideCount(start: nat, step: nat, lim: nat): nat
    requires step >= 1
    decreases lim - start
  {
    if start >= lim then 0 else 1 + StrideCount(start + step, step, lim)
  }

  /** The count in closed form, `ceil((lim - start) / step)`. */
  lemma {:induction false} StrideCountValue(start: nat, step: nat, lim: nat)
    requires step >= 1
    ensures StrideCount(start, step, lim) == if start < lim then (lim - start + step - 1) / step else 0
    decreases lim - start
  {
    if start < lim {
      StrideCountValue(start + step, step, lim);
      if start + step < lim {
        Arith.DivSubOne(lim - start + step - 1, step);
      } else {
        Arith.ModUnique(lim - start + step - 1, step, 1, lim - start - 1);
      }
    }
  }

  /** Element `k` of the slice is element `start + k * step` of the input. */
  lemma {:induction false} StrideAt(xs: seq<real>, start: nat, step: nat, stop: nat, k: nat)
    requires step >= 1 && k < |Stride(xs, start, step, stop)|
    ensures start + k * step < Min(stop, |xs|)
    ensures Stride(xs, start, step, stop)[k] == xs[start + k * step]
    decreases k
  {
    if k > 0 {
      StrideAt(xs, start + step, step, stop, k - 1);
      assert start + k * step == (start + step) + (k - 1) * step by {
        Arith.SuccMul(k - 1, step);
      }
    }
  }

  /** Resampling keeps samples in range. */
  lemma StrideInRange(xs: seq<real>, start: nat, step: nat, stop: nat)
    requires step >= 1
    ensures InRange(xs) ==> InRange(Stride(xs, start, step, stop))
  {
    var r := Stride(xs, start, step, stop);
    if InRange(xs) {
      forall k | 0 <= k < |r|
        ensures -8.0 < r[k] < 8.0
      {
        StrideAt(xs, start, step, stop, k);
      }
    }
  }

  /** Resampling all four sequences with the same slice keeps them in range. */
  lemma ResampleInRange(x1: seq<real>, x2: seq<real>, y1: seq<real>, y2: seq<real>, step: nat, stop: nat)
    requires step >= 1
    ensures InRange(x1) ==> InRange(Resample(x1, step, stop))
    ensures InRange(x2) ==> InRange(Resample(x2, step, stop))
    ensures InRange(y1) ==> InRange(Resample(y1, step, stop))
    ensures InRange(y2) ==> InRange(Resample(y2, step, stop))
  {
    StrideInRange(x1, step - 1, step, stop);
    StrideInRange(x2, step - 1, step, stop);
    StrideInRange(y1, step - 1, step, stop);
    StrideInRange(y2, step - 1, step, stop);
  }

  /** The resampling slice of both derivations, `xs[step-1 : stop : step]`. */
  function Resample(xs: seq<real>, step: nat, stop: nat): seq<real>
    requires step >= 1
  {
    Stride(xs, step - 1, step, stop)
  }

  /** On a sequence of exactly `stop` samples the slice keeps `stop // step`
      of them, the last samples of each run of `step`. */
  lemma ResampleCount(xs: seq<real>, step: nat)
    requires step >= 1
    ensures |Resample(xs, step, |xs|)| == |xs| / step
  {
    StrideCountValue(step - 1, step, |xs|);
    if step - 1 >= |xs| {
      Arith.ModUnique(|xs|, step, 0, |xs|);
    } else {
      assert |xs| - (step - 1) + step - 1 == |xs|;
    }
  }

  /** Sample `k` kept by the slice is the last of the `k`-th run of `step`. */
  lemma ResampleAt(xs: seq<real>, step: nat, k: nat)
    requires step >= 1 && k < |xs| / step
    ensures k < |Resample(xs, step, |xs|)|
    ensures (k + 1) * step - 1 < |xs|
    ensures Resample(xs, step, |xs|)[k] == xs[(k + 1) * step - 1]
  {
    ResampleCount(xs, step);
    StrideAt(xs, step - 1, step, |xs|, k);
    Arith.MulSucc(step, k);
    assert (k + 1) * step == step * (k + 1);
  }

  /** `[__toBinary(i) for i in xs]` joined: 2 bytes per sample, failing
      with ValueError at the first sample out of range. */
  function Codes(xs: seq<real>): (r: Result<seq<byte>>)
    ensures r.Ok? <==> InRange(xs)
    ensures r.Err? ==> r.error == ValueError
    ensures r.Ok? ==> |r.value| == 2 * |xs|
    decreases |xs|
  {
    if |xs| == 0 then Ok([])
    else
      var c :- ToBinary(xs[0]);
      var rest :- Codes(xs[1..]);
      Ok(c + rest)
  }

  /** Bytes `pos` and `pos + 1` of `key` are the two bytes of the code of
      `sample`. */
  predicate CodeAtOffset(key: seq<byte>, pos: nat, sample: real) {
    && pos + 2 <= |key|
    && ToBinary(sample).Ok?
    && key[pos] == ToBinary(sample).value[0]
    && key[pos + 1] == ToBinary(sample).value[1]
  }

  /** Bytes `2i` and `2i+1` of the joined codes are the code of sample `i`. */
  /** Kept sample `k` of each list, the one at index `(k + 1) * step - 1`,
      has its code at byte `2k` of that list's quarter of `key`: x1 at `2k`,
      y1 at `2c + 2k`, x2 at `4c + 2k` and y2 at `6c + 2k`, where
      `c = |x1| / step` is the number of samples kept from each list. */
  predicate SampleCodesAt(key: seq<byte>, x1: seq<real>, x2: seq<real>, y1: seq<real>, y2: seq<real>, step: nat, k: nat) {
    && step >= 1 && (k + 1) * step <= |x1|
    && |x2| == |x1| && |y1| == |x1| && |y2| == |x1|
    && var c := |x1| / step;
       var i := (k + 1) * step - 1;
       && CodeAtOffset(key, 2 * k, x1[i])
       && CodeAtOffset(key, 2 * c + 2 * k, y1[i])
       && CodeAtOffset(key, 4 * c + 2 * k, x2[i])
       && CodeAtOffset(key, 6 * c + 2 * k, y2[i])
  }

  lemma {:induction false} CodesAt(xs: seq<real>, i: nat)
    requires InRange(xs) && i < |xs|
    ensures CodeAtOffset(Codes(xs).value, 2 * i, xs[i])
    decreases i
  {
    assert InRange(xs[1..]);
    if i > 0 {
      CodesAt(xs[1..], i - 1);
    }
  }

  /** The four joined code lists in the key order x1, y1, x2, y2. */
  function Pack(x1: seq<real>, x2: seq<real>, y1: seq<real>, y2: seq<real>): (r: Result<seq<byte>>)
    ensures r.Ok? <==> InRange(x1) && InRange(x2) && InRange(y1) && InRange(y2)
    ensures r.Err? ==> r.error == ValueError
    ensures r.Ok? ==> |r.value| == 2 * (|x1| + |x2| + |y1| + |y2|)
  {
    var cx1 :- Codes(x1);
    var cy1 :- Codes(y1);
    var cx2 :- Codes(x2);
    var cy2 :- Codes(y2);
    Ok(cx1 + cy1 + cx2 + cy2)
  }

  /** `generateRoundKeys(x1, x2, y1, y2, rounds)`: `2 * rounds` samples are
      required of x1 only; the other three are sliced with x1's length. */
  function GenerateRoundKeys(x1: seq<real>, x2: seq<real>, y1: seq<real>, y2: seq<real>, rounds: nat)
    : (r: Result<seq<seq<byte>>>)
    ensures (r.Err? && r.error == InsufficientSamples) <==> |x1| < 2 * rounds
    ensures rounds == 0 ==> r == Err(ZeroDivisionError)
    ensures r.Ok? ==> rounds >= 1 && |x1| >= 2 * rounds
    ensures r.Err? && r.error !in {InsufficientSamples, ZeroDivisionError} ==> r.error == ValueError
    ensures rounds >= 1 && |x1| >= 2 * rounds && InRange(x1) && InRange(x2) && InRange(y1) && InRange(y2)
            ==> r.Ok?
    ensures r.Ok? ==> forall k | 0 <= k < |r.value| :: 0 < |r.value[k]| <= 16
    ensures r.Ok? ==> forall k | 0 <= k < |r.value| - 1 :: |r.value[k]| == 16
  {
    var totalSamples := |x1|;
    var samplesReq := 2 * rounds;
    if totalSamples < samplesReq then Err(InsufficientSamples)
    else if samplesReq == 0 then Err(ZeroDivisionError)
    else
      var space := totalSamples / samplesReq;
      ResampleInRange(x1, x2, y1, y2, space, totalSamples);
      var key :- Pack(Resample(x1, space, totalSamples), Resample(x2, space, totalSamples),
                      Resample(y1, space, totalSamples), Resample(y2, space, totalSamples));
      Ok(Chunks(key, 16))
  }

  /** `generateRoundKeys` with the slice stopped after `2 * rounds` kept
      samples, `xs[step-1 : step * 2 * rounds : step]`, so that the key is
      `16 * rounds` bytes long as the source's comment on the concatenation
      says. Errors are those of the source. */
  function CorrectedGenerateRoundKeys(x1: seq<real>, x2: seq<real>, y1: seq<real>, y2: seq<real>, rounds: nat)
    : (r: Result<seq<seq<byte>>>)
    ensures (r.Err? && r.error == InsufficientSamples) <==> |x1| < 2 * rounds
    ensures rounds == 0 ==> r == Err(ZeroDivisionError)
    ensures r.Err? && r.error !in {InsufficientSamples, ZeroDivisionError} ==> r.error == ValueError
    ensures rounds >= 1 && |x1| >= 2 * rounds && InRange(x1) && InRange(x2) && InRange(y1) && InRange(y2)
            ==> r.Ok?
  {
    var totalSamples := |x1|;
    var samplesReq := 2 * rounds;
    if totalSamples < samplesReq then Err(InsufficientSamples)
    else if samplesReq == 0 then Err(ZeroDivisionError)
    else
      var space := totalSamples / samplesReq;
      var stop := space * samplesReq;
      ResampleInRange(x1, x2, y1, y2, space, stop);
      var key :- Pack(Resample(x1, space, stop), Resample(x2, space, stop),
                      Resample(y1, space, stop), Resample(y2, space, stop));
      Ok(Chunks(key, 16))
  }

  /** On equal-length in-range sequences the corrected derivation gives
      exactly `rounds` keys, every one of 16 bytes. */
  lemma CorrectedRoundKeysShape(x1: seq<real>, x2: seq<real>, y1: seq<real>, y2: seq<real>, rounds: nat)
    requires rounds >= 1 && |x1| >= 2 * rounds
    requires |x2| == |x1| && |y1| == |x1| && |y2| == |x1|
    requires InRange(x1) && InRange(x2) && InRange(y1) && InRange(y2)
    ensures var r := CorrectedGenerateRoundKeys(x1, x2, y1, y2, rounds);
      && r.Ok?
      && |r.value| == rounds
      && forall k | 0 <= k < |r.value| :: |r.value[k]| == 16
  {
    var n, m := |x1|, 2 * rounds;
    var space := n / m;
    Arith.ModUnique(n, m, space, n % m);
    assert space * m <= n;
    ResampleCountBelow(x1, space, m);
    ResampleCountBelow(x2, space, m);
    ResampleCountBelow(y1, space, m);
    ResampleCountBelow(y2, space, m);
    ResampleInRange(x1, x2, y1, y2, space, space * m);
    var key := Pack(Resample(x1, space, space * m), Resample(x2, space, space * m),
                    Resample(y1, space, space * m), Resample(y2, space, space * m)).value;
    assert CorrectedGenerateRoundKeys(x1, x2, y1, y2, rounds) == Ok(Chunks(key, 16));
    Arith.ModUnique(|key|, 16, rounds, 0);
    ChunksAligned(key, 16);
  }

  /** A slice stopped at `step * m`, inside the sequence, keeps `m` samples. */
  lemma ResampleCountBelow(xs: seq<real>, step: nat, m: nat)
    requires step >= 1 && step * m <= |xs|
    ensures |Resample(xs, step, step * m)| == m
  {
    StrideCountValue(step - 1, step, step * m);
    if m > 0 {
      Arith.MulAtLeast(step, m);
      Arith.ModUnique(step * m, step, m, 0);
    }
  }

  /** `masterKey(x1, x2, y1, y2)`: at least 4 samples of x1 are required. */
  function MasterKey(x1: seq<real>, x2: seq<real>, y1: seq<real>, y2: seq<real>): (r: Result<seq<byte>>)
    ensures (r.Err? && r.error == InsufficientSamples) <==> |x1| <= 3
    ensures r.Err? && r.error != InsufficientSamples ==> r.error == ValueError
    ensures |x1| >= 4 && InRange(x1) && InRange(x2) && InRange(y1) && InRange(y2) ==> r.Ok?
  {
    var sampleSize := |x1|;
    if sampleSize <= 3 then Err(InsufficientSamples)
    else
      var samplingLen := sampleSize / 4;
      ResampleInRange(x1, x2, y1, y2, samplingLen, sampleSize);
      Pack(Resample(x1, samplingLen, sampleSize), Resample(x2, samplingLen, sampleSize),
           Resample(y1, samplingLen, sampleSize), Resample(y2, samplingLen, sampleSize))
  }

  /** `masterKey` with the slice stopped after four kept samples,
      `xs[step-1 : step * 4 : step]`, so that the key is the 32 bytes the
      source's docstring promises. Errors are those of the source. */
  function CorrectedMasterKey(x1: seq<real>, x2: seq<real>, y1: seq<real>, y2: seq<real>): (r: Result<seq<byte>>)
    ensures (r.Err? && r.error == InsufficientSamples) <==> |x1| <= 3
    ensures r.Err? && r.error != InsufficientSamples ==> r.error == ValueError
    ensures |x1| >= 4 && InRange(x1) && InRange(x2) && InRange(y1) && InRange(y2) ==> r.Ok?
  {
    var sampleSize := |x1|;
    if sampleSize <= 3 then Err(InsufficientSamples)
    else
      var samplingLen := sampleSize / 4;
      var stop := samplingLen * 4;
      ResampleInRange(x1, x2, y1, y2, samplingLen, stop);
      Pack(Resample(x1, samplingLen, stop), Resample(x2, samplingLen, stop),
           Resample(y1, samplingLen, stop), Resample(y2, samplingLen, stop))
  }

  /** On equal-length in-range sequences the corrected master key is 32
      bytes for every sample count from 4 on. */
  lemma CorrectedMasterKeyShape(x1: seq<real>, x2: seq<real>, y1: seq<real>, y2: seq<real>)
    requires |x1| >= 4
    requires |x2| == |x1| && |y1| == |x1| && |y2| == |x1|
    requires InRange(x1) && InRange(x2) && InRange(y1) && InRange(y2)
    ensures CorrectedMasterKey(x1, x2, y1, y2).Ok?
    ensures |CorrectedMasterKey(x1, x2, y1, y2).value| == 32
  {
    var n := |x1|;
    var step := n / 4;
    Arith.ModUnique(n, 4, step, n % 4);
    assert step * 4 <= n;
    ResampleCountBelow(x1, step, 4);
    ResampleCountBelow(x2, step, 4);
    ResampleCountBelow(y1, step, 4);
    ResampleCountBelow(y2, step, 4);
  }

  /** Seven samples: the step is 1, all seven are kept, and `masterKey`
      returns 56 bytes rather than 32. */
  lemma SevenSamplesFiftySixBytes(s: seq<real>)
    requires |s| == 7 && InRange(s)
    ensures MasterKey(s, s, s, s).Ok?
    ensures |MasterKey(s, s, s, s).value| == 56
    ensures |CorrectedMasterKey(s, s, s, s).value| == 32
  {
    MasterKeyShape(s, s, s, s);
    CorrectedMasterKeyShape(s, s, s, s);
  }

  /** With `step = N // k` the slice keeps `N // step` samples: at least `k`,
      and fewer than `2 * k`. */
  lemma SelectedCount(n: nat, k: nat)
    requires 1 <= k <= n
    ensures n / k >= 1
    ensures k <= n / (n / k) < 2 * k
  {
    var step := n / k;
    Arith.ModUnique(n, k, step, n % k);
    var c := n / step;
    assert n == step * c + n % step;
    assert k * step <= n;
    if c < k {
      Arith.MulMono(step, c + 1, k);
      Arith.MulSucc(step, c);
    }
    if c >= 2 * k {
      Arith.MulMono(step, 2 * k, c);
      Arith.MulMono(k, 1, step);
    }
  }

  /** Four equal-length in-range sequences resampled with one step pack
      into 8 bytes per kept position. */
  lemma PackResampled(x1: seq<real>, x2: seq<real>, y1: seq<real>, y2: seq<real>, step: nat)
    requires step >= 1
    requires |x2| == |x1| && |y1| == |x1| && |y2| == |x1|
    requires InRange(x1) && InRange(x2) && InRange(y1) && InRange(y2)
    ensures var n := |x1|;
      var key := Pack(Resample(x1, step, n), Resample(x2, step, n), Resample(y1, step, n), Resample(y2, step, n));
      key.Ok? && |key.value| == 8 * (n / step)
  {
    ResampleCount(x1, step);
    ResampleCount(x2, step);
    ResampleCount(y1, step);
    ResampleCount(y2, step);
    ResampleInRange(x1, x2, y1, y2, step, |x1|);
  }

  /** In a key packed from four in-range sequences of `m` samples each,
      sample `k` of x1 is coded at byte `2k`, of y1 at `2m + 2k`, of x2 at
      `4m + 2k` and of y2 at `6m + 2k`. */
  lemma PackAt(x1: seq<real>, x2: seq<real>, y1: seq<real>, y2: seq<real>, k: nat)
    requires |x2| == |x1| && |y1| == |x1| && |y2| == |x1| && k < |x1|
    requires InRange(x1) && InRange(x2) && InRange(y1) && InRange(y2)
    ensures var m := |x1|;
      var key := Pack(x1, x2, y1, y2).value;
      && CodeAtOffset(key, 2 * k, x1[k])
      && CodeAtOffset(key, 2 * m + 2 * k, y1[k])
      && CodeAtOffset(key, 4 * m + 2 * k, x2[k])
      && CodeAtOffset(key, 6 * m + 2 * k, y2[k])
  {
    PackIsJoin(x1, x2, y1, y2);
    CodesAt(x1, k);
    CodesAt(y1, k);
    CodesAt(x2, k);
    CodesAt(y2, k);
    CodesInJoin(Codes(x1).value, Codes(y1).value, Codes(x2).value, Codes(y2).value, x1[k], y1[k], x2[k], y2[k], 2 * k);
  }

  /** A code at the same offset in each of four equal-length parts stays at
      that offset within its part of the join. */
  lemma CodesInJoin(a: seq<byte>, b: seq<byte>, c: seq<byte>, d: seq<byte>, sa: real, sb: real, sc: real, sd: real, i: nat)
    requires |b| == |a| && |c| == |a| && |d| == |a|
    requires CodeAtOffset(a, i, sa) && CodeAtOffset(b, i, sb) && CodeAtOffset(c, i, sc) && CodeAtOffset(d, i, sd)
    ensures var j := a + b + c + d; var n := |a|;
      CodeAtOffset(j, i, sa) && CodeAtOffset(j, n + i, sb) && CodeAtOffset(j, 2 * n + i, sc) && CodeAtOffset(j, 3 * n + i, sd)
  {
    ElementOfJoin(a, b, c, d, i);
    ElementOfJoin(a, b, c, d, i + 1);
  }

  /** The packed key is the four code lists joined, x1, y1, x2, y2. */
  lemma PackIsJoin(x1: seq<real>, x2: seq<real>, y1: seq<real>, y2: seq<real>)
    requires InRange(x1) && InRange(x2) && InRange(y1) && InRange(y2)
    ensures Pack(x1, x2, y1, y2).value == Codes(x1).value + Codes(y1).value + Codes(x2).value + Codes(y2).value
  {
  }

  /** The element at the same offset in each of four equal-length parts of
      a join. */
  lemma ElementOfJoin(a: seq<byte>, b: seq<byte>, c: seq<byte>, d: seq<byte>, i: nat)
    requires |b| == |a| && |c| == |a| && |d| == |a| && i < |a|
    ensures var j := a + b + c + d; var n := |a|;
      j[i] == a[i] && j[n + i] == b[i] && j[2 * n + i] == c[i] && j[3 * n + i] == d[i]
  {
  }

  /** The packed key of four equal-length in-range sequences resampled with
      `step`: sample `k` kept from each sequence, the one at index
      `(k + 1) * step - 1`, is coded at byte `2k` of its quarter of the key. */
  lemma ResampledKeyAt(x1: seq<real>, x2: seq<real>, y1: seq<real>, y2: seq<real>, step: nat, k: nat)
    requires step >= 1 && k < |x1| / step
    requires |x2| == |x1| && |y1| == |x1| && |y2| == |x1|
    requires InRange(x1) && InRange(x2) && InRange(y1) && InRange(y2)
    ensures (k + 1) * step - 1 < |x1|
    ensures Pack(Resample(x1, step, |x1|), Resample(x2, step, |x1|), Resample(y1, step, |x1|), Resample(y2, step, |x1|)).Ok?
    ensures SampleCodesAt(Pack(Resample(x1, step, |x1|), Resample(x2, step, |x1|), Resample(y1, step, |x1|), Resample(y2, step, |x1|)).value, x1, x2, y1, y2, step, k)
  {
    var n := |x1|;
    ResampleAt(x1, step, k);
    ResampleAt(x2, step, k);
    ResampleAt(y1, step, k);
    ResampleAt(y2, step, k);
    ResampleCount(x1, step);
    ResampleCount(x2, step);
    ResampleCount(y1, step);
    ResampleCount(y2, step);
    ResampleInRange(x1, x2, y1, y2, step, n);
    PackAt(Resample(x1, step, n), Resample(x2, step, n), Resample(y1, step, n), Resample(y2, step, n), k);
  }

  /** Which sample's code sits where in the round keys: the keys joined are
      the packed key, with kept sample `k` of x1 at byte `2k`, of y1 at
      `2c + 2k`, of x2 at `4c + 2k` and of y2 at `6c + 2k`, where `c` is the
      number of samples kept from each sequence. */
  lemma RoundKeyContents(x1: seq<real>, x2: seq<real>, y1: seq<real>, y2: seq<real>, rounds: nat, k: nat)
    requires rounds >= 1 && |x1| >= 2 * rounds
    requires |x2| == |x1| && |y1| == |x1| && |y2| == |x1|
    requires InRange(x1) && InRange(x2) && InRange(y1) && InRange(y2)
    requires (k + 1) * (|x1| / (2 * rounds)) <= |x1|
    ensures var step := |x1| / (2 * rounds); step >= 1 && 1 <= (k + 1) * step <= |x1| && k < |x1| / step
    ensures var r := GenerateRoundKeys(x1, x2, y1, y2, rounds);
      r.Ok? && SampleCodesAt(Flatten(r.value), x1, x2, y1, y2, |x1| / (2 * rounds), k)
  {
    SelectedCount(|x1|, 2 * rounds);
    Arith.StepsFit(|x1|, |x1| / (2 * rounds), k);
    ResampledKeyAt(x1, x2, y1, y2, |x1| / (2 * rounds), k);
    RoundKeysJoin(x1, x2, y1, y2, rounds);
  }

  /** Joined, the round keys are the key packed from the resampled lists. */
  lemma RoundKeysJoin(x1: seq<real>, x2: seq<real>, y1: seq<real>, y2: seq<real>, rounds: nat)
    requires rounds >= 1 && |x1| >= 2 * rounds
    requires InRange(x1) && InRange(x2) && InRange(y1) && InRange(y2)
    ensures var step := |x1| / (2 * rounds); var n := |x1|;
      var key := Pack(Resample(x1, step, n), Resample(x2, step, n), Resample(y1, step, n), Resample(y2, step, n));
      var r := GenerateRoundKeys(x1, x2, y1, y2, rounds);
      step >= 1 && key.Ok? && r.Ok? && Flatten(r.value) == key.value
  {
    var n := |x1|;
    SelectedCount(n, 2 * rounds);
    var step := n / (2 * rounds);
    ResampleInRange(x1, x2, y1, y2, step, n);
    var key := Pack(Resample(x1, step, n), Resample(x2, step, n), Resample(y1, step, n), Resample(y2, step, n)).value;
    assert GenerateRoundKeys(x1, x2, y1, y2, rounds) == Ok(Chunks(key, 16));
  }

  /** Which sample's code sits where in the master key: kept sample `k` of
      x1 at byte `2k`, of y1 at `2c + 2k`, of x2 at `4c + 2k` and of y2 at
      `6c + 2k`, where `c = N // (N // 4)`. */
  lemma MasterKeyContents(x1: seq<real>, x2: seq<real>, y1: seq<real>, y2: seq<real>, k: nat)
    requires |x1| >= 4
    requires |x2| == |x1| && |y1| == |x1| && |y2| == |x1|
    requires InRange(x1) && InRange(x2) && InRange(y1) && InRange(y2)
    requires (k + 1) * (|x1| / 4) <= |x1|
    ensures var step := |x1| / 4; step >= 1 && 1 <= (k + 1) * step <= |x1| && k < |x1| / step
    ensures var r := MasterKey(x1, x2, y1, y2);
      r.Ok? && SampleCodesAt(r.value, x1, x2, y1, y2, |x1| / 4, k)
  {
    SelectedCount(|x1|, 4);
    Arith.StepsFit(|x1|, |x1| / 4, k);
    ResampledKeyAt(x1, x2, y1, y2, |x1| / 4, k);
  }

  /** Equal-length in-range sequences of `N >= 2 * rounds` samples give the
      packed key of `8c` bytes cut into 16-byte round keys. There are at
      least `rounds` of them, exactly `rounds` only when `c == 2 * rounds`;
      all are full exactly when `c` is even, and otherwise the last is 8
      bytes. */
  lemma RoundKeysShape(x1: seq<real>, x2: seq<real>, y1: seq<real>, y2: seq<real>, rounds: nat)
    requires rounds >= 1 && |x1| >= 2 * rounds
    requires |x2| == |x1| && |y1| == |x1| && |y2| == |x1|
    requires InRange(x1) && InRange(x2) && InRange(y1) && InRange(y2)
    ensures var c := |x1| / (|x1| / (2 * rounds));
      var r := GenerateRoundKeys(x1, x2, y1, y2, rounds);
      && 2 * rounds <= c < 4 * rounds
      && r.Ok?
      && |Flatten(r.value)| == 8 * c
      && |r.value| == (8 * c + 15) / 16
      && rounds <= |r.value|
      && (|r.value| == rounds <==> c == 2 * rounds)
      && ((forall k | 0 <= k < |r.value| :: |r.value[k]| == 16) <==> c % 2 == 0)
      && (c % 2 == 1 ==> |r.value[|r.value| - 1]| == 8)
  {
    var n := |x1|;
    SelectedCount(n, 2 * rounds);
    var step := n / (2 * rounds);
    var c := n / step;
    PackResampled(x1, x2, y1, y2, step);
    var key := Pack(Resample(x1, step, n), Resample(x2, step, n), Resample(y1, step, n), Resample(y2, step, n));
    var keys := Chunks(key.value, 16);
    assert GenerateRoundKeys(x1, x2, y1, y2, rounds) == Ok(keys);
    Arith.KeyCount(c, rounds);
    ChunksShort(key.value, 16);
    if c % 2 == 1 {
      ChunkLast(key.value, 16);
    }
  }

  /** The demo of 2.0/AES.py: one sequence of 20 samples in range, used for
      all four inputs, with the default 10 rounds gives ten 16-byte keys. */
  lemma TwentySamplesTenKeys(s: seq<real>)
    requires |s| == 20 && InRange(s)
    ensures GenerateRoundKeys(s, s, s, s, 10).Ok?
    ensures |GenerateRoundKeys(s, s, s, s, 10).value| == 10
    ensures forall k | 0 <= k < 10 :: |GenerateRoundKeys(s, s, s, s, 10).value[k]| == 16
  {
    RoundKeysShape(s, s, s, s, 10);
  }

  /** Equal-length in-range sequences of `N >= 4` samples give a key of
      `8 * (N // (N // 4))` bytes: 32 bytes when `N // (N // 4) == 4`, and up
      to 56 bytes otherwise. */
  lemma MasterKeyShape(x1: seq<real>, x2: seq<real>, y1: seq<real>, y2: seq<real>)
    requires |x1| >= 4
    requires |x2| == |x1| && |y1| == |x1| && |y2| == |x1|
    requires InRange(x1) && InRange(x2) && InRange(y1) && InRange(y2)
    ensures var c := |x1| / (|x1| / 4);
      && 4 <= c < 8
      && MasterKey(x1, x2, y1, y2).Ok?
      && |MasterKey(x1, x2, y1, y2).value| == 8 * c
  {
    SelectedCount(|x1|, 4);
    PackResampled(x1, x2, y1, y2, |x1| / 4);
  }

  /** The demo of module/AES.py: `masterKey([0,1,2,3], ...)` is 32 bytes. */
  lemma DemoMasterKeyIs32Bytes()
    ensures MasterKey([0.0, 1.0, 2.0, 3.0], [0.0, 1.0, 2.0, 3.0], [0.0, 1.0, 2.0, 3.0], [0.0, 1.0, 2.0, 3.0]).Ok?
    ensures |MasterKey([0.0, 1.0, 2.0, 3.0], [0.0, 1.0, 2.0, 3.0], [0.0, 1.0, 2.0, 3.0], [0.0, 1.0, 2.0, 3.0]).value| == 32
  {
    var s := [0.0, 1.0, 2.0, 3.0];
    MasterKeyShape(s, s, s, s);
  }
}
