/** The round structure of `encrypt` and `decrypt` in 2.0/AES.py, written
    as a list of round operations that an interpreter applies to a state.
    Each `addRoundKey(state, blockToState(roundKeys[i]))` is one `AddKey`
    step carrying the raw key bytes, so a key that is not 16 bytes fails
    exactly when the source converts it. */
module Schedule {

  import opened Wrappers
  import opened ByteSeq
  import opened RoundFunc

  datatype Step = AddKey(key: seq<byte>) | Sub | InvSub | Shift | InvShift | Mix | InvMix

  /** How `mixColumns` and `invMixColumns` treat a row: as the source runs
      them, overwriting cells in place, or reading a copy of the old row. */
  datatype Mixing = InPlace | Copied

  function Apply(t: Tables, mode: Mixing, step: Step, s: State): (r: Result<State>)
    ensures IsGrid(s) ==> (r.Ok? <==> KeyOk(step))
    ensures IsGrid(s) && r.Ok? ==> IsGrid(r.value)
    ensures r.Err? ==> r.error == ValueError
  {
    match step
    case AddKey(key) =>
      var k :- BlockToState(key);
      AddRoundKey(s, k)
    case Sub => SubBytes(t, s)
    case InvSub => InvSubBytes(t, s)
    case Shift => ShiftRows(s)
    case InvShift => InvShiftRows(s)
    case Mix => if mode == InPlace then MixColumns(t, s) else MixColumnsCopied(t, s)
    case InvMix => if mode == InPlace then InvMixColumns(t, s) else InvMixColumnsCopied(t, s)
  }

  /** A round-key step whose key converts to a state. */
  predicate KeyOk(step: Step) {
    step.AddKey? ==> |step.key| == 16
  }

  predicate KeysOk(steps: seq<Step>) {
    forall i | 0 <= i < |steps| :: KeyOk(steps[i])
  }

  /** Applies the steps in order, stopping at the first error. On a grid,
      only a round key of the wrong length can fail. */
  function Run(t: Tables, mode: Mixing, steps: seq<Step>, s: State): (r: Result<State>)
    ensures IsGrid(s) ==> (r.Ok? <==> KeysOk(steps))
    ensures IsGrid(s) && r.Ok? ==> IsGrid(r.value)
    ensures r.Err? ==> r.error == ValueError
    decreases |steps|
  {
    if |steps| == 0 then Ok(s)
    else
      assert KeysOk(steps) <==> KeyOk(steps[0]) && KeysOk(steps[1..]) by {
        if KeyOk(steps[0]) && KeysOk(steps[1..]) {
          forall i | 0 <= i < |steps|
            ensures KeyOk(steps[i])
          {
            if i > 0 {
              assert steps[i] == steps[1..][i - 1];
            }
          }
        }
      }
      var next :- Apply(t, mode, steps[0], s);
      Run(t, mode, steps[1..], next)
  }

  /** Running two schedules one after the other is running their concatenation. */
  lemma {:induction false} RunAppend(t: Tables, mode: Mixing, a: seq<Step>, b: seq<Step>, s: State)
    ensures Run(t, mode, a + b, s) == match Run(t, mode, a, s) { case Ok(m) => Run(t, mode, b, m) case Err(e) => Err(e) }
    decreases |a|
  {
    if |a| == 0 {
      assert a + b == b;
    } else {
      assert (a + b)[1..] == a[1..] + b;
      assert (a + b)[0] == a[0];
      var next := Apply(t, mode, a[0], s);
      if next.Ok? {
        RunAppend(t, mode, a[1..], b, next.value);
      }
    }
  }

  lemma KeysOkAppend(a: seq<Step>, b: seq<Step>)
    ensures KeysOk(a + b) <==> KeysOk(a) && KeysOk(b)
  {
    if KeysOk(a + b) {
      forall i | 0 <= i < |a|
        ensures KeyOk(a[i])
      {
        assert (a + b)[i] == a[i];
      }
      forall i | 0 <= i < |b|
        ensures KeyOk(b[i])
      {
        assert (a + b)[|a| + i] == b[i];
      }
    }
    if KeysOk(a) && KeysOk(b) {
      forall i | 0 <= i < |a + b|
        ensures KeyOk((a + b)[i])
      {
        if i < |a| {
          assert (a + b)[i] == a[i];
        } else {
          assert (a + b)[i] == b[i - |a|];
        }
      }
    }
  }

  /** The undoing step of each step. */
  function InvertStep(step: Step): Step {
    match step
    case AddKey(key) => AddKey(key)
    case Sub => InvSub
    case InvSub => Sub
    case Shift => InvShift
    case InvShift => Shift
    case Mix => InvMix
    case InvMix => Mix
  }

  /** The schedule that undoes `steps`: inverted steps in reverse order. */
  function Inverse(steps: seq<Step>): (r: seq<Step>)
    ensures |r| == |steps|
    ensures forall i | 0 <= i < |steps| :: r[i] == InvertStep(steps[|steps| - 1 - i])
    decreases |steps|
  {
    if |steps| == 0 then [] else Inverse(steps[1..]) + [InvertStep(steps[0])]
  }

  lemma {:induction false} InverseAppend(a: seq<Step>, b: seq<Step>)
    ensures Inverse(a + b) == Inverse(b) + Inverse(a)
  {
    var l, r := Inverse(a + b), Inverse(b) + Inverse(a);
    assert |l| == |r|;
    forall i | 0 <= i < |l|
      ensures l[i] == r[i]
    {
      if i < |b| {
        assert (a + b)[|a + b| - 1 - i] == b[|b| - 1 - i];
      } else {
        assert (a + b)[|a + b| - 1 - i] == a[|a| - 1 - (i - |b|)];
      }
    }
  }

  /** Inverting twice gives the schedule back. */
  lemma InverseInverse(steps: seq<Step>)
    ensures Inverse(Inverse(steps)) == steps
  {
    var r := Inverse(Inverse(steps));
    forall i | 0 <= i < |steps|
      ensures r[i] == steps[i]
    {
      assert Inverse(steps)[|steps| - 1 - i] == InvertStep(steps[i]);
    }
  }

  /** The steps `encrypt` uses: no inverse operation among them. */
  predicate Forward(steps: seq<Step>) {
    forall i | 0 <= i < |steps| :: !steps[i].InvSub? && !steps[i].InvShift? && !steps[i].InvMix?
  }

  /** Each forward step is undone by its inverted step on a grid, when the
      S-box has an inverse and, for a mixing step, the copied mix does. */
  lemma ApplyThenInvert(t: Tables, step: Step, s: State)
    requires IsGrid(s) && KeyOk(step) && !step.InvSub? && !step.InvShift? && !step.InvMix?
    requires SubInverts(t) && (step.Mix? ==> MixInverts(t))
    ensures Apply(t, Copied, InvertStep(step), Apply(t, Copied, step, s).value) == Ok(s)
  {
    match step
    case AddKey(key) => AddKeyThenInvert(t, key, s);
    case Sub => SubThenInvert(t, s);
    case Shift => ShiftThenInvert(t, s);
    case Mix => MixThenInvert(t, s);
  }

  lemma AddKeyThenInvert(t: Tables, key: seq<byte>, s: State)
    requires IsGrid(s) && |key| == 16
    ensures Apply(t, Copied, AddKey(key), Apply(t, Copied, AddKey(key), s).value) == Ok(s)
  {
    var k := BlockToState(key).value;
    var m := AddRoundKey(s, k).value;
    assert Apply(t, Copied, AddKey(key), s) == Ok(m);
    assert Apply(t, Copied, AddKey(key), m) == AddRoundKey(m, k);
    AddRoundKeyTwice(s, k);
  }

  lemma SubThenInvert(t: Tables, s: State)
    requires IsGrid(s) && SubInverts(t)
    ensures Apply(t, Copied, InvSub, Apply(t, Copied, Sub, s).value) == Ok(s)
  {
    SubBytesThenInverse(t, s);
  }

  lemma ShiftThenInvert(t: Tables, s: State)
    requires IsGrid(s)
    ensures Apply(t, Copied, InvShift, Apply(t, Copied, Shift, s).value) == Ok(s)
  {
    ShiftRowsThenInverse(s);
  }

  lemma MixThenInvert(t: Tables, s: State)
    requires IsGrid(s) && MixInverts(t)
    ensures Apply(t, Copied, InvMix, Apply(t, Copied, Mix, s).value) == Ok(s)
  {
    var m := MixColumnsCopied(t, s);
    ApplyMixes(t, s);
    ApplyMixes(t, m.value);
    MixColumnsCopiedThenInverse(t, s);
  }

  /** In copied mode the two mix steps are the copied mixes. */
  lemma ApplyMixes(t: Tables, s: State)
    ensures Apply(t, Copied, Mix, s) == MixColumnsCopied(t, s)
    ensures Apply(t, Copied, InvMix, s) == InvMixColumnsCopied(t, s)
  {
  }

  /** Running a forward schedule and then its inverse restores the state,
      when the S-box has an inverse and the copied mix has one or is not used. */
  lemma {:induction false} RunThenInverse(t: Tables, steps: seq<Step>, s: State)
    requires IsGrid(s) && KeysOk(steps) && Forward(steps)
    requires SubInverts(t) && (MixCount(steps) == 0 || MixInverts(t))
    ensures Run(t, Copied, steps, s).Ok?
    ensures Run(t, Copied, Inverse(steps), Run(t, Copied, steps, s).value) == Ok(s)
    decreases |steps|
  {
    if |steps| > 0 {
      var x := steps[0];
      var rest := steps[1..];
      assert KeyOk(x);
      assert KeysOk(rest) && Forward(rest) by {
        assert forall i | 0 <= i < |rest| :: rest[i] == steps[i + 1];
      }
      var s1 := Apply(t, Copied, x, s).value;
      var s2 := Run(t, Copied, rest, s1).value;
      RunThenInverse(t, rest, s1);
      assert Inverse(steps) == Inverse(rest) + [InvertStep(x)];
      RunAppend(t, Copied, Inverse(rest), [InvertStep(x)], s2);
      ApplyThenInvert(t, x, s);
    }
  }

  /** Without mixing steps, how the mix treats a row makes no difference. */
  lemma {:induction false} RunWithoutMixes(t: Tables, steps: seq<Step>, s: State)
    requires MixCount(steps) == 0
    ensures Run(t, InPlace, steps, s) == Run(t, Copied, steps, s)
    decreases |steps|
  {
    if |steps| > 0 {
      var x := steps[0];
      assert Apply(t, InPlace, x, s) == Apply(t, Copied, x, s);
      if Apply(t, InPlace, x, s).Ok? {
        RunWithoutMixes(t, steps[1..], Apply(t, InPlace, x, s).value);
      }
    }
  }

  /** One middle round of `encrypt`. */
  function Round(key: seq<byte>): seq<Step> {
    [Sub, Shift, Mix, AddKey(key)]
  }

  /** One round of `decrypt`'s loop. */
  function InvRound(key: seq<byte>): seq<Step> {
    [InvShift, InvSub, AddKey(key), InvMix]
  }

  /** The rounds of `for i in range(1, top + 1)` in encryption order. */
  function EncryptRounds(keys: seq<seq<byte>>, top: nat): (r: seq<Step>)
    requires top < |keys|
    ensures |r| == 4 * top
    decreases top
  {
    if top == 0 then [] else EncryptRounds(keys, top - 1) + Round(keys[top])
  }

  /** The rounds of `for i in range(top, 0, -1)`. */
  function DecryptRounds(keys: seq<seq<byte>>, top: nat): (r: seq<Step>)
    requires top < |keys|
    ensures |r| == 4 * top
    decreases top
  {
    if top == 0 then [] else InvRound(keys[top]) + DecryptRounds(keys, top - 1)
  }

  /** `encrypt`'s loop `range(1, len(roundKeys) - 1)` runs up to `N - 2`. */
  function MiddleTop(n: nat): nat {
    if n >= 2 then n - 2 else 0
  }

  /** The whole of `encrypt` for one block: key 0, the middle rounds, and
      a last round without mixing under the last key (`roundKeys[-1]`). */
  function EncryptSchedule(keys: seq<seq<byte>>): (r: seq<Step>)
    requires |keys| >= 1
    ensures Forward(r)
  {
    var n := |keys|;
    ForwardRounds(keys, MiddleTop(n));
    var r := [AddKey(keys[0])] + EncryptRounds(keys, MiddleTop(n)) + [Sub, Shift, AddKey(keys[n - 1])];
    assert forall i | 1 <= i < 1 + 4 * MiddleTop(n) :: r[i] == EncryptRounds(keys, MiddleTop(n))[i - 1];
    r
  }

  /** The whole of `decrypt` for one block, as written: its loop
      `range(len(roundKeys) - 1, 0, -1)` starts at `N - 1`. */
  function DecryptSchedule(keys: seq<seq<byte>>): seq<Step>
    requires |keys| >= 1
  {
    var n := |keys|;
    [AddKey(keys[n - 1])] + DecryptRounds(keys, n - 1) + [InvShift, InvSub, AddKey(keys[0])]
  }

  /** `decrypt` with its loop starting at `N - 2`, where encryption's middle
      rounds end. */
  function CorrectedDecryptSchedule(keys: seq<seq<byte>>): seq<Step>
    requires |keys| >= 1
  {
    var n := |keys|;
    [AddKey(keys[n - 1])] + DecryptRounds(keys, MiddleTop(n)) + [InvShift, InvSub, AddKey(keys[0])]
  }

  lemma {:induction false} ForwardRounds(keys: seq<seq<byte>>, top: nat)
    requires top < |keys|
    ensures Forward(EncryptRounds(keys, top))
    decreases top
  {
    if top > 0 {
      ForwardRounds(keys, top - 1);
      var a := EncryptRounds(keys, top - 1);
      assert forall i | 0 <= i < |a| :: EncryptRounds(keys, top)[i] == a[i];
    }
  }

  /** Every round key the middle rounds use is 16 bytes exactly when keys
      `1..top` are. */
  lemma {:induction false} EncryptRoundsKeys(keys: seq<seq<byte>>, top: nat)
    requires top < |keys|
    ensures KeysOk(EncryptRounds(keys, top)) <==> forall j | 1 <= j <= top :: |keys[j]| == 16
    decreases top
  {
    if top > 0 {
      EncryptRoundsKeys(keys, top - 1);
      KeysOkAppend(EncryptRounds(keys, top - 1), Round(keys[top]));
      assert Round(keys[top])[3] == AddKey(keys[top]);
    }
  }

  lemma {:induction false} DecryptRoundsKeys(keys: seq<seq<byte>>, top: nat)
    requires top < |keys|
    ensures KeysOk(DecryptRounds(keys, top)) <==> forall j | 1 <= j <= top :: |keys[j]| == 16
    decreases top
  {
    if top > 0 {
      DecryptRoundsKeys(keys, top - 1);
      KeysOkAppend(InvRound(keys[top]), DecryptRounds(keys, top - 1));
      assert InvRound(keys[top])[2] == AddKey(keys[top]);
    }
  }

  /** Every round key is 16 bytes. */
  predicate KeysWellFormed(keys: seq<seq<byte>>) {
    forall j | 0 <= j < |keys| :: |keys[j]| == 16
  }

  /** Each of the three schedules uses every round key, so each runs on a
      grid exactly when all keys are 16 bytes. */
  lemma SchedulesUseEveryKey(keys: seq<seq<byte>>)
    requires |keys| >= 1
    ensures KeysOk(EncryptSchedule(keys)) <==> KeysWellFormed(keys)
    ensures KeysOk(DecryptSchedule(keys)) <==> KeysWellFormed(keys)
    ensures KeysOk(CorrectedDecryptSchedule(keys)) <==> KeysWellFormed(keys)
  {
    var n := |keys|;
    var first, last := [AddKey(keys[0])], [Sub, Shift, AddKey(keys[n - 1])];
    var dfirst, dlast := [AddKey(keys[n - 1])], [InvShift, InvSub, AddKey(keys[0])];
    assert KeysOk(first) <==> |keys[0]| == 16 by {
      assert first[0] == AddKey(keys[0]);
    }
    assert KeysOk(last) <==> |keys[n - 1]| == 16 by {
      assert last[2] == AddKey(keys[n - 1]);
    }
    assert KeysOk(dfirst) <==> |keys[n - 1]| == 16 by {
      assert dfirst[0] == AddKey(keys[n - 1]);
    }
    assert KeysOk(dlast) <==> |keys[0]| == 16 by {
      assert dlast[2] == AddKey(keys[0]);
    }
    EncryptRoundsKeys(keys, MiddleTop(n));
    DecryptRoundsKeys(keys, n - 1);
    DecryptRoundsKeys(keys, MiddleTop(n));
    KeysOkAppend(first, EncryptRounds(keys, MiddleTop(n)));
    KeysOkAppend(first + EncryptRounds(keys, MiddleTop(n)), last);
    KeysOkAppend(dfirst, DecryptRounds(keys, n - 1));
    KeysOkAppend(dfirst + DecryptRounds(keys, n - 1), dlast);
    KeysOkAppend(dfirst, DecryptRounds(keys, MiddleTop(n)));
    KeysOkAppend(dfirst + DecryptRounds(keys, MiddleTop(n)), dlast);
  }

  /** Undoing the middle rounds, with the last round's leading inverse
      shift and substitution moved in front, is the decrypt loop over the
      same keys. */
  lemma {:induction false} InverseOfRounds(keys: seq<seq<byte>>, top: nat)
    requires top < |keys|
    ensures [InvShift, InvSub] + Inverse(EncryptRounds(keys, top)) == DecryptRounds(keys, top) + [InvShift, InvSub]
    decreases top
  {
    if top > 0 {
      var k := keys[top];
      InverseOfRounds(keys, top - 1);
      InverseAppend(EncryptRounds(keys, top - 1), Round(k));
      var p, q := [InvShift, InvSub], [AddKey(k), InvMix];
      assert Inverse(Round(k)) == q + p;
      assert InvRound(k) == p + q;
      RoundShuffle(p, q, Inverse(EncryptRounds(keys, top - 1)), DecryptRounds(keys, top - 1));
    }
  }

  /** The regrouping behind InverseOfRounds. */
  lemma RoundShuffle(p: seq<Step>, q: seq<Step>, a: seq<Step>, d: seq<Step>)
    requires p + a == d + p
    ensures p + ((q + p) + a) == (p + q) + d + p
  {
    assert (q + p) + a == q + (p + a);
    assert (p + q) + d + p == p + (q + (d + p));
  }

  /** The corrected decrypt schedule is exactly the inverse of the encrypt
      schedule. */
  lemma CorrectedDecryptInvertsEncrypt(keys: seq<seq<byte>>)
    requires |keys| >= 1
    ensures CorrectedDecryptSchedule(keys) == Inverse(EncryptSchedule(keys))
  {
    var n := |keys|;
    var mid := EncryptRounds(keys, MiddleTop(n));
    var dmid := DecryptRounds(keys, MiddleTop(n));
    var first, last := [AddKey(keys[0])], [Sub, Shift, AddKey(keys[n - 1])];
    var e := EncryptSchedule(keys);
    assert e == (first + mid) + last;
    InverseAppend(first + mid, last);
    InverseAppend(first, mid);
    var il := Inverse(last);
    assert il == [AddKey(keys[n - 1])] + [InvShift, InvSub];
    assert Inverse(first) == [AddKey(keys[0])];
    var im := Inverse(mid);
    InverseOfRounds(keys, MiddleTop(n));
    assert [InvShift, InvSub] + im == dmid + [InvShift, InvSub];
    SeqShuffle(AddKey(keys[n - 1]), im, dmid, AddKey(keys[0]));
  }

  /** The regrouping behind CorrectedDecryptInvertsEncrypt. */
  lemma SeqShuffle(k1: Step, im: seq<Step>, dmid: seq<Step>, k0: Step)
    requires [InvShift, InvSub] + im == dmid + [InvShift, InvSub]
    ensures ([k1] + [InvShift, InvSub]) + (im + [k0]) == ([k1] + dmid) + [InvShift, InvSub, k0]
  {
    var lhs := ([k1] + [InvShift, InvSub]) + (im + [k0]);
    var rhs := ([k1] + dmid) + [InvShift, InvSub, k0];
    var mid := [InvShift, InvSub] + im;
    assert lhs == [k1] + mid + [k0];
    assert rhs == [k1] + (dmid + [InvShift, InvSub]) + [k0];
  }

  /** How many mixing steps a schedule holds, forward or inverse. */
  function MixCount(steps: seq<Step>): (r: nat)
    ensures r <= |steps|
    decreases |steps|
  {
    if |steps| == 0 then 0
    else (if steps[0].Mix? || steps[0].InvMix? then 1 else 0) + MixCount(steps[1..])
  }

  lemma {:induction false} MixCountAppend(a: seq<Step>, b: seq<Step>)
    ensures MixCount(a + b) == MixCount(a) + MixCount(b)
    decreases |a|
  {
    if |a| == 0 {
      assert a + b == b;
    } else {
      assert (a + b)[1..] == a[1..] + b;
      MixCountAppend(a[1..], b);
    }
  }

  lemma {:induction false} MixCountInverse(steps: seq<Step>)
    ensures MixCount(Inverse(steps)) == MixCount(steps)
    decreases |steps|
  {
    if |steps| > 0 {
      MixCountInverse(steps[1..]);
      MixCountAppend(Inverse(steps[1..]), [InvertStep(steps[0])]);
    }
  }

  lemma {:induction false} MixCountRounds(keys: seq<seq<byte>>, top: nat)
    requires top < |keys|
    ensures MixCount(EncryptRounds(keys, top)) == top
    ensures MixCount(DecryptRounds(keys, top)) == top
    decreases top
  {
    if top > 0 {
      MixCountRounds(keys, top - 1);
      MixCountAppend(EncryptRounds(keys, top - 1), Round(keys[top]));
      MixCountAppend(InvRound(keys[top]), DecryptRounds(keys, top - 1));
      MixCountOfRounds(keys[top]);
    }
  }

  lemma MixCountOfRounds(k: seq<byte>)
    ensures MixCount(Round(k)) == 1 && MixCount(InvRound(k)) == 1
  {
    var r, d := Round(k), InvRound(k);
    assert r[1..] == [Shift, Mix, AddKey(k)] && r[1..][1..] == [Mix, AddKey(k)] && r[1..][1..][1..] == [AddKey(k)];
    assert MixCount([AddKey(k)]) == 0 && MixCount([Mix, AddKey(k)]) == 1;
    assert d[1..] == [InvSub, AddKey(k), InvMix] && d[1..][1..] == [AddKey(k), InvMix] && d[1..][1..][1..] == [InvMix];
    assert MixCount([InvMix]) == 1 && MixCount([AddKey(k), InvMix]) == 1;
  }

  /** The first and last steps of every schedule hold no mixing. */
  lemma MixCountEnds(k0: seq<byte>, k1: seq<byte>)
    ensures MixCount([AddKey(k0)]) == 0
    ensures MixCount([Sub, Shift, AddKey(k1)]) == 0
    ensures MixCount([InvShift, InvSub, AddKey(k0)]) == 0
  {
    var e := [Sub, Shift, AddKey(k1)];
    assert e[1..] == [Shift, AddKey(k1)];
    assert e[1..][1..] == [AddKey(k1)];
    assert MixCount([AddKey(k1)]) == 0;
    assert MixCount([Shift, AddKey(k1)]) == 0;
    assert [InvShift, InvSub, AddKey(k0)][1..] == [InvSub, AddKey(k0)];
    assert [InvSub, AddKey(k0)][1..] == [AddKey(k0)];
  }

  lemma EncryptMixCount(keys: seq<seq<byte>>)
    requires |keys| >= 1
    ensures MixCount(EncryptSchedule(keys)) == MiddleTop(|keys|)
  {
    var n := |keys|;
    var first, mid, last := [AddKey(keys[0])], EncryptRounds(keys, MiddleTop(n)), [Sub, Shift, AddKey(keys[n - 1])];
    MixCountRounds(keys, MiddleTop(n));
    MixCountEnds(keys[0], keys[n - 1]);
    MixCountAppend(first, mid);
    MixCountAppend(first + mid, last);
  }

  lemma DecryptMixCount(keys: seq<seq<byte>>)
    requires |keys| >= 1
    ensures MixCount(DecryptSchedule(keys)) == |keys| - 1
  {
    var n := |keys|;
    var first, mid, last := [AddKey(keys[n - 1])], DecryptRounds(keys, n - 1), [InvShift, InvSub, AddKey(keys[0])];
    MixCountRounds(keys, n - 1);
    MixCountEnds(keys[n - 1], keys[0]);
    MixCountEnds(keys[0], keys[0]);
    MixCountAppend(first, mid);
    MixCountAppend(first + mid, last);
  }

  /** Encryption mixes `N - 2` times and `decrypt` as written unmixes
      `N - 1` times, so from two round keys on the decrypt schedule is not
      the inverse of the encrypt schedule. With one key neither mixes and
      the two agree. */
  lemma DecryptMixesOnceTooOften(keys: seq<seq<byte>>)
    requires |keys| >= 1
    ensures |keys| >= 2 ==> MixCount(EncryptSchedule(keys)) == |keys| - 2
    ensures MixCount(DecryptSchedule(keys)) == |keys| - 1
    ensures |keys| >= 2 ==> DecryptSchedule(keys) != Inverse(EncryptSchedule(keys))
    ensures |keys| == 1 ==> DecryptSchedule(keys) == Inverse(EncryptSchedule(keys))
  {
    EncryptMixCount(keys);
    DecryptMixCount(keys);
    MixCountInverse(EncryptSchedule(keys));
    if |keys| == 1 {
      CorrectedDecryptInvertsEncrypt(keys);
      assert DecryptSchedule(keys) == CorrectedDecryptSchedule(keys);
    }
  }
}
