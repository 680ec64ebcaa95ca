/** The round operations of 2.0/AESRoundFunc.py on a 4x4 state. A state is
    a list of four rows of four one-byte cells, filled row by row from a
    16-byte block. The eight lookup tables come from a module that is not
    part of this model, so they are a parameter; properties that depend on
    their contents take the needed table facts as hypotheses. */
module RoundFunc {

  import opened Wrappers
  import opened ByteSeq
  import opened Bits

  /** A 256-entry byte lookup table, indexed by a byte value. */
  type Table = t: seq<byte> | |t| == 256 witness seq(256, _ => 0 as byte)

  datatype Tables = Tables(
    subBox: Table, invSubBox: Table,
    gfp2: Table, gfp3: Table,
    gfp9: Table, gfp11: Table, gfp13: Table, gfp14: Table)

  function Look(t: Table, b: byte): byte {
    t[b as int]
  }

  /** `bytes([x ^ y])` for one-byte cells. */
  function XorByte(a: byte, b: byte): (r: byte)
    ensures r as nat == Xor(a as nat, b as nat)
  {
    assert Pow2(8) == 256;
    XorBound(a as nat, b as nat, 8);
    Xor(a as nat, b as nat) as byte
  }

  lemma XorByteCancel(a: byte, b: byte)
    ensures XorByte(XorByte(a, b), b) == a
  {
    XorCancel(a as nat, b as nat);
  }

  type State = seq<seq<byte>>

  /** The 4x4 byte-grid shape every operation checks for. */
  predicate IsGrid(s: State) {
    |s| == 4 && forall i | 0 <= i < 4 :: |s[i]| == 4
  }

  /** A grid built cell by cell. */
  function Grid(f: (int, int) -> byte): (r: State)
    ensures IsGrid(r)
    ensures forall i, j | 0 <= i < 4 && 0 <= j < 4 :: r[i][j] == f(i, j)
  {
    seq(4, i => seq(4, j => f(i, j)))
  }

  /** Two grids with the same cells are the same grid. */
  lemma GridExt(a: State, b: State)
    requires IsGrid(a) && IsGrid(b)
    requires forall i, j | 0 <= i < 4 && 0 <= j < 4 :: a[i][j] == b[i][j]
    ensures a == b
  {
    forall i | 0 <= i < 4
      ensures a[i] == b[i]
    {
      assert forall j | 0 <= j < 4 :: a[i][j] == b[i][j];
    }
  }

  /** `blockToState`: row `i`, column `j` holds byte `4i + j`. */
  function BlockToState(block: seq<byte>): (r: Result<State>)
    ensures r.Ok? <==> |block| == 16
    ensures r.Err? ==> r.error == ValueError
    ensures r.Ok? ==> IsGrid(r.value)
    ensures r.Ok? ==> forall i, j | 0 <= i < 4 && 0 <= j < 4 :: r.value[i][j] == block[4 * i + j]
  {
    if |block| != 16 then Err(ValueError)
    else Ok([block[0..4], block[4..8], block[8..12], block[12..16]])
  }

  /** `stateToBlock`: four rows whose cells join to 16 bytes; a grid is read
      back row by row. */
  function StateToBlock(s: State): (r: Result<seq<byte>>)
    ensures r.Ok? <==> |s| == 4 && |Flatten(s)| == 16
    ensures r.Err? ==> r.error == ValueError
    ensures IsGrid(s) ==> r.Ok? && |r.value| == 16
    ensures IsGrid(s) ==> forall i, j | 0 <= i < 4 && 0 <= j < 4 :: r.value[4 * i + j] == s[i][j]
  {
    if |s| != 4 then Err(ValueError)
    else
      var block := Flatten(s);
      FlattenFour(s);
      if |block| != 16 then Err(ValueError) else Ok(block)
  }

  lemma FlattenFour(s: State)
    requires |s| == 4
    ensures Flatten(s) == s[0] + s[1] + s[2] + s[3]
  {
    var t1, t2, t3 := s[1..], s[2..], s[3..];
    assert t1[1..] == t2 && t2[1..] == t3 && t3[1..] == [];
    assert Flatten(t3) == s[3] + Flatten(t3[1..]);
    assert Flatten(t2) == s[2] + Flatten(t3);
    assert Flatten(t1) == s[1] + Flatten(t2);
  }

  lemma BlockStateBlock(block: seq<byte>)
    requires |block| == 16
    ensures StateToBlock(BlockToState(block).value) == Ok(block)
  {
    var b := StateToBlock(BlockToState(block).value).value;
    var st := BlockToState(block).value;
    forall n | 0 <= n < 16
      ensures b[n] == block[n]
    {
      var i, j := n / 4, n % 4;
      assert n == 4 * i + j;
      assert b[4 * i + j] == st[i][j] == block[4 * i + j];
    }
    assert |b| == 16;
    assert b == block;
  }

  lemma StateBlockState(s: State)
    requires IsGrid(s)
    ensures BlockToState(StateToBlock(s).value) == Ok(s)
  {
    GridExt(BlockToState(StateToBlock(s).value).value, s);
  }

  /** `addRoundKey`: cell-wise XOR of two grids. */
  function AddRoundKey(s: State, key: State): (r: Result<State>)
    ensures r.Ok? <==> IsGrid(s) && IsGrid(key)
    ensures r.Err? ==> r.error == ValueError
    ensures r.Ok? ==> IsGrid(r.value)
    ensures r.Ok? ==> forall i, j | 0 <= i < 4 && 0 <= j < 4 ::
      r.value[i][j] == XorByte(s[i][j], key[i][j])
  {
    if !IsGrid(s) || !IsGrid(key) then Err(ValueError)
    else Ok(Grid((i, j) => if 0 <= i < 4 && 0 <= j < 4 then XorByte(s[i][j], key[i][j]) else 0))
  }

  /** Adding the same round key twice restores the state. */
  lemma AddRoundKeyTwice(s: State, key: State)
    requires IsGrid(s) && IsGrid(key)
    ensures AddRoundKey(AddRoundKey(s, key).value, key) == Ok(s)
  {
    var once := AddRoundKey(s, key).value;
    var twice := AddRoundKey(once, key).value;
    forall i, j | 0 <= i < 4 && 0 <= j < 4
      ensures twice[i][j] == s[i][j]
    {
      XorByteCancel(s[i][j], key[i][j]);
    }
    GridExt(twice, s);
  }

  /** `shiftRows`: row `i` rotated left by `i` places. */
  function ShiftRows(s: State): (r: Result<State>)
    ensures r.Ok? <==> IsGrid(s)
    ensures r.Err? ==> r.error == ValueError
    ensures r.Ok? ==> IsGrid(r.value)
    ensures r.Ok? ==> forall i, j | 0 <= i < 4 && 0 <= j < 4 :: r.value[i][j] == s[i][(j + i) % 4]
  {
    if !IsGrid(s) then Err(ValueError)
    else Ok(seq(4, i requires 0 <= i < 4 => s[i][i..] + s[i][..i]))
  }

  /** `invShiftRows`: row `i` rotated right by `i` places. */
  function InvShiftRows(s: State): (r: Result<State>)
    ensures r.Ok? <==> IsGrid(s)
    ensures r.Err? ==> r.error == ValueError
    ensures r.Ok? ==> IsGrid(r.value)
    ensures r.Ok? ==> forall i, j | 0 <= i < 4 && 0 <= j < 4 :: r.value[i][j] == s[i][(j + 4 - i) % 4]
  {
    if !IsGrid(s) then Err(ValueError)
    else Ok(seq(4, i requires 0 <= i < 4 => s[i][4 - i..] + s[i][..4 - i]))
  }

  lemma ShiftRowsThenInverse(s: State)
    requires IsGrid(s)
    ensures InvShiftRows(ShiftRows(s).value) == Ok(s)
  {
    GridExt(InvShiftRows(ShiftRows(s).value).value, s);
  }

  lemma InverseThenShiftRows(s: State)
    requires IsGrid(s)
    ensures ShiftRows(InvShiftRows(s).value) == Ok(s)
  {
    GridExt(ShiftRows(InvShiftRows(s).value).value, s);
  }

  /** Every cell looked up in one table. */
  function Substitute(table: Table, s: State): (r: State)
    requires IsGrid(s)
    ensures IsGrid(r)
    ensures forall i, j | 0 <= i < 4 && 0 <= j < 4 :: r[i][j] == Look(table, s[i][j])
  {
    Grid((i, j) => if 0 <= i < 4 && 0 <= j < 4 then Look(table, s[i][j]) else 0)
  }

  /** `subBytes` */
  function SubBytes(t: Tables, s: State): (r: Result<State>)
    ensures r.Ok? <==> IsGrid(s)
    ensures r.Err? ==> r.error == ValueError
    ensures r.Ok? ==> IsGrid(r.value)
    ensures r.Ok? ==> forall i, j | 0 <= i < 4 && 0 <= j < 4 :: r.value[i][j] == Look(t.subBox, s[i][j])
  {
    if !IsGrid(s) then Err(ValueError) else Ok(Substitute(t.subBox, s))
  }

  /** `invSubBytes` */
  function InvSubBytes(t: Tables, s: State): (r: Result<State>)
    ensures r.Ok? <==> IsGrid(s)
    ensures r.Err? ==> r.error == ValueError
    ensures r.Ok? ==> IsGrid(r.value)
    ensures r.Ok? ==> forall i, j | 0 <= i < 4 && 0 <= j < 4 :: r.value[i][j] == Look(t.invSubBox, s[i][j])
  {
    if !IsGrid(s) then Err(ValueError) else Ok(Substitute(t.invSubBox, s))
  }

  /** The inverse S-box undoes the S-box (true of the AES tables). */
  predicate SubInverts(t: Tables) {
    forall b: byte :: Look(t.invSubBox, Look(t.subBox, b)) == b
  }

  lemma SubBytesThenInverse(t: Tables, s: State)
    requires IsGrid(s) && SubInverts(t)
    ensures InvSubBytes(t, SubBytes(t, s).value) == Ok(s)
  {
    GridExt(InvSubBytes(t, SubBytes(t, s).value).value, s);
  }

  /** XOR of four bytes, left to right. */
  function Xor4(a: byte, b: byte, c: byte, d: byte): byte {
    XorByte(XorByte(XorByte(a, b), c), d)
  }

  /** Cell `k` of a mixed row, every cell reading the row `a`: the AES
      matrix with rows (2 3 1 1), (1 2 3 1), (1 1 2 3), (3 1 1 2), each
      cell XOR-ed in the order the source writes it. */
  function MixCell(t: Tables, a: seq<byte>, k: nat): byte
    requires |a| == 4 && k < 4
  {
    if k == 0 then Xor4(Look(t.gfp2, a[0]), Look(t.gfp3, a[1]), a[2], a[3])
    else if k == 1 then Xor4(Look(t.gfp2, a[1]), Look(t.gfp3, a[2]), a[0], a[3])
    else if k == 2 then Xor4(Look(t.gfp2, a[2]), Look(t.gfp3, a[3]), a[0], a[1])
    else Xor4(Look(t.gfp2, a[3]), Look(t.gfp3, a[0]), a[1], a[2])
  }

  /** Cell `k` of an inverse-mixed row: the AES matrix with rows
      (14 11 13 9), (9 14 11 13), (13 9 14 11), (11 13 9 14). */
  function InvMixCell(t: Tables, a: seq<byte>, k: nat): byte
    requires |a| == 4 && k < 4
  {
    if k == 0 then Xor4(Look(t.gfp9, a[3]), Look(t.gfp11, a[1]), Look(t.gfp13, a[2]), Look(t.gfp14, a[0]))
    else if k == 1 then Xor4(Look(t.gfp9, a[0]), Look(t.gfp11, a[2]), Look(t.gfp13, a[3]), Look(t.gfp14, a[1]))
    else if k == 2 then Xor4(Look(t.gfp9, a[1]), Look(t.gfp11, a[3]), Look(t.gfp13, a[0]), Look(t.gfp14, a[2]))
    else Xor4(Look(t.gfp9, a[2]), Look(t.gfp11, a[0]), Look(t.gfp13, a[1]), Look(t.gfp14, a[3]))
  }

  /** The row after the source's first `k` assignments of `mixColumns`.
      `state.copy()` is a shallow copy, so each assignment to `state2[i][k]`
      also overwrites `state[i][k]`, and the next cell reads the new value. */
  function MixPrefix(t: Tables, a: seq<byte>, k: nat): (r: seq<byte>)
    requires |a| == 4 && k <= 4
    ensures |r| == 4
    ensures r[k..] == a[k..]
    decreases k
  {
    if k == 0 then a
    else var p := MixPrefix(t, a, k - 1); p[k - 1 := MixCell(t, p, k - 1)]
  }

  /** The same for `invMixColumns`. */
  function InvMixPrefix(t: Tables, a: seq<byte>, k: nat): (r: seq<byte>)
    requires |a| == 4 && k <= 4
    ensures |r| == 4
    ensures r[k..] == a[k..]
    decreases k
  {
    if k == 0 then a
    else var p := InvMixPrefix(t, a, k - 1); p[k - 1 := InvMixCell(t, p, k - 1)]
  }

  /** Later assignments leave the cells already written alone. */
  lemma {:induction false} MixPrefixStable(t: Tables, a: seq<byte>, k: nat, m: nat)
    requires |a| == 4 && k <= m <= 4
    ensures MixPrefix(t, a, m)[..k] == MixPrefix(t, a, k)[..k]
    decreases m - k
  {
    if k < m {
      MixPrefixStable(t, a, k, m - 1);
      var p := MixPrefix(t, a, m - 1);
      UpdateKeepsPrefix(p, m - 1, MixCell(t, p, m - 1), k);
    }
  }

  lemma {:induction false} InvMixPrefixStable(t: Tables, a: seq<byte>, k: nat, m: nat)
    requires |a| == 4 && k <= m <= 4
    ensures InvMixPrefix(t, a, m)[..k] == InvMixPrefix(t, a, k)[..k]
    decreases m - k
  {
    if k < m {
      InvMixPrefixStable(t, a, k, m - 1);
      var p := InvMixPrefix(t, a, m - 1);
      UpdateKeepsPrefix(p, m - 1, InvMixCell(t, p, m - 1), k);
    }
  }

  /** Assigning a cell leaves the cells before it alone. */
  lemma UpdateKeepsPrefix(p: seq<byte>, i: nat, c: byte, k: nat)
    requires k <= i < |p|
    ensures p[i := c][..k] == p[..k]
  {
  }

  /** Cell `k` of the in-place mix is the matrix formula for cell `k` read
      from the row as it stands: new values in cells `0..k-1`, old ones
      from `k` on. */
  lemma MixRowSequential(t: Tables, a: seq<byte>, k: nat)
    requires |a| == 4 && k < 4
    ensures var r := MixRow(t, a); r[k] == MixCell(t, r[..k] + a[k..], k)
  {
    var r := MixRow(t, a);
    var p := MixPrefix(t, a, k);
    MixPrefixStable(t, a, k + 1, 4);
    MixPrefixStable(t, a, k, k + 1);
    assert p == p[..k] + a[k..];
    assert r[..k] == MixPrefix(t, a, k + 1)[..k];
  }

  /** The same for the inverse mix. */
  lemma InvMixRowSequential(t: Tables, a: seq<byte>, k: nat)
    requires |a| == 4 && k < 4
    ensures var r := InvMixRow(t, a); r[k] == InvMixCell(t, r[..k] + a[k..], k)
  {
    var r := InvMixRow(t, a);
    var p := InvMixPrefix(t, a, k);
    InvMixPrefixStable(t, a, k + 1, 4);
    InvMixPrefixStable(t, a, k, k + 1);
    assert p == p[..k] + a[k..];
    assert r[..k] == InvMixPrefix(t, a, k + 1)[..k];
  }

  /** One row of `mixColumns` as the source runs it. */
  function MixRow(t: Tables, a: seq<byte>): (r: seq<byte>)
    requires |a| == 4
    ensures |r| == 4
  {
    MixPrefix(t, a, 4)
  }

  /** One row of `invMixColumns` as the source runs it. */
  function InvMixRow(t: Tables, a: seq<byte>): (r: seq<byte>)
    requires |a| == 4
    ensures |r| == 4
  {
    InvMixPrefix(t, a, 4)
  }

  /** The row mix the formulas describe when every cell reads the old row. */
  function MixRowCopied(t: Tables, a: seq<byte>): (r: seq<byte>)
    requires |a| == 4
    ensures |r| == 4
  {
    seq(4, k requires 0 <= k < 4 => MixCell(t, a, k))
  }

  /** The inverse row mix with every cell reading the old row. */
  function InvMixRowCopied(t: Tables, a: seq<byte>): (r: seq<byte>)
    requires |a| == 4
    ensures |r| == 4
  {
    seq(4, k requires 0 <= k < 4 => InvMixCell(t, a, k))
  }

  /** Applies a row mix to every row of a grid. */
  function MixRows(s: State, mix: seq<byte> --> seq<byte>): (r: State)
    requires IsGrid(s)
    requires forall row | |row| == 4 :: mix.requires(row)
    ensures |r| == 4
    ensures forall i | 0 <= i < 4 :: r[i] == mix(s[i])
  {
    seq(4, i requires 0 <= i < 4 => mix(s[i]))
  }

  /** `mixColumns` */
  function MixColumns(t: Tables, s: State): (r: Result<State>)
    ensures r.Ok? <==> IsGrid(s)
    ensures r.Err? ==> r.error == ValueError
    ensures r.Ok? ==> IsGrid(r.value)
    ensures r.Ok? ==> forall i | 0 <= i < 4 :: r.value[i] == MixRow(t, s[i])
  {
    if !IsGrid(s) then Err(ValueError) else Ok(MixRows(s, row requires |row| == 4 => MixRow(t, row)))
  }

  /** `invMixColumns` */
  function InvMixColumns(t: Tables, s: State): (r: Result<State>)
    ensures r.Ok? <==> IsGrid(s)
    ensures r.Err? ==> r.error == ValueError
    ensures r.Ok? ==> IsGrid(r.value)
    ensures r.Ok? ==> forall i | 0 <= i < 4 :: r.value[i] == InvMixRow(t, s[i])
  {
    if !IsGrid(s) then Err(ValueError) else Ok(MixRows(s, row requires |row| == 4 => InvMixRow(t, row)))
  }

  /** `mixColumns` with `state2` a fresh copy of every row. */
  function MixColumnsCopied(t: Tables, s: State): (r: Result<State>)
    ensures r.Ok? <==> IsGrid(s)
    ensures r.Err? ==> r.error == ValueError
    ensures r.Ok? ==> IsGrid(r.value)
    ensures r.Ok? ==> forall i | 0 <= i < 4 :: r.value[i] == MixRowCopied(t, s[i])
  {
    if !IsGrid(s) then Err(ValueError) else Ok(MixRows(s, row requires |row| == 4 => MixRowCopied(t, row)))
  }

  /** `invMixColumns` with `state2` a fresh copy of every row. */
  function InvMixColumnsCopied(t: Tables, s: State): (r: Result<State>)
    ensures r.Ok? <==> IsGrid(s)
    ensures r.Err? ==> r.error == ValueError
    ensures r.Ok? ==> IsGrid(r.value)
    ensures r.Ok? ==> forall i | 0 <= i < 4 :: r.value[i] == InvMixRowCopied(t, s[i])
  {
    if !IsGrid(s) then Err(ValueError) else Ok(MixRows(s, row requires |row| == 4 => InvMixRowCopied(t, row)))
  }

  /** The inverse AES matrix undoes the forward one on every row (true of
      the AES multiplication tables). */
  ghost predicate MixInverts(t: Tables) {
    forall a: seq<byte> | |a| == 4 :: InvMixRowCopied(t, MixRowCopied(t, a)) == a
  }

  /** The copied inverse mix undoes the copied mix on every grid. */
  lemma MixColumnsCopiedThenInverse(t: Tables, s: State)
    requires IsGrid(s) && MixInverts(t)
    ensures InvMixColumnsCopied(t, MixColumnsCopied(t, s).value) == Ok(s)
  {
    var mixed := MixColumnsCopied(t, s).value;
    var back := InvMixColumnsCopied(t, mixed).value;
    forall i | 0 <= i < 4
      ensures back[i] == s[i]
    {
      assert mixed[i] == MixRowCopied(t, s[i]);
      assert back[i] == InvMixRowCopied(t, mixed[i]);
    }
    assert |back| == 4 && |s| == 4;
    assert back == s;
  }

  /** The in-place mix is not the matrix mix: with the AES table entries
      2*0 = 3*0 = 0 and 2*1 = 2, the row (1, 0, 0, 0) mixes to (2, 2, ...)
      in place but to (2, 1, 1, 3) with a copy. */
  lemma MixRowInPlaceDiffers(t: Tables)
    requires Look(t.gfp2, 0) == 0 && Look(t.gfp3, 0) == 0 && Look(t.gfp2, 1) == 2
    ensures MixRow(t, [1, 0, 0, 0])[1] == 2
    ensures MixRowCopied(t, [1, 0, 0, 0])[1] == 1
    ensures MixRow(t, [1, 0, 0, 0]) != MixRowCopied(t, [1, 0, 0, 0])
  {
    var a: seq<byte> := [1, 0, 0, 0];
    var r := MixRow(t, a);
    Xor4OneCell(2);
    Xor4OneCell(1);
    MixRowSequential(t, a, 0);
    assert r[0] == Xor4(2, 0, 0, 0);
    MixRowSequential(t, a, 1);
    assert r[..1] + a[1..] == [2, 0, 0, 0];
    assert r[1] == Xor4(0, 0, 2, 0);
    assert MixRowCopied(t, a)[1] == Xor4(0, 0, 1, 0);
  }

  /** XOR-ing zeros into a value leaves it alone. */
  lemma Xor4OneCell(x: byte)
    ensures Xor4(x, 0, 0, 0) == x
    ensures Xor4(0, 0, x, 0) == x
  {
    XorZero(x as nat);
    XorZero(0);
    ZeroXor(x as nat);
  }
}
