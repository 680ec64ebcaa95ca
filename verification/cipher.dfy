/** `encrypt` and `decrypt` of 2.0/AES.py: zero padding to 16 bytes, the
    message cut into 16-byte blocks, each block run through the round
    schedule on its own, and the results joined. */
module Cipher {

  import opened Wrappers
  import opened ByteSeq
  import opened Padding
  import opened RoundFunc
  import opened Schedule

  /** The cipher as the source writes it, or with its two defects repaired:
      rows mixed from a copy of the old row, and the decryption loop
      starting where encryption's middle rounds end. */
  datatype Version = AsWritten | Corrected

  function MixingOf(v: Version): Mixing {
    if v == AsWritten then InPlace else Copied
  }

  function DecryptSteps(v: Version, keys: seq<seq<byte>>): seq<Step>
    requires |keys| >= 1
  {
    if v == AsWritten then DecryptSchedule(keys) else CorrectedDecryptSchedule(keys)
  }

  /** One pass of `encrypt`'s block loop. The block is converted before
      `roundKeys[0]` is read, so a missing key shows up as IndexError only
      for a 16-byte block. */
  function EncryptBlock(t: Tables, v: Version, keys: seq<seq<byte>>, block: seq<byte>): (r: Result<seq<byte>>)
    ensures r.Ok? <==> |block| == 16 && |keys| >= 1 && KeysWellFormed(keys)
    ensures r.Err? ==> (r.error == IndexError <==> |block| == 16 && |keys| == 0)
    ensures r.Err? ==> r.error == IndexError || r.error == ValueError
    ensures r.Ok? ==> |r.value| == 16
  {
    var s :- BlockToState(block);
    if |keys| == 0 then Err(IndexError)
    else
      SchedulesUseEveryKey(keys);
      var out :- Run(t, MixingOf(v), EncryptSchedule(keys), s);
      StateToBlock(out)
  }

  /** One pass of `decrypt`'s block loop, with `roundKeys[-1]` read after
      the block is converted. */
  function DecryptBlock(t: Tables, v: Version, keys: seq<seq<byte>>, block: seq<byte>): (r: Result<seq<byte>>)
    ensures r.Ok? <==> |block| == 16 && |keys| >= 1 && KeysWellFormed(keys)
    ensures r.Err? ==> (r.error == IndexError <==> |block| == 16 && |keys| == 0)
    ensures r.Err? ==> r.error == IndexError || r.error == ValueError
    ensures r.Ok? ==> |r.value| == 16
  {
    var s :- BlockToState(block);
    if |keys| == 0 then Err(IndexError)
    else
      SchedulesUseEveryKey(keys);
      var out :- Run(t, MixingOf(v), DecryptSteps(v, keys), s);
      StateToBlock(out)
  }

  /** A block loop: every block through `f` in order, the first error
      ending the loop. */
  function MapBlocks(f: seq<byte> -> Result<seq<byte>>, blocks: seq<seq<byte>>): (r: Result<seq<seq<byte>>>)
    ensures r.Ok? <==> forall k | 0 <= k < |blocks| :: f(blocks[k]).Ok?
    ensures r.Ok? ==> |r.value| == |blocks|
    ensures r.Ok? ==> forall k | 0 <= k < |blocks| :: r.value[k] == f(blocks[k]).value
    ensures r.Err? ==> exists k | 0 <= k < |blocks| ::
      f(blocks[k]).Err? && r.error == f(blocks[k]).error && forall j | 0 <= j < k :: f(blocks[j]).Ok?
    decreases |blocks|
  {
    if |blocks| == 0 then Ok([])
    else
      var head :- f(blocks[0]);
      var rest := MapBlocks(f, blocks[1..]);
      assert forall k | 1 <= k < |blocks| :: blocks[1..][k - 1] == blocks[k];
      if rest.Err? then
        var k :| 0 <= k < |blocks| - 1 && f(blocks[1..][k]).Err? && rest.error == f(blocks[1..][k]).error
          && forall j | 0 <= j < k :: f(blocks[1..][j]).Ok?;
        assert f(blocks[k + 1]).Err? && forall j | 0 <= j < k + 1 :: f(blocks[j]).Ok?;
        Err(rest.error)
      else
        Ok([head] + rest.value)
  }

  /** `encrypt(msg, roundKeys)`. */
  function Encrypt(t: Tables, v: Version, msg: seq<byte>, keys: seq<seq<byte>>): (r: Result<seq<byte>>)
    ensures r.Ok? <==> |keys| >= 1 && KeysWellFormed(keys)
    ensures r.Err? ==> (r.error == IndexError <==> |keys| == 0)
    ensures r.Err? ==> r.error == IndexError || r.error == ValueError
    ensures r.Ok? ==> |r.value| == |AddPadding(msg, 16)|
  {
    var padded := AddPadding(msg, 16);
    var blocks := Chunks(padded, 16);
    ChunksAligned(padded, 16);
    assert |blocks| >= 1 && |blocks[0]| == 16;
    var parts :- MapBlocks(b => EncryptBlock(t, v, keys, b), blocks);
    FlattenLength(parts, 16);
    Ok(Flatten(parts))
  }

  /** `decrypt(cipherMsg, roundKeys)`: the blocks are cut as the source
      slices them, so a short last block fails its conversion, and nothing
      fails for an empty input. */
  function Decrypt(t: Tables, v: Version, c: seq<byte>, keys: seq<seq<byte>>): (r: Result<seq<byte>>)
    ensures r.Ok? <==> |c| % 16 == 0 && (|c| == 0 || (|keys| >= 1 && KeysWellFormed(keys)))
    ensures |c| == 0 ==> r == Ok([])
    ensures r.Err? ==> (r.error == IndexError <==> |c| >= 16 && |keys| == 0)
    ensures r.Err? ==> r.error == IndexError || r.error == ValueError
    ensures r.Ok? ==> |r.value| <= |c| && (|r.value| == 0 || r.value[|r.value| - 1] != 0)
  {
    var parts :- DecryptBlocks(t, v, keys, c);
    Unpadded(Flatten(parts), c);
    Ok(RemovePadding(Flatten(parts)))
  }

  /** The block loop of `decrypt`: it succeeds exactly when the input is
      whole blocks and, unless it is empty, the keys are well formed; it
      fails with IndexError exactly when there are no keys and a first block
      of 16 bytes, and with ValueError otherwise; its joined output is as
      long as the input, and empty for an empty input. */
  function DecryptBlocks(t: Tables, v: Version, keys: seq<seq<byte>>, c: seq<byte>): (r: Result<seq<seq<byte>>>)
    ensures r.Ok? <==> |c| % 16 == 0 && (|c| == 0 || (|keys| >= 1 && KeysWellFormed(keys)))
    ensures r.Err? ==> (r.error == IndexError <==> |c| >= 16 && |keys| == 0)
    ensures r.Err? ==> r.error == IndexError || r.error == ValueError
    ensures r.Ok? ==> |Flatten(r.value)| == |c|
    ensures |c| == 0 ==> r == Ok([])
  {
    var f := b => DecryptBlock(t, v, keys, b);
    forall k | 0 <= k < |Chunks(c, 16)|
      ensures BlockOutcome(keys, Chunks(c, 16)[k], f(Chunks(c, 16)[k]))
    {
    }
    BlockLoop(keys, c, f);
    MapBlocks(f, Chunks(c, 16))
  }

  /** Stripping the padding from the joined blocks of `c` leaves at most
      `|c|` bytes, none of them a trailing zero, and nothing when `c` is empty. */
  lemma Unpadded(joined: seq<byte>, c: seq<byte>)
    requires |joined| == |c|
    ensures var out := RemovePadding(joined);
      |out| <= |c| && (|out| == 0 || out[|out| - 1] != 0) && (|c| == 0 ==> out == [])
  {
  }

  /** What decrypting one block can give, as `DecryptBlock` promises: success
      exactly for a 16-byte block and well-formed keys, giving 16 bytes;
      IndexError exactly for a 16-byte block and no keys; ValueError
      otherwise. */
  predicate BlockOutcome(keys: seq<seq<byte>>, block: seq<byte>, r: Result<seq<byte>>) {
    && (r.Ok? <==> |block| == 16 && |keys| >= 1 && KeysWellFormed(keys))
    && (r.Err? ==> (r.error == IndexError <==> |block| == 16 && |keys| == 0))
    && (r.Err? ==> r.error == IndexError || r.error == ValueError)
    && (r.Ok? ==> |r.value| == 16)
  }

  /** A block loop over the input cut every 16 bytes, `f` decrypting one
      block as `DecryptBlock` promises: it succeeds exactly when the input
      is whole blocks and, unless it is empty, the keys are well formed; it
      fails with IndexError exactly when there are no keys and a first block
      of 16 bytes; and its joined output is as long as the input. */
  lemma BlockLoop(keys: seq<seq<byte>>, c: seq<byte>, f: seq<byte> -> Result<seq<byte>>)
    requires forall k | 0 <= k < |Chunks(c, 16)| :: BlockOutcome(keys, Chunks(c, 16)[k], f(Chunks(c, 16)[k]))
    ensures var r := MapBlocks(f, Chunks(c, 16));
      && (r.Ok? <==> |c| % 16 == 0 && (|c| == 0 || (|keys| >= 1 && KeysWellFormed(keys))))
      && (r.Err? ==> (r.error == IndexError <==> |c| >= 16 && |keys| == 0))
      && (r.Err? ==> r.error == IndexError || r.error == ValueError)
      && (r.Ok? ==> |Flatten(r.value)| == |c|)
      && (|c| == 0 ==> r == Ok([]))
  {
    var blocks := Chunks(c, 16);
    var r := MapBlocks(f, blocks);
    if |c| % 16 == 0 && (|c| == 0 || (|keys| >= 1 && KeysWellFormed(keys))) {
      ChunksAligned(c, 16);
      forall k | 0 <= k < |blocks|
        ensures f(blocks[k]).Ok?
      {
        assert |blocks[k]| == 16 && |c| > 0;
      }
      FlattenLength(r.value, 16);
      FlattenLength(blocks, 16);
    } else {
      var bad := 0;
      if |c| % 16 != 0 {
        ChunkLast(c, 16);
        bad := |blocks| - 1;
      } else {
        FirstBlock(c, 16);
      }
      assert BlockOutcome(keys, blocks[bad], f(blocks[bad]));
      assert !r.Ok?;
      BlockLoopError(keys, c, f);
    }
  }

  /** How such a block loop fails: IndexError exactly when there are no
      keys and a first block of 16 bytes, ValueError otherwise. */
  lemma BlockLoopError(keys: seq<seq<byte>>, c: seq<byte>, f: seq<byte> -> Result<seq<byte>>)
    requires forall k | 0 <= k < |Chunks(c, 16)| :: BlockOutcome(keys, Chunks(c, 16)[k], f(Chunks(c, 16)[k]))
    requires MapBlocks(f, Chunks(c, 16)).Err?
    ensures MapBlocks(f, Chunks(c, 16)).error == IndexError <==> |c| >= 16 && |keys| == 0
    ensures MapBlocks(f, Chunks(c, 16)).error in {IndexError, ValueError}
  {
    var blocks := Chunks(c, 16);
    var r := MapBlocks(f, blocks);
    var k :| 0 <= k < |blocks| && f(blocks[k]).Err? && r.error == f(blocks[k]).error
      && forall j | 0 <= j < k :: f(blocks[j]).Ok?;
    FirstBlock(c, 16);
    if |c| >= 16 && |keys| == 0 {
      assert f(blocks[0]).Err?;
    } else if |c| < 16 {
      assert k == 0 && |blocks[0]| == |c|;
    }
  }

  /** Every block of the decryption loop succeeds exactly when the input
      is whole blocks and, unless it is empty, the keys are well formed. */
  lemma DecryptLoopOk(t: Tables, v: Version, keys: seq<seq<byte>>, c: seq<byte>)
    ensures (forall k | 0 <= k < |Chunks(c, 16)| :: DecryptBlock(t, v, keys, Chunks(c, 16)[k]).Ok?) <==>
      |c| % 16 == 0 && (|c| == 0 || (|keys| >= 1 && KeysWellFormed(keys)))
  {
    var blocks := Chunks(c, 16);
    ChunksShort(c, 16);
    FirstBlock(c, 16);
    if |c| > 0 && forall k | 0 <= k < |blocks| :: DecryptBlock(t, v, keys, blocks[k]).Ok? {
      assert DecryptBlock(t, v, keys, blocks[0]).Ok?;
    }
  }

  /** Encryption is block by block: block `k` of the output is block `k` of
      the padded message encrypted on its own. */
  lemma EncryptBlockwise(t: Tables, v: Version, keys: seq<seq<byte>>, msg: seq<byte>)
    requires |keys| >= 1 && KeysWellFormed(keys)
    ensures var blocks := Chunks(AddPadding(msg, 16), 16);
      var out := Chunks(Encrypt(t, v, msg, keys).value, 16);
      |out| == |blocks| && forall k | 0 <= k < |blocks| :: out[k] == EncryptBlock(t, v, keys, blocks[k]).value
  {
    var padded := AddPadding(msg, 16);
    var blocks := Chunks(padded, 16);
    ChunksAligned(padded, 16);
    var parts := MapBlocks(b => EncryptBlock(t, v, keys, b), blocks).value;
    assert Encrypt(t, v, msg, keys) == Ok(Flatten(parts));
    ChunksOfFlatten(parts, 16);
  }

  /** Decryption works block by block: each 16-byte block of the input is
      decrypted on its own, the results are joined in order, and the zero
      padding is removed from the end of the join. */
  lemma DecryptBlockwise(t: Tables, v: Version, keys: seq<seq<byte>>, c: seq<byte>) returns (ps: seq<seq<byte>>)
    requires |c| % 16 == 0 && (|c| == 0 || (|keys| >= 1 && KeysWellFormed(keys)))
    ensures |ps| == |Chunks(c, 16)|
    ensures forall k | 0 <= k < |ps| :: DecryptBlock(t, v, keys, Chunks(c, 16)[k]) == Ok(ps[k])
    ensures Decrypt(t, v, c, keys) == Ok(RemovePadding(Flatten(ps)))
  {
    var blocks := Chunks(c, 16);
    var f := b => DecryptBlock(t, v, keys, b);
    ChunksAligned(c, 16);
    forall k | 0 <= k < |blocks|
      ensures f(blocks[k]).Ok?
    {
      assert |blocks[k]| == 16 && |c| > 0;
    }
    var m := MapBlocks(f, blocks);
    ps := m.value;
    assert Decrypt(t, v, c, keys) == Ok(RemovePadding(Flatten(ps)));
  }

  /** The tables and keys under which a version's decryption undoes its
      encryption: the S-box must be inverted by the inverse S-box, and the
      copied mix by the copied inverse mix. With a single round key neither
      version mixes, so the source as written qualifies. */
  ghost predicate Invertible(t: Tables, v: Version, keys: seq<seq<byte>>) {
    |keys| >= 1 && KeysWellFormed(keys) && SubInverts(t) &&
    (|keys| == 1 || (v == Corrected && MixInverts(t)))
  }

  /** Decrypting an encrypted block gives the block back. */
  lemma BlockRoundTrip(t: Tables, v: Version, keys: seq<seq<byte>>, block: seq<byte>)
    requires Invertible(t, v, keys) && |block| == 16
    ensures EncryptBlock(t, v, keys, block).Ok?
    ensures DecryptBlock(t, v, keys, EncryptBlock(t, v, keys, block).value) == Ok(block)
  {
    var steps := EncryptSchedule(keys);
    SchedulesUseEveryKey(keys);
    var s := BlockToState(block).value;
    EncryptMixCount(keys);
    RunThenInverse(t, steps, s);
    var e := Run(t, MixingOf(v), steps, s).value;
    if |keys| == 1 {
      DecryptMixesOnceTooOften(keys);
      MixCountInverse(steps);
      RunWithoutMixes(t, steps, s);
      RunWithoutMixes(t, Inverse(steps), e);
    }
    CorrectedDecryptInvertsEncrypt(keys);
    assert DecryptSteps(v, keys) == Inverse(steps);
    assert Run(t, MixingOf(v), Inverse(steps), e) == Ok(s);
    var out := StateToBlock(e).value;
    StateBlockState(e);
    BlockStateBlock(block);
  }

  /** Decryption recovers the message up to its trailing zero bytes, which
      the padding cannot tell apart from padding. */
  lemma RoundTrip(t: Tables, v: Version, keys: seq<seq<byte>>, msg: seq<byte>)
    requires Invertible(t, v, keys)
    ensures Encrypt(t, v, msg, keys).Ok?
    ensures Decrypt(t, v, Encrypt(t, v, msg, keys).value, keys) == Ok(RemovePadding(msg))
  {
    var padded := AddPadding(msg, 16);
    var blocks := Chunks(padded, 16);
    ChunksAligned(padded, 16);
    var enc := b => EncryptBlock(t, v, keys, b);
    var dec := b => DecryptBlock(t, v, keys, b);
    var parts := MapBlocks(enc, blocks).value;
    var c := Flatten(parts);
    assert Encrypt(t, v, msg, keys) == Ok(c);
    ChunksOfFlatten(parts, 16);
    forall k | 0 <= k < |parts|
      ensures dec(parts[k]) == Ok(blocks[k])
    {
      BlockRoundTrip(t, v, keys, blocks[k]);
    }
    var back := MapBlocks(dec, parts).value;
    assert back == blocks;
    PadThenStrip(msg, 16);
  }

  /** A message that does not end in a zero byte comes back unchanged. */
  lemma RoundTripExact(t: Tables, v: Version, keys: seq<seq<byte>>, msg: seq<byte>)
    requires Invertible(t, v, keys)
    requires |msg| == 0 || msg[|msg| - 1] != 0
    ensures Decrypt(t, v, Encrypt(t, v, msg, keys).value, keys) == Ok(msg)
  {
    RoundTrip(t, v, keys, msg);
    RemovePaddingUnique(msg, msg);
  }
}
