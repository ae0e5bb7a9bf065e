/**
 The block log: blocks with their own position appended after each, an index of those positions, and
 the rebuilding of the index from the log with two bounded buffers.
 */
module BlockLog {
  import opened Results
  import opened Bytes

  const NPOS: nat := 0xFFFF_FFFF_FFFF_FFFF
  const BLKNUM_OFFSET: nat := 14
  const MAX_SUPPORTED_VERSION: nat := 3

  datatype LogError =
    | AppendAtWrongPosition
    | UnsupportedVersion
    | AlreadyAtFirstBlock
    | BadFormat
    | BlockCountMismatch
    | IndexNotWritten
    | WriteFailed
    | WriteBeforeBuffer

  // ---- The file format ----

  /** The file after the header and the given blocks: each block is followed by its start position. */
  function Render(header: seq<Byte>, blocks: seq<seq<Byte>>): (f: seq<Byte>)
    ensures |f| >= |header|
  {
    if blocks == [] then header
    else
      var before := Render(header, blocks[..|blocks| - 1]);
      before + blocks[|blocks| - 1] + LittleEndian(|before|, 8)
  }

  /** The positions at which the blocks start: what plain appends put into the index. */
  function Positions(header: seq<Byte>, blocks: seq<seq<Byte>>): (p: seq<nat>)
    ensures |p| == |blocks|
  {
    if blocks == [] then []
    else Positions(header, blocks[..|blocks| - 1]) + [|Render(header, blocks[..|blocks| - 1])|]
  }

  /** A serialized block: its bytes 14 to 17 hold the number of its parent. */
  predicate BlockBytes(b: seq<Byte>, num: nat)
  {
    |b| >= BLKNUM_OFFSET + 4 && 1 <= num <= 0xFFFF_FFFF && b[BLKNUM_OFFSET..BLKNUM_OFFSET + 4] == BigEndian(num - 1, 4)
  }

  /** Version, first block number unless the version is 1, chain context and, unless the version is 1, the totem. */
  predicate HeaderBytes(header: seq<Byte>, version: nat, first: nat)
  {
    && 1 <= version <= MAX_SUPPORTED_VERSION && 1 <= first <= 0xFFFF_FFFF && |header| >= 8
    && header[..4] == LittleEndian(version, 4)
    && (if version == 1 then first == 1
        else
          && |header| >= 16
          && header[4..8] == LittleEndian(first, 4)
          && header[|header| - 8..] == LittleEndian(NPOS, 8))
  }

  predicate LogBytes(header: seq<Byte>, blocks: seq<seq<Byte>>, version: nat, first: nat)
  {
    && HeaderBytes(header, version, first)
    && (version == 1 ==> blocks != [])
    && (forall i | 0 <= i < |blocks| :: BlockBytes(blocks[i], first + i))
    && |Render(header, blocks)| < NPOS
  }

  lemma {:induction false} RenderPrefix(header: seq<Byte>, blocks: seq<seq<Byte>>, k: nat)
    requires k <= |blocks|
    ensures Render(header, blocks[..k]) <= Render(header, blocks)
    ensures k < |blocks| ==> Positions(header, blocks)[k] == |Render(header, blocks[..k])|
    decreases |blocks|
  {
    if k == |blocks| {
      assert blocks[..k] == blocks;
    } else {
      var front := blocks[..|blocks| - 1];
      assert front[..k] == blocks[..k];
      RenderPrefix(header, front, k);
    }
  }

  function ReadWord(f: seq<Byte>, at: nat): nat
    requires at + 8 <= |f|
  {
    FromLittleEndian(f[at..at + 8])
  }

  lemma SliceOfPrefix(f: seq<Byte>, part: seq<Byte>, lo: nat, hi: nat)
    requires part <= f && lo <= hi <= |part|
    ensures f[lo..hi] == part[lo..hi]
  {
  }

  lemma SliceOfSlice(f: seq<Byte>, at: nat, len: nat, lo: nat, hi: nat)
    requires at + len <= |f| && lo <= hi <= len
    ensures f[at..at + len][lo..hi] == f[at + lo..at + hi]
  {
    var a, b := f[at..at + len][lo..hi], f[at + lo..at + hi];
    assert |a| == |b|;
    forall i | 0 <= i < |a| ensures a[i] == b[i] {
      assert a[i] == f[at..at + len][lo + i] == f[at + lo + i];
    }
  }

  lemma SlicesOfThree(a: seq<Byte>, b: seq<Byte>, c: seq<Byte>)
    ensures (a + b + c)[|a|..|a| + |b|] == b
    ensures (a + b + c)[|a| + |b|..|a| + |b| + |c|] == c
  {
  }

  lemma RenderStep(header: seq<Byte>, blocks: seq<seq<Byte>>, k: nat)
    requires k < |blocks|
    ensures var before := Render(header, blocks[..k]);
      Render(header, blocks[..k + 1]) == before + blocks[k] + LittleEndian(|before|, 8)
  {
    assert blocks[..k + 1][..k] == blocks[..k];
  }

  /** Block k lies at its position, and the word that follows it repeats that position. */
  lemma BlockAt(header: seq<Byte>, blocks: seq<seq<Byte>>, k: nat)
    requires k < |blocks| && |Render(header, blocks)| < NPOS
    ensures var f, pos := Render(header, blocks), |Render(header, blocks[..k])|;
      && Positions(header, blocks)[k] == pos
      && |Render(header, blocks[..k + 1])| == pos + |blocks[k]| + 8 <= |f|
      && f[pos..pos + |blocks[k]|] == blocks[k]
      && ReadWord(f, pos + |blocks[k]|) == pos
  {
    hide Render, LittleEndian, FromLittleEndian;
    var f, before, part := Render(header, blocks), Render(header, blocks[..k]), Render(header, blocks[..k + 1]);
    RenderPrefix(header, blocks, k);
    RenderPrefix(header, blocks, k + 1);
    RenderStep(header, blocks, k);
    var pos, mid := |before|, |before| + |blocks[k]|;
    SlicesOfThree(before, blocks[k], LittleEndian(pos, 8));
    SliceOfPrefix(f, part, pos, mid);
    SliceOfPrefix(f, part, mid, mid + 8);
    assert pos < Pow256(8) by { WordSizes(); }
    LittleEndianRoundTrip(pos, 8);
  }

  /** Below the first block stands the totem, unless the version is 1. */
  lemma WordBeforeBlocks(header: seq<Byte>, blocks: seq<seq<Byte>>, version: nat, first: nat)
    requires HeaderBytes(header, version, first) && version != 1
    ensures |header| <= |Render(header, blocks)| && ReadWord(Render(header, blocks), |header| - 8) == NPOS
  {
    RenderPrefix(header, blocks, 0);
    assert blocks[..0] == [];
    var f := Render(header, blocks);
    assert f[|header| - 8..|header| - 8 + 8] == header[|header| - 8..];
    WordSizes();
    LittleEndianRoundTrip(NPOS, 8);
  }

  // ---- Appending ----

  class Log {
    const header: seq<Byte>
    const firstBlockNum: nat
    var file: seq<Byte>
    var index: seq<nat>
    ghost var blocks: seq<seq<Byte>>

    ghost predicate Valid()
      reads this
    {
      file == Render(header, blocks) && index == Positions(header, blocks)
    }

    /** A log whose header has been written and that holds no block. */
    constructor (header: seq<Byte>, firstBlockNum: nat)
      ensures Valid() && blocks == [] && this.header == header && this.firstBlockNum == firstBlockNum
    {
      this.header, this.firstBlockNum := header, firstBlockNum;
      file, index, blocks := header, [], [];
    }

    /** Appends the block numbered `num`; the index must be exactly as long as the blocks before it. */
    method Append(num: nat, data: seq<Byte>) returns (r: Result<nat, LogError>)
      requires Valid()
      modifies this
      ensures Valid()
      ensures r.Ok? <==> num == firstBlockNum + |old(blocks)|
      ensures r.Ok? ==> r.value == |old(file)| && blocks == old(blocks) + [data]
      ensures r.Err? ==> r.error == AppendAtWrongPosition && blocks == old(blocks)
    {
      var pos := |file|;
      if num < firstBlockNum || 8 * |index| != 8 * (num - firstBlockNum) { return Err(AppendAtWrongPosition); }
      file := file + data;
      file := file + LittleEndian(pos, 8);
      index := index + [pos];
      blocks := blocks + [data];
      assert blocks[..|blocks| - 1] == old(blocks);
      return Ok(pos);
    }

    /** Where the block numbered `num` starts, if it is in the log. */
    method GetBlockPos(num: nat) returns (pos: nat)
      requires Valid() && |file| < NPOS
      ensures pos != NPOS <==> firstBlockNum <= num < firstBlockNum + |blocks|
      ensures pos != NPOS ==>
        var k := num - firstBlockNum;
        pos + |blocks[k]| <= |file| && file[pos..pos + |blocks[k]|] == blocks[k]
    {
      hide Render, LittleEndian, Positions;
      if !(num >= firstBlockNum && num < firstBlockNum + |index|) { return NPOS; }
      var k := num - firstBlockNum;
      pos := index[k];
      BlockAt(header, blocks, k);
    }
  }
}
