/** Rebuilding the index: a buffered backward scan of the log feeds a buffered backward writer. */
module BlockLogIndex {
  import opened Results
  import opened Bytes
  import opened BlockLog

  const TWO64: nat := 0x1_0000_0000_0000_0000

  // ---- The scan ----

  class ReverseIterator {
    const file: seq<Byte>
    const buffer: array<Byte>
    var version: nat
    var firstBlockNum: nat
    var lastBlockNum: nat
    var blocksFound: nat
    var blocksExpected: nat
    var current: nat
    var start: nat
    var end: nat

    /** The buffer mirrors the bytes from `start` to `end` of the file. */
    ghost predicate Buffered()
      reads this, buffer
    {
      && start <= end <= |file| && end - start <= buffer.Length && buffer.Length >= 8
      && forall i | 0 <= i < end - start :: buffer[i] == file[start + i]
    }

    /** `k` blocks of the log are still to be reported; the cursor stands at the word after the last of them. */
    ghost predicate Scanning(header: seq<Byte>, blocks: seq<seq<Byte>>, k: nat)
      reads this, buffer
    {
      && file == Render(header, blocks) && LogBytes(header, blocks, version, firstBlockNum) && k <= |blocks|
      && blocksExpected == |blocks| && blocksFound == |blocks| - k
      && current + 8 == |Render(header, blocks[..k])|
      && Buffered() && current + 8 <= end
    }

    constructor (file: seq<Byte>, bufLen: nat)
      requires bufLen >= 8
      ensures this.file == file && buffer.Length == bufLen && fresh(buffer)
      ensures start == end == 0
    {
      this.file := file;
      buffer := new Byte[bufLen](_ => 0);
      version, firstBlockNum, lastBlockNum, blocksFound, blocksExpected := 0, 0, 0, 0, 0;
      current, start, end := 0, 0, 0;
    }

    /** Reads the part of the file that ends with the word at the cursor. */
    method UpdateBuffer()
      requires current + 8 <= |file| && buffer.Length >= 8
      modifies this`start, this`end, buffer
      ensures Buffered() && end == current + 8 && start <= current
    {
      end := current + 8;
      if end < buffer.Length {
        start := 0;
      } else {
        start := end - buffer.Length;
      }
      for i := 0 to end - start
        invariant start <= end <= |file| && end - start <= buffer.Length && end == current + 8
        invariant forall j | 0 <= j < i :: buffer[j] == file[start + j]
        modifies buffer
      {
        buffer[i] := file[start + i];
      }
    }

    method WordAtCursor() returns (w: nat)
      requires Buffered() && start <= current && current + 8 <= end
      ensures w == ReadWord(file, current)
    {
      hide FromLittleEndian;
      var offset := current - start;
      assert buffer[offset..offset + 8] == file[current..current + 8];
      w := FromLittleEndian(buffer[offset..offset + 8]);
    }

    /** Reads the header and the last block; reports how many blocks the log holds. */
    method Open(ghost header: seq<Byte>, ghost blocks: seq<seq<Byte>>, ghost v: nat, ghost first: nat)
      returns (r: Result<nat, LogError>)
      requires file == Render(header, blocks) && LogBytes(header, blocks, v, first) && buffer.Length >= 8
      modifies this, buffer
      ensures r == Ok(|blocks|)
      ensures blocks != [] ==> Scanning(header, blocks, |blocks|)
    {
      hide LittleEndian, FromLittleEndian, BigEndian, Render, Positions, FromBigEndian;
      HeaderFields(header, blocks, v, first);
      version := FromLittleEndian(file[..4]);
      if !(1 <= version <= MAX_SUPPORTED_VERSION) { return Err(UnsupportedVersion); }
      if version == 1 {
        firstBlockNum := 1;
      } else {
        firstBlockNum := FromLittleEndian(file[4..8]);
      }
      current := |file| - 8;
      UpdateBuffer();
      blocksFound := 0;
      var blockPos := WordAtCursor();
      assert blocks[..|blocks|] == blocks;
      if blocks == [] {
        WordBeforeBlocks(header, blocks, v, first);
        EmptyRender(header);
      } else {
        BlockAt(header, blocks, |blocks| - 1);
        LastNumber(header, blocks, v, first);
      }
      if blockPos == NPOS { return Ok(0); }
      var bnum: seq<Byte>;
      if blockPos >= start {
        var at := blockPos - start + BLKNUM_OFFSET;
        bnum := buffer[at..at + 4];
        assert bnum == file[blockPos + BLKNUM_OFFSET..blockPos + BLKNUM_OFFSET + 4];
      } else {
        bnum := file[blockPos + BLKNUM_OFFSET..blockPos + BLKNUM_OFFSET + 4];
      }
      lastBlockNum := FromBigEndian(bnum) + 1;
      blocksExpected := lastBlockNum - firstBlockNum + 1;
      return Ok(blocksExpected);
    }

    /** The start of the next block towards the front, or NPOS after the first one. */
    method Previous(ghost header: seq<Byte>, ghost blocks: seq<seq<Byte>>, ghost k: nat)
      returns (r: Result<nat, LogError>)
      requires Scanning(header, blocks, k) && blocks != []
      modifies this`current, this`start, this`end, this`blocksFound, buffer
      ensures k > 0 ==> r == Ok(Positions(header, blocks)[k - 1]) && r.value != NPOS && Scanning(header, blocks, k - 1)
      ensures k == 0 ==> r == Ok(NPOS) && current == NPOS
    {
      hide LittleEndian, FromLittleEndian, BigEndian, Render, Positions, LogBytes;
      ScanFacts(header, blocks, k, version, firstBlockNum);
      if current == NPOS { return Err(AlreadyAtFirstBlock); }
      if version == 1 && blocksFound == blocksExpected {
        current := NPOS;
        return Ok(NPOS);
      }
      if start > current {
        UpdateBuffer();
      }
      var location := WordAtCursor();
      blocksFound := blocksFound + 1;
      if location == NPOS {
        current := location;
        if blocksFound == blocksExpected { return Err(BlockCountMismatch); }
      } else {
        var previous := current;
        current := (location + TWO64 - 8) % TWO64;
        if current >= previous { return Err(BadFormat); }
      }
      return Ok(location);
    }
  }

  lemma EmptyRender(header: seq<Byte>)
    ensures Render(header, []) == header
  {
  }

  lemma HeaderFields(header: seq<Byte>, blocks: seq<seq<Byte>>, v: nat, first: nat)
    requires HeaderBytes(header, v, first)
    ensures var f := Render(header, blocks);
      && |f| >= |header| >= 8 && FromLittleEndian(f[..4]) == v && (v != 1 ==> FromLittleEndian(f[4..8]) == first)
  {
    hide LittleEndian, FromLittleEndian, Render;
    RenderPrefix(header, blocks, 0);
    assert blocks[..0] == [];
    EmptyRender(header);
    var f := Render(header, blocks);
    SliceOfPrefix(f, header, 0, 4);
    SliceOfPrefix(f, header, 4, 8);
    assert f[..4] == f[0..4] && header[..4] == header[0..4];
    WordSizes();
    LittleEndianRoundTrip(v, 4);
    LittleEndianRoundTrip(first, 4);
  }

  /** The parent number stored in the last block determines how many blocks there are. */
  lemma LastNumber(header: seq<Byte>, blocks: seq<seq<Byte>>, v: nat, first: nat)
    requires LogBytes(header, blocks, v, first) && blocks != []
    ensures var f, pos := Render(header, blocks), |Render(header, blocks[..|blocks| - 1])|;
      && pos + BLKNUM_OFFSET + 4 + 8 <= |f|
      && FromBigEndian(f[pos + BLKNUM_OFFSET..pos + BLKNUM_OFFSET + 4]) + 1 == first + |blocks| - 1
  {
    hide LittleEndian, FromLittleEndian, BigEndian, Render, FromBigEndian, Positions;
    var k := |blocks| - 1;
    BlockAt(header, blocks, k);
    assert blocks[..k + 1] == blocks;
    var f, pos, b := Render(header, blocks), |Render(header, blocks[..k])|, blocks[k];
    assert BlockBytes(b, first + k);
    SliceOfSlice(f, pos, |b|, BLKNUM_OFFSET, BLKNUM_OFFSET + 4);
    WordSizes();
    BigEndianRoundTrip(first + k - 1, 4);
  }

  /** What the word at the cursor says. */
  lemma ScanFacts(header: seq<Byte>, blocks: seq<seq<Byte>>, k: nat, v: nat, first: nat)
    requires LogBytes(header, blocks, v, first) && k <= |blocks| && blocks != []
    ensures var f, end := Render(header, blocks), |Render(header, blocks[..k])|;
      && 8 <= end <= |f| < NPOS
      && (k > 0 ==>
            && ReadWord(f, end - 8) == |Render(header, blocks[..k - 1])| == Positions(header, blocks)[k - 1]
            && 8 <= |Render(header, blocks[..k - 1])| < end)
      && (k == 0 && v != 1 ==> ReadWord(f, end - 8) == NPOS)
  {
    hide LittleEndian, FromLittleEndian, Positions, Render;
    RenderPrefix(header, blocks, k);
    if k > 0 {
      BlockAt(header, blocks, k - 1);
    } else {
      assert blocks[..0] == [];
      EmptyRender(header);
      if v != 1 { WordBeforeBlocks(header, blocks, v, first); }
    }
  }

  // ---- The writer ----

  /** Shift of a 32-bit word count to a byte offset: bits above the 32nd are lost. */
  function FileLocation(words: nat): nat
  {
    words * 8 % 0x1_0000_0000
  }

  function BufferLocation(bytes: nat): nat
  {
    bytes / 8
  }

  const TWO32: nat := 0x1_0000_0000
  const MAX_WORDS: nat := 0x2000_0000

  /** The shifts are exact, and undo each other, exactly below 2^29 words; above, the multiples of 2^29 are lost. */
  lemma LocationsAreExact(words: nat)
    ensures FileLocation(words) == words * 8 <==> words < MAX_WORDS
    ensures BufferLocation(FileLocation(words)) == words % MAX_WORDS
  {
  }

  /** The file after writing `data` from word `at` on; a gap before it reads as zeros. */
  function WriteAt(file: seq<nat>, at: nat, data: seq<nat>): (r: seq<nat>)
    ensures |r| == if |file| < at + |data| then at + |data| else |file|
    ensures forall i | 0 <= i < |r| ::
      r[i] == if at <= i < at + |data| then data[i - at] else if i < |file| then file[i] else 0
  {
    seq(if |file| < at + |data| then at + |data| else |file|,
        i => if at <= i < at + |data| then data[i - at] else if 0 <= i < |file| then file[i] else 0)
  }

  class IndexWriter {
    const expected: nat
    const buffer: array<nat>
    var isOpen: bool
    var file: seq<nat>
    var current: int
    var start: int
    var end: int

    /** Where a buffer that ends at `end` starts. */
    function StartOf(end: int): int
    {
      if end < buffer.Length then 0 else end - buffer.Length
    }

    /**
     Words above the cursor hold the target values: in the file from `end` on, in the buffer below. There is room for as
     many words as the shifts leave of the expected number.
     */
    ghost predicate Writing(target: seq<nat>, k: nat)
      reads this, buffer
    {
      && 0 < |target| == expected % MAX_WORDS && buffer.Length > 0 && k <= |target|
      && if !isOpen then k == |target| && start == end == 0 && current == 0
         else
           && current == k - 1 && 0 <= start <= current + 1 <= end <= |target| && end > 0
           && start == StartOf(end)
           && (forall j | k <= j < end :: buffer[j - start] == target[j])
           && (end < |target| ==> |file| == |target|)
           && (end == |target| ==> file == [])
           && (forall j | end <= j < |file| :: file[j] == target[j])
    }

    /**
     The shifts leave nothing of the expected number: the cursor starts at the largest 32-bit number and goes down by
     the words written, of which `k` are still to come. A buffer whose size the shifts lose is never written out.
     */
    ghost predicate Wrapped(k: nat)
      reads this, buffer
    {
      && 0 < expected < TWO32 && expected % MAX_WORDS == 0 && buffer.Length > 0 && k <= expected
      && if !isOpen then k == expected && start == end == 0 && current == 0
         else
           && current == TWO32 - 1 - (expected - k) && 0 <= start <= current + 1 <= end <= TWO32
           && start == StartOf(end) && (buffer.Length % MAX_WORDS == 0 ==> end == TWO32)
    }

    /** With `k` words to come: of the target, or of all that are expected when there is no room for any. */
    ghost predicate InProgress(target: seq<nat>, k: nat)
      reads this, buffer
    {
      if target == [] then Wrapped(k) else Writing(target, k)
    }

    /** The cursor has left a buffer whose size the shifts lose. */
    ghost predicate Unwritable(target: seq<nat>, k: nat)
    {
      target == [] && buffer.Length % MAX_WORDS == 0 && expected >= k + buffer.Length
    }

    constructor (expected: nat, bufferWords: nat)
      requires bufferWords > 0 && 0 < expected < TWO32
      ensures this.expected == expected && buffer.Length == bufferWords && fresh(buffer) && !isOpen
      ensures forall target: seq<nat> | |target| == expected % MAX_WORDS ::
        InProgress(target, if target == [] then expected else |target|)
    {
      this.expected := expected;
      buffer := new nat[bufferWords](_ => 0);
      isOpen, file, current, start, end := false, [], 0, 0, 0;
    }

    method UpdateBufferPosition()
      requires current >= -1
      modifies this`start, this`end
      ensures end == current + 1
      ensures start == StartOf(end)
    {
      end := current + 1;
      if end < buffer.Length {
        start := 0;
      } else {
        start := end - buffer.Length;
      }
    }

    /** Writes the buffer out, where the shifts put it, once the cursor has passed below it; an empty write fails. */
    method ShiftBuffer() returns (r: Result<bool, LogError>)
      requires 0 <= start <= end && end - start <= buffer.Length && current >= -1
      modifies this`start, this`end, this`file
      ensures r == if current >= old(start) then Ok(false)
                   else if (old(end) - old(start)) % MAX_WORDS == 0 then Err(WriteFailed)
                   else Ok(true)
      ensures current >= old(start) ==> start == old(start) && end == old(end) && file == old(file)
      ensures r == Ok(true) ==>
        && file == WriteAt(old(file), old(start) % MAX_WORDS, buffer[..(old(end) - old(start)) % MAX_WORDS])
        && end == current + 1 && start == StartOf(end)
    {
      if current >= start { return Ok(false); }
      LocationsAreExact(start);
      LocationsAreExact(end - start);
      var at := BufferLocation(FileLocation(start));
      var size := BufferLocation(FileLocation(end - start));
      if size == 0 { return Err(WriteFailed); }
      file := WriteAt(file, at, buffer[..size]);
      UpdateBufferPosition();
      return Ok(true);
    }

    /** Opens the file on the first use: the cursor's start is computed in 32 bits. */
    method OpenFile(ghost target: seq<nat>, ghost k: nat)
      requires InProgress(target, k) && !isOpen
      modifies this
      ensures InProgress(target, k) && isOpen
    {
      isOpen, file := true, [];
      LocationsAreExact(expected);
      var blockEnd: int := BufferLocation(FileLocation(expected));
      current := (blockEnd - 1) % TWO32;
      UpdateBufferPosition();
    }

    /** Makes room for the next word, as long as there is room in the file. */
    method PrepareBuffer(ghost target: seq<nat>, ghost k: nat) returns (r: Result<bool, LogError>)
      requires InProgress(target, k)
      modifies this
      ensures if Unwritable(target, k) then r == Err(WriteFailed) else r.Ok?
      ensures r.Ok? && k > 0 ==> InProgress(target, k) && isOpen && start <= current
      ensures r.Ok? && k == 0 && target != [] ==> current == -1 && start == 0
    {
      if !isOpen { OpenFile(target, k); }
      assert target != [] ==> start % MAX_WORDS == start && (end - start) % MAX_WORDS == end - start;
      assert target == [] && current < start ==> end - start == buffer.Length;
      r := ShiftBuffer();
      assert target != [] && r == Ok(true) ==> |file| == |target| && forall j | k <= j < |file| :: file[j] == target[j];
    }

    /** Stores one more word; after the last one that there is room for, the next lands before the buffer. */
    method Write(pos: nat, ghost target: seq<nat>, ghost k: nat) returns (r: Result<(), LogError>)
      requires InProgress(target, k) && (target != [] && k > 0 ==> pos == target[k - 1]) && (target == [] ==> k > 0)
      modifies this, buffer
      ensures r == if Unwritable(target, k) then Err(WriteFailed) else if k == 0 then Err(WriteBeforeBuffer) else Ok(())
      ensures r.Ok? ==> InProgress(target, k - 1) && isOpen
    {
      var prepared := PrepareBuffer(target, k);
      if prepared.Err? { return Err(prepared.error); }
      if current < start { return Err(WriteBeforeBuffer); }
      buffer[current - start] := pos;
      current := current - 1;
      return Ok(());
    }

    /** Flushes the last part of the buffer; a cursor that wrapped has not arrived before the first word. */
    method Complete(ghost target: seq<nat>) returns (r: Result<(), LogError>)
      requires InProgress(target, 0) && isOpen
      modifies this
      ensures target != [] ==> r == Ok(()) && file == target
      ensures target == [] ==> r == Err(if Unwritable(target, 0) then WriteFailed else IndexNotWritten)
    {
      var shifted := ShiftBuffer();
      if shifted.Err? { return Err(shifted.error); }
      if !shifted.value || current != -1 { return Err(IndexNotWritten); }
      return Ok(());
    }
  }

  // ---- Together ----

  /** The number of words that a rebuilt index has no room for. */
  function Lost(words: nat): nat
  {
    words - words % MAX_WORDS
  }

  /** How rebuilding an index of 2^29 words or more ends. */
  function Failure(words: nat, bufferWords: nat): LogError
  {
    if words % MAX_WORDS != 0 then WriteBeforeBuffer
    else if bufferWords % MAX_WORDS == 0 && words >= bufferWords then WriteFailed
    else IndexNotWritten
  }

  /**
   `construct_index`: for every log and any buffer sizes, the rebuilt index holds exactly the positions that appending
   wrote, if and only if there are fewer than 2^29 blocks. With more, the words that the shifts leave room for are
   written and the next write lands before the buffer; with a multiple of 2^29 the cursor wraps, every word is accepted
   and completion fails.
   */
  method ConstructIndex(file: seq<Byte>, bufLen: nat, bufferWords: nat, ghost header: seq<Byte>,
                        ghost blocks: seq<seq<Byte>>, ghost version: nat, ghost first: nat)
    returns (r: Result<seq<nat>, LogError>)
    requires bufLen >= 8 && bufferWords > 0
    requires file == Render(header, blocks) && LogBytes(header, blocks, version, first)
    ensures r == if |blocks| < MAX_WORDS then Ok(Positions(header, blocks)) else Err(Failure(|blocks|, bufferWords))
  {
    hide Render, Positions, LogBytes, ReverseIterator.Scanning, IndexWriter.InProgress;
    var scan := new ReverseIterator(file, bufLen);
    var opening := scan.Open(header, blocks, version, first);
    if opening.Err? { return Err(BadFormat); }
    if opening.value == 0 {
      NoPositions(header);
      return Ok([]);
    }
    CountFits(header, blocks, version, first);
    var index := new IndexWriter(opening.value, bufferWords);
    ghost var k, lost := |blocks|, Lost(|blocks|);
    ghost var target := Positions(header, blocks)[lost..];
    // With room for some words, those beyond it are not to come.
    ghost var beyond := if target == [] then 0 else lost;
    var position := scan.Previous(header, blocks, k);
    while position.Ok? && position.value != NPOS
      invariant beyond <= k <= |blocks| && index.InProgress(target, k - beyond) && (k < |blocks| ==> index.isOpen)
      invariant fresh(scan) && fresh(scan.buffer) && fresh(index) && fresh(index.buffer)
      invariant index.buffer.Length == bufferWords && index.expected == |blocks|
      invariant position.Ok? && (position.value == NPOS <==> k == 0)
      invariant target != [] && k > lost ==> position.value == target[k - lost - 1]
      invariant k > 0 ==> scan.Scanning(header, blocks, k - 1)
      decreases k
    {
      var written := index.Write(position.value, target, k - beyond);
      if written.Err? { return Err(written.error); }
      k := k - 1;
      position := scan.Previous(header, blocks, k);
    }
    if position.Err? { return Err(BadFormat); }
    var completed := index.Complete(target);
    if completed.Err? { return Err(completed.error); }
    return Ok(index.file);
  }

  lemma CountFits(header: seq<Byte>, blocks: seq<seq<Byte>>, version: nat, first: nat)
    requires LogBytes(header, blocks, version, first)
    ensures |blocks| < TWO32
  {
    if blocks != [] { assert BlockBytes(blocks[|blocks| - 1], first + |blocks| - 1); }
  }

  lemma NoPositions(header: seq<Byte>)
    ensures Positions(header, []) == []
  {
  }
}
