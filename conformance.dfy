/** The behaviour the stream test suite pins down: an entry holding the 26-byte
    alphabet, read whole, in chunks and past its end, and seeks from each
    origin. The lemmas state it of the stream semantics for every entry; the
    methods replay the test cases against StreamingAssetsStream. No native
    fault is injected in any of them. */
module Conformance {
  import opened StreamTypes
  import opened NativeMethods
  import opened AssetStreamSpec
  import opened AssetManager
  import opened AndroidAssets
  import opened StreamingAssets

  // ---------------------------------------------------------------- every entry

  /** What the chunked-read test collects from a handle with `rest` bytes still
      to read into a buffer of `length` bytes: `chunk` bytes at a time while at
      least `chunk` are left, then one read of the remainder. The flag says
      whether every read returned exactly the count it asked for. */
  function ChunkedRead(a: AAsset, chunk: int, rest: int, length: int): (r: (seq<byte>, bool))
    requires Live(a) && 0 < chunk && 0 <= rest <= length
    ensures |r.0| <= rest
    ensures r.1 ==> |r.0| == rest
    decreases rest
  {
    if rest >= chunk then
      var step := ReadSpec(a, false, length, length - rest, chunk, false);
      if step.outcome.Err? then ([], false)
      else
        var more := ChunkedRead(step.after, chunk, rest - chunk, length);
        (ReadBytes(a, step.outcome.value) + more.0, step.outcome.value == chunk && more.1)
    else if rest > 0 then
      var step := ReadSpec(a, false, length, length - rest, rest, false);
      if step.outcome.Err? then ([], false)
      else (ReadBytes(a, step.outcome.value), step.outcome.value == rest)
    else ([], true)
  }

  /** Reading in chunks of any size returns full chunks, then the short
      remainder, and reassembles exactly the bytes left in the entry. */
  lemma {:induction false} ChunkedReadReassembles(a: AAsset, chunk: int, rest: int, length: int)
    requires Live(a) && 0 < chunk && 0 <= rest <= length
    requires |a.content| - a.position == rest
    ensures ChunkedRead(a, chunk, rest, length) == (a.content[a.position..], true)
    decreases rest
  {
    if rest >= chunk {
      var step := ReadSpec(a, false, length, length - rest, chunk, false);
      assert step.outcome == Ok(chunk);
      ChunkedReadReassembles(step.after, chunk, rest - chunk, length);
      assert a.content[a.position..] ==
        ReadBytes(a, chunk) + step.after.content[step.after.position..];
    } else if rest > 0 {
      var step := ReadSpec(a, false, length, length - rest, rest, false);
      assert step.outcome == Ok(rest);
      assert ReadBytes(a, rest) == a.content[a.position..];
    } else {
      assert a.content[a.position..] == [];
    }
  }

  /** A read of every byte of a freshly opened entry returns them all. */
  lemma ReadWholeEntry(a: AAsset)
    requires Live(a) && a.position == 0
    ensures var step := ReadSpec(a, false, |a.content|, 0, |a.content|, false);
      step.outcome == Ok(|a.content|) && ReadBytes(a, |a.content|) == a.content &&
      step.after.position == |a.content|
  {
  }

  /** Asking for `extra` more bytes than remain returns just the remainder. */
  lemma ReadPastEndReturnsRemainder(a: AAsset, extra: int)
    requires Live(a) && 0 < extra
    ensures var rest := |a.content| - a.position;
      var step := ReadSpec(a, false, rest + extra, 0, rest + extra, false);
      step.outcome == Ok(rest) && ReadBytes(a, rest) == a.content[a.position..]
  {
  }

  /** After Seek(0, End) a read returns 0 and does not fail. */
  lemma ReadAtEndReturnsZero(a: AAsset, bufferLength: int)
    requires Live(a) && 0 <= bufferLength
    ensures var atEnd := SeekSpec(a, 0, End, false);
      atEnd.outcome == Ok(|a.content|) &&
      ReadSpec(atEnd.after, false, bufferLength, 0, bufferLength, false).outcome == Ok(0)
  {
  }

  /** A seek to a target inside the entry returns the target from every
      origin, and the Position getter then reports it without moving. */
  lemma SeekLandsOnTarget(a: AAsset, offset: int, origin: SeekOrigin)
    requires Live(a) && 0 <= SeekTarget(a, offset, origin) <= |a.content|
    ensures var step := SeekSpec(a, offset, origin, false);
      step.outcome == Ok(SeekTarget(a, offset, origin)) &&
      SeekSpec(step.after, 0, Current, false) == Step(Ok(SeekTarget(a, offset, origin)), step.after)
    ensures origin == Begin ==> SeekTarget(a, offset, origin) == offset
    ensures origin == Current ==> SeekTarget(a, offset, origin) == a.position + offset
    ensures origin == End ==> SeekTarget(a, offset, origin) == |a.content| + offset
  {
  }

  /** Setting Position to any p within the entry and reading it back gives p. */
  lemma PositionRoundTrip(a: AAsset, p: int)
    requires Live(a) && 0 <= p <= |a.content|
    ensures var moved := SeekSpec(a, p, Begin, false);
      Discard(moved.outcome) == Pass && SeekSpec(moved.after, 0, Current, false).outcome == Ok(p)
  {
  }

  /** Once closed, every member that checks fails with ObjectDisposedException
      and the stream stays closed. */
  lemma ClosedIsTerminal(bufferNull: bool, bufferLength: int, offset: int, count: int, origin: SeekOrigin, fault: bool)
    ensures LengthSpec(Zero) == Err(ObjectDisposed)
    ensures ReadSpec(Zero, bufferNull, bufferLength, offset, count, fault) == Step(Err(ObjectDisposed), Zero)
    ensures SeekSpec(Zero, offset, origin, fault) == Step(Err(ObjectDisposed), Zero)
    ensures ReadCalls(Zero, bufferNull, bufferLength, offset, count) == []
  {
  }

  // ---------------------------------------------------------------- the test fixture

  /** The fixture's content: "abcdefghijklmnopqrstuvwxyz" as bytes. */
  const Alphabet: seq<byte> :=
    [97, 98, 99, 100, 101, 102, 103, 104, 105, 106, 107, 108, 109,
     110, 111, 112, 113, 114, 115, 116, 117, 118, 119, 120, 121, 122]

  const TestFile: string := "~~RyujuEngine_IO.txt"
  const InvalidFile: string := "~~RyujuEngine_IO_invalid.txt"

  /** The package holds the fixture and not the invalid name. */
  predicate Fixture(manager: AndroidAssetManager)
  {
    manager.platform.Manager? &&
    TestFile in manager.platform.entries && manager.platform.entries[TestFile] == Alphabet &&
    InvalidFile !in manager.platform.entries
  }

  /** The fixture names are plain relative paths, so OpenStream passes them on unchanged. */
  lemma FixtureNamesArePlain()
    ensures !IsJarPath(TestFile) && AndroidEntryPath(TestFile) == TestFile
    ensures !IsJarPath(InvalidFile) && AndroidEntryPath(InvalidFile) == InvalidFile
  {
    assert ToUpperAscii(TestFile[0]) != ToUpperAscii(JarFilePrefix[0]);
    assert ToUpperAscii(InvalidFile[0]) != ToUpperAscii(JarFilePrefix[0]);
  }

  /** Open the fixture; the stream is fresh, open and at position 0. */
  method OpenFixture(manager: AndroidAssetManager) returns (stream: StreamingAssetsStream)
    requires manager.Valid() && Fixture(manager)
    modifies manager
    ensures manager.Valid()
    ensures fresh(stream) && fresh(stream.impl) && stream.Valid()
    ensures stream.impl.asset == Entry(Alphabet, 0, Buffer)
  {
    FixtureNamesArePlain();
    var result := StreamingAssetsStream.Open(manager, TestFile);
    stream := result.value;
  }

  /** It_should_be_able_to_open_a_stream. */
  method OpenThenDispose(manager: AndroidAssetManager) returns (canRead: bool, canSeek: bool)
    requires manager.Valid() && Fixture(manager)
    modifies manager
    ensures canRead && canSeek
  {
    var stream := OpenFixture(manager);
    canRead, canSeek := stream.CanRead(), stream.CanSeek();
    stream.Dispose(true);
  }

  /** It_should_be_able_to_throw_not_found_exception. */
  method OpenMissing(manager: AndroidAssetManager) returns (r: Result<StreamingAssetsStream>)
    requires manager.Valid() && Fixture(manager)
    modifies manager
    ensures r == Err(FileNotFound)
  {
    FixtureNamesArePlain();
    r := StreamingAssetsStream.Open(manager, InvalidFile);
  }

  /** It_should_be_able_to_get_valid_length. */
  method FixtureLength(manager: AndroidAssetManager) returns (length: Result<int>)
    requires manager.Valid() && Fixture(manager)
    modifies manager
    ensures length == Ok(26)
  {
    var stream := OpenFixture(manager);
    length := stream.Length();
    stream.Dispose(true);
  }

  /** It_should_be_able_to_read_all_bytes. */
  method ReadAllBytes(manager: AndroidAssetManager) returns (count: Result<int>, content: seq<byte>)
    requires manager.Valid() && Fixture(manager)
    modifies manager
    ensures count == Ok(26) && content == Alphabet
  {
    var stream := OpenFixture(manager);
    var length := stream.Length();
    var buffer := new byte[length.value];
    count := stream.Read(buffer, 0, buffer.Length, false);
    content := buffer[..];
    stream.Dispose(true);
  }

  /** A read that fills `n` more bytes after a prefix that already matches
      `content` extends the matching prefix by `n`. */
  lemma ReadExtendsPrefix(before: seq<byte>, after: seq<byte>, content: seq<byte>, done: int, n: int)
    requires 0 <= n && 0 <= done && done + n <= |before| && done + n <= |content|
    requires before[..done] == content[..done]
    requires after == before[..done] + content[done..done + n] + before[done + n..]
    ensures |after| == |before| && after[..done + n] == content[..done + n]
  {
    assert after[..done + n] == before[..done] + content[done..done + n];
    assert content[..done + n] == content[..done] + content[done..done + n];
  }

  /** It_should_be_able_to_read_chunk_bytes, for any chunk size (the suite
      runs 1, 2, 3, 5 and 7). */
  method ReadChunkBytes(manager: AndroidAssetManager, chunkSize: int) returns (allFull: bool, content: seq<byte>)
    requires manager.Valid() && Fixture(manager)
    requires 0 < chunkSize <= Int32Max
    modifies manager
    ensures allFull && content == Alphabet
  {
    var stream := OpenFixture(manager);
    var length := 26;
    var buffer := new byte[length];
    var restCount := length;
    allFull := true;
    while restCount >= chunkSize
      invariant 0 <= restCount <= length
      invariant stream.Valid() && stream.impl.asset == Entry(Alphabet, length - restCount, Buffer)
      invariant buffer.Length == length && buffer[..length - restCount] == Alphabet[..length - restCount]
      invariant allFull
    {
      ghost var before := buffer[..];
      var readCount := stream.Read(buffer, length - restCount, chunkSize, false);
      assert readCount == Ok(chunkSize);
      ReadExtendsPrefix(before, buffer[..], Alphabet, length - restCount, chunkSize);
      allFull := allFull && readCount == Ok(chunkSize);
      restCount := restCount - chunkSize;
    }
    if restCount > 0 {
      ghost var before := buffer[..];
      var readCount := stream.Read(buffer, length - restCount, restCount, false);
      assert readCount == Ok(restCount);
      ReadExtendsPrefix(before, buffer[..], Alphabet, length - restCount, restCount);
      allFull := allFull && readCount == Ok(restCount);
    }
    assert buffer[..] == buffer[..length];
    content := buffer[..];
    stream.Dispose(true);
  }

  /** It_should_be_able_to_read_bytes_even_if_specify_large_size. */
  method ReadPastEnd(manager: AndroidAssetManager, additionalCount: int) returns (count: Result<int>, prefix: seq<byte>)
    requires manager.Valid() && Fixture(manager)
    requires 0 < additionalCount <= Int32Max - 26
    modifies manager
    ensures count == Ok(26) && prefix == Alphabet
  {
    var stream := OpenFixture(manager);
    var buffer := new byte[26 + additionalCount];
    count := stream.Read(buffer, 0, 26 + additionalCount, false);
    prefix := buffer[..26];
    stream.Dispose(true);
  }

  /** It_should_be_able_to_read_no_bytes_from_tail. */
  method ReadFromTail(manager: AndroidAssetManager) returns (count: Result<int>)
    requires manager.Valid() && Fixture(manager)
    modifies manager
    ensures count == Ok(0)
  {
    var stream := OpenFixture(manager);
    var buffer := new byte[42];
    var _ := stream.Seek(0, End, false);
    count := stream.Read(buffer, 0, buffer.Length, false);
    stream.Dispose(true);
  }

  /** It_should_be_able_to_set_position. */
  method SetPositionThenGet(manager: AndroidAssetManager, position: int) returns (setResult: Outcome, got: Result<int>)
    requires manager.Valid() && Fixture(manager)
    requires 0 <= position <= 26
    modifies manager
    ensures setResult == Pass && got == Ok(position)
  {
    var stream := OpenFixture(manager);
    setResult := stream.SetPosition(position, false);
    got := stream.GetPosition(false);
    stream.Dispose(true);
  }

  /** It_should_be_able_to_seek_from_begin_with_offset, ..._from_current_...,
      ..._from_tail_...: from `position`, Seek(offset, origin) returns the
      target and Position reports it. */
  method SeekFrom(manager: AndroidAssetManager, position: int, offset: int, origin: SeekOrigin)
    returns (sought: Result<int>, got: Result<int>)
    requires manager.Valid() && Fixture(manager)
    requires 0 <= position <= 26 && IsInt64(offset)
    requires var target := match origin case Begin => offset case Current => position + offset case End => 26 + offset;
      0 <= target <= 26
    modifies manager
    ensures origin == Begin ==> sought == Ok(offset) && got == Ok(offset)
    ensures origin == Current ==> sought == Ok(position + offset) && got == Ok(position + offset)
    ensures origin == End ==> sought == Ok(26 + offset) && got == Ok(26 + offset)
  {
    var stream := OpenFixture(manager);
    var _ := stream.SetPosition(position, false);
    sought := stream.Seek(offset, origin, false);
    got := stream.GetPosition(false);
    stream.Dispose(true);
  }
}
