/** The NDK asset API that the archive backend calls (AAssetManager_open,
    AAsset_close, AAsset_getLength64, AAsset_read, AAsset_seek64), as
    primitives over the package's asset container. A native fault cannot be
    seen from the model's state, so read and seek take it as a parameter. */
module NativeMethods {
  import opened StreamTypes

  /** AndroidAssetMode: the mode requested when an entry is opened. */
  datatype AssetMode = Unknown | Random | Streaming | Buffer

  /** An `AAsset*`: the zero pointer, or an open entry with its bytes, its
      read position and the mode it was opened in. */
  datatype AAsset = Zero | Entry(content: seq<byte>, position: int, mode: AssetMode)

  /** An open entry whose read position lies within its bytes. */
  predicate Live(a: AAsset)
  {
    a.Entry? && 0 <= a.position <= |a.content|
  }

  /** An `AAssetManager*`: the zero pointer, or the package's asset container,
      entry name to bytes. */
  datatype AAssetManager = NullManager | Manager(entries: map<string, seq<byte>>)

  /** One call into the native library on an entry handle, as the stream made it. */
  datatype NativeCall =
    | CloseCall(handle: AAsset)
    | GetLengthCall(handle: AAsset)
    | ReadCall(handle: AAsset, count: int)
    | SeekCall(handle: AAsset, offset: int, whence: SeekOrigin)

  /** No call in `calls` was handed the zero pointer. */
  predicate LiveCalls(calls: seq<NativeCall>)
  {
    forall i :: 0 <= i < |calls| ==> calls[i].handle != Zero
  }

  /** AAssetManager_open: a fresh handle at position 0 on the named entry, or
      the zero pointer when the container has no such entry. */
  function Open(manager: AAssetManager, fileName: string, mode: AssetMode): (a: AAsset)
    requires manager.Manager?
    ensures a == Zero <==> fileName !in manager.entries
    ensures a != Zero ==> Live(a) && a.position == 0 && a.mode == mode
    ensures a != Zero ==> a.content == manager.entries[fileName]
  {
    if fileName in manager.entries then Entry(manager.entries[fileName], 0, mode) else Zero
  }

  /** AAsset_getLength64: the entry's size in bytes. */
  function GetLength(a: AAsset): (n: int)
    requires Live(a)
    ensures 0 <= n == |a.content|
    ensures a.position <= n
  {
    |a.content|
  }

  /** What AAsset_read reports (`result`), the bytes it transferred, and the
      handle afterwards. */
  datatype ReadReply = ReadReply(result: int, bytes: seq<byte>, after: AAsset)

  /** AAsset_read of at most `count` bytes: the number of bytes read, 0 at the
      end of the entry, a negative value on a fault. An entry opened in Buffer
      mode is resident, so a read transfers every requested byte that remains. */
  function Read(a: AAsset, count: int, fault: bool): (r: ReadReply)
    requires Live(a) && 0 <= count
    ensures Live(r.after) && r.after.content == a.content && r.after.mode == a.mode
    ensures r.result < 0 <==> fault
    ensures r.result < 0 ==> r.after == a && r.bytes == []
    ensures r.result >= 0 ==> r.result == Min(count, |a.content| - a.position)
    ensures r.result >= 0 ==> r.after.position == a.position + r.result
    ensures r.result >= 0 ==> r.bytes == a.content[a.position..r.after.position]
    ensures !fault ==> (r.result == 0 <==> count == 0 || a.position == |a.content|)
  {
    if fault then ReadReply(-1, [], a)
    else
      var n := Min(count, |a.content| - a.position);
      ReadReply(n, a.content[a.position..a.position + n], a.(position := a.position + n))
  }

  /** The native read writing straight into `buffer` from `offset` on: only
      `buffer[offset..offset + result)` changes, and it receives the bytes read. */
  method ReadInto(a: AAsset, buffer: array<byte>, offset: int, count: int, fault: bool)
    returns (result: int, after: AAsset)
    requires Live(a) && 0 <= offset && 0 <= count && offset + count <= buffer.Length
    modifies buffer
    ensures result == Read(a, count, fault).result && after == Read(a, count, fault).after
    ensures result >= 0 ==> offset + result <= buffer.Length
    ensures result >= 0 ==>
      buffer[..] == old(buffer[..offset]) + Read(a, count, fault).bytes + old(buffer[offset + result..])
    ensures result < 0 ==> buffer[..] == old(buffer[..])
  {
    var reply := Read(a, count, fault);
    result, after := reply.result, reply.after;
    if result >= 0 {
      forall i | 0 <= i < result {
        buffer[offset + i] := reply.bytes[i];
      }
      assert buffer[..] == old(buffer[..offset]) + reply.bytes + old(buffer[offset + result..]);
    }
  }

  /** The absolute position a seek aims at: `offset` from the start, from the
      current position, or from the end. */
  function SeekTarget(a: AAsset, offset: int, whence: SeekOrigin): (t: int)
    requires a.Entry?
    ensures whence == Begin ==> t == offset
    ensures whence == Current ==> t - a.position == offset
    ensures whence == End ==> t - |a.content| == offset
  {
    match whence
    case Begin => offset
    case Current => a.position + offset
    case End => |a.content| + offset
  }

  /** What AAsset_seek64 reports and the handle afterwards. */
  datatype SeekReply = SeekReply(result: int, after: AAsset)

  /** AAsset_seek64: the new position, or a negative value when the platform
      reports a fault or the target lies outside the entry (which leaves the
      position where it was). */
  function Seek(a: AAsset, offset: int, whence: SeekOrigin, fault: bool): (r: SeekReply)
    requires Live(a)
    ensures Live(r.after) && r.after.content == a.content && r.after.mode == a.mode
    ensures r.result >= 0 <==> !fault && 0 <= SeekTarget(a, offset, whence) <= |a.content|
    ensures r.result >= 0 ==> r.result == SeekTarget(a, offset, whence) == r.after.position
    ensures r.result < 0 ==> r.after == a
  {
    var target := SeekTarget(a, offset, whence);
    if fault || target < 0 || |a.content| < target then SeekReply(-1, a)
    else SeekReply(target, a.(position := target))
  }
}
