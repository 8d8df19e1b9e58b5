/** AndroidAssetsStream: a read-only, seekable stream over one entry of the
    application package, holding the native entry handle until disposed. */
module AndroidAssets {
  import opened StreamTypes
  import opened NativeMethods
  import opened AssetStreamSpec
  import opened AssetManager

  class AndroidAssetsStream {
    /** `_asset`: the native entry handle; Zero once the stream is closed. */
    var asset: AAsset
    /** Every native call this stream has made, oldest first. */
    ghost var calls: seq<NativeCall>

    /** The handle is the sentinel or a live entry opened in Buffer mode, and
        the native library was never handed the zero handle. */
    ghost predicate Valid()
      reads this
    {
      Usable(asset) && (asset != Zero ==> asset.mode == Buffer) && LiveCalls(calls)
    }

    /** The stream over a handle that AndroidAssetManager.Open returned. */
    constructor FromAsset(handle: AAsset)
      requires Live(handle) && handle.mode == Buffer
      ensures Valid() && asset == handle && calls == []
    {
      asset := handle;
      calls := [];
    }

    /** `new AndroidAssetsStream(path)`: open `path` through the manager; a
        missing entry surfaces as FileNotFoundException and no stream exists. */
    static method Create(manager: AndroidAssetManager, path: string) returns (r: Result<AndroidAssetsStream>)
      requires manager.Valid()
      modifies manager
      ensures manager.Valid() && manager.assetManager == manager.platform
      ensures old(manager.assetManager) != NullManager ==> manager.lookups == old(manager.lookups)
      ensures r.Err? <==> path !in manager.platform.entries
      ensures r.Err? ==> r.error == FileNotFound
      ensures r.Ok? ==> fresh(r.value) && r.value.Valid() && r.value.calls == []
      ensures r.Ok? ==> r.value.asset == Entry(manager.platform.entries[path], 0, Buffer)
    {
      var handle := manager.Open(path);
      if handle.Err? {
        return Err(handle.error);
      }
      var stream := new AndroidAssetsStream.FromAsset(handle.value);
      r := Ok(stream);
    }

    /** CanRead is true whatever the state. */
    function CanRead(): (b: bool)
      ensures b
    {
      true
    }

    /** CanSeek is true whatever the state. */
    function CanSeek(): (b: bool)
      ensures b
    {
      true
    }

    /** CanWrite is false whatever the state. */
    function CanWrite(): (b: bool)
      ensures !b
    {
      false
    }

    /** Length: ObjectDisposedException once closed, else the entry's size. */
    method Length() returns (r: Result<int>)
      requires Valid()
      modifies this`calls
      ensures Valid()
      ensures r == LengthSpec(asset)
      ensures calls == old(calls) + LengthCalls(asset)
    {
      if asset == Zero {
        return Err(ObjectDisposed);
      }
      calls := calls + [GetLengthCall(asset)];
      return Ok(NativeMethods.GetLength(asset));
    }

    /** Position getter: Seek(0, Current), which reports and keeps the position. */
    method GetPosition(fault: bool) returns (r: Result<int>)
      requires Valid()
      modifies this
      ensures Valid()
      ensures r == SeekSpec(old(asset), 0, Current, fault).outcome
      ensures asset == old(asset)
      ensures r.Ok? ==> r.value == asset.position
      ensures calls == old(calls) + SeekCalls(old(asset), 0, Current)
    {
      r := Seek(0, Current, fault);
    }

    /** Position setter: Seek(value, Begin). */
    method SetPosition(value: int, fault: bool) returns (r: Outcome)
      requires Valid() && IsInt64(value)
      modifies this
      ensures Valid()
      ensures r == Discard(SeekSpec(old(asset), value, Begin, fault).outcome)
      ensures asset == SeekSpec(old(asset), value, Begin, fault).after
      ensures calls == old(calls) + SeekCalls(old(asset), value, Begin)
    {
      var moved := Seek(value, Begin, fault);
      r := Discard(moved);
    }

    /** Flush does nothing: the stream is read-only. */
    method Flush() returns (r: Outcome)
      ensures r == Pass
    {
      r := Pass;
    }

    /** Read(buffer, offset, count): the checks in order (closed, null buffer,
        negative offset or count, past the buffer), then the native read
        straight into `buffer` at `offset`. */
    method Read(buffer: array?<byte>, offset: int, count: int, fault: bool) returns (r: Result<int>)
      requires Valid() && IsInt32(offset) && IsInt32(count)
      modifies this, buffer
      ensures Valid()
      ensures var len := if buffer == null then 0 else buffer.Length;
        r == ReadSpec(old(asset), buffer == null, len, offset, count, fault).outcome &&
        asset == ReadSpec(old(asset), buffer == null, len, offset, count, fault).after &&
        calls == old(calls) + ReadCalls(old(asset), buffer == null, len, offset, count)
      ensures buffer != null ==> BufferAfterRead(old(buffer[..]), buffer[..], offset, old(asset), r)
    {
      var len := if buffer == null then 0 else buffer.Length;
      var guard := ReadGuard(asset, buffer == null, len, offset, count);
      if guard.Some? {
        return Err(guard.value);
      }
      calls := calls + [ReadCall(asset, count)];
      var readCount, after := NativeMethods.ReadInto(asset, buffer, offset, count, fault);
      if readCount < 0 {
        return Err(IO);
      }
      asset := after;
      r := Ok(readCount);
    }

    /** Seek(offset, origin): closed check, then the native seek; a negative
        native position is an IOException. */
    method Seek(offset: int, origin: SeekOrigin, fault: bool) returns (r: Result<int>)
      requires Valid() && IsInt64(offset)
      modifies this
      ensures Valid()
      ensures r == SeekSpec(old(asset), offset, origin, fault).outcome
      ensures asset == SeekSpec(old(asset), offset, origin, fault).after
      ensures calls == old(calls) + SeekCalls(old(asset), offset, origin)
    {
      if asset == Zero {
        return Err(ObjectDisposed);
      }
      calls := calls + [SeekCall(asset, offset, origin)];
      var reply := NativeMethods.Seek(asset, offset, origin, fault);
      if reply.result < 0 {
        return Err(IO);
      }
      asset := reply.after;
      r := Ok(reply.result);
    }

    /** SetLength always throws NotSupportedException, open or closed. */
    method SetLength(value: int) returns (r: Outcome)
      ensures r == Fail(NotSupported)
    {
      r := Fail(NotSupported);
    }

    /** Write always throws NotSupportedException, open or closed, and leaves
        the buffer alone. */
    method Write(buffer: array?<byte>, offset: int, count: int) returns (r: Outcome)
      ensures r == Fail(NotSupported)
    {
      r := Fail(NotSupported);
    }

    /** Dispose: release the native handle and store the zero sentinel, which
        closes the stream for good. A handle that is already Zero is not
        passed to the native close (see DisposeCallsAsWritten). */
    method Dispose()
      requires Valid()
      modifies this
      ensures Valid() && asset == Zero
      ensures calls == old(calls) + DisposeCalls(old(asset))
    {
      if asset != Zero {
        calls := calls + [CloseCall(asset)];
      }
      asset := Zero;
    }
  }
}
