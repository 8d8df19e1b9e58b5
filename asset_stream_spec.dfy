/** What each member of the archive-backed stream does, as functions of the
    native handle it holds: the result it returns or the exception it raises,
    the handle afterwards, and the native calls it makes. The class
    AndroidAssets.AndroidAssetsStream is proved against these. */
module AssetStreamSpec {
  import opened StreamTypes
  import opened NativeMethods

  /** The handle a stream may hold: the zero sentinel once closed, a live
      entry before. */
  predicate Usable(a: AAsset)
  {
    a == Zero || Live(a)
  }

  /** A member's result together with the handle it leaves behind. */
  datatype Step<T> = Step(outcome: Result<T>, after: AAsset)

  /** AssertTheStreamHasNotBeenClosed: the zero handle means the stream is closed. */
  function CheckOpen(a: AAsset): (e: Option<Error>)
    ensures e == None <==> a != Zero
    ensures e != None ==> e.value == ObjectDisposed
  {
    if a == Zero then Some(ObjectDisposed) else None
  }

  // ---------------------------------------------------------------- Read

  /** Read's argument checks, in the source's order: closed, null buffer,
      negative offset or count, offset + count past the buffer. The last sum
      is exact here (see ReadGuardAsWritten for the 32-bit one). */
  function ReadGuard(a: AAsset, bufferNull: bool, bufferLength: int, offset: int, count: int): (e: Option<Error>)
    ensures e == None <==>
      a != Zero && !bufferNull && 0 <= offset && 0 <= count && offset + count <= bufferLength
    ensures a == Zero ==> e == Some(ObjectDisposed)
    ensures a != Zero && bufferNull ==> e == Some(ArgumentNull)
    ensures a != Zero && !bufferNull && (offset < 0 || count < 0) ==> e == Some(ArgumentOutOfRange)
    ensures a != Zero && !bufferNull && 0 <= offset && 0 <= count && bufferLength < offset + count ==>
      e == Some(Argument)
  {
    match CheckOpen(a)
    case Some(closed) => Some(closed)
    case None =>
      if bufferNull then Some(ArgumentNull)
      else if offset < 0 || count < 0 then Some(ArgumentOutOfRange)
      else if bufferLength < offset + count then Some(Argument)
      else None
  }

  /** Read as the source's code states it: `buffer.Length < offset + count`
      with `offset + count` in unchecked 32-bit arithmetic. */
  function ReadGuardAsWritten(a: AAsset, bufferNull: bool, bufferLength: int, offset: int, count: int): (e: Option<Error>)
    ensures e == None <==>
      a != Zero && !bufferNull && 0 <= offset && 0 <= count && Wrap32(offset + count) <= bufferLength
    ensures a == Zero ==> e == Some(ObjectDisposed)
    ensures a != Zero && bufferNull ==> e == Some(ArgumentNull)
    ensures a != Zero && !bufferNull && (offset < 0 || count < 0) ==> e == Some(ArgumentOutOfRange)
    ensures a != Zero && !bufferNull && 0 <= offset && 0 <= count && bufferLength < Wrap32(offset + count) ==>
      e == Some(Argument)
  {
    match CheckOpen(a)
    case Some(closed) => Some(closed)
    case None =>
      if bufferNull then Some(ArgumentNull)
      else if offset < 0 || count < 0 then Some(ArgumentOutOfRange)
      else if bufferLength < Wrap32(offset + count) then Some(Argument)
      else None
  }

  /** The bytes a successful read of `n` bytes delivers. */
  function ReadBytes(a: AAsset, n: int): seq<byte>
    requires Live(a) && 0 <= n <= |a.content| - a.position
  {
    a.content[a.position..a.position + n]
  }

  /** Read(buffer, offset, count): the checks, then the native read; a negative
      native result becomes IOException and leaves the stream open. */
  function ReadSpec(a: AAsset, bufferNull: bool, bufferLength: int, offset: int, count: int, fault: bool): (s: Step<int>)
    requires Usable(a)
    ensures Usable(s.after)
    ensures s.outcome.Ok? <==> ReadGuard(a, bufferNull, bufferLength, offset, count) == None && !fault
    ensures s.outcome.Err? ==> s.after == a
    ensures ReadGuard(a, bufferNull, bufferLength, offset, count) != None ==>
      s.outcome == Err(ReadGuard(a, bufferNull, bufferLength, offset, count).value)
    ensures ReadGuard(a, bufferNull, bufferLength, offset, count) == None && fault ==> s.outcome == Err(IO)
    ensures s.outcome.Ok? ==>
      Live(a) && 0 <= s.outcome.value <= count && offset + s.outcome.value <= bufferLength &&
      s.outcome.value == Min(count, |a.content| - a.position) &&
      s.after == a.(position := a.position + s.outcome.value)
    ensures s.outcome.Ok? ==> (s.outcome.value == 0 <==> count == 0 || a.position == |a.content|)
  {
    match ReadGuard(a, bufferNull, bufferLength, offset, count)
    case Some(e) => Step(Err(e), a)
    case None =>
      var reply := NativeMethods.Read(a, count, fault);
      if reply.result < 0 then Step(Err(IO), a) else Step(Ok(reply.result), reply.after)
  }

  /** The caller's buffer after a read that returned `r` from handle `a`:
      on success `buffer[offset..offset + n)` holds the bytes read and the rest
      is as before; on any error the buffer is untouched. */
  ghost predicate BufferAfterRead(before: seq<byte>, after: seq<byte>, offset: int, a: AAsset, r: Result<int>)
  {
    if r.Ok? then
      Live(a) && 0 <= offset && 0 <= r.value <= |a.content| - a.position &&
      offset + r.value <= |before| &&
      after == before[..offset] + ReadBytes(a, r.value) + before[offset + r.value..]
    else
      after == before
  }

  /** The native calls Read makes: one native read, and only when every check passed. */
  function ReadCalls(a: AAsset, bufferNull: bool, bufferLength: int, offset: int, count: int): (calls: seq<NativeCall>)
    ensures calls != [] <==> ReadGuard(a, bufferNull, bufferLength, offset, count) == None
    ensures |calls| <= 1 && LiveCalls(calls)
  {
    if ReadGuard(a, bufferNull, bufferLength, offset, count) == None then [ReadCall(a, count)] else []
  }

  // ---------------------------------------------------------------- Seek, Position

  /** Seek(offset, origin): closed check, then the native seek; a negative
      native position becomes IOException. */
  function SeekSpec(a: AAsset, offset: int, origin: SeekOrigin, fault: bool): (s: Step<int>)
    requires Usable(a)
    ensures Usable(s.after)
    ensures a == Zero ==> s == Step(Err(ObjectDisposed), Zero)
    ensures s.outcome.Err? ==> s.after == a
    ensures a != Zero && s.outcome.Err? ==> s.outcome.error == IO
    ensures s.outcome.Ok? <==> a != Zero && !fault && 0 <= SeekTarget(a, offset, origin) <= |a.content|
    ensures s.outcome.Ok? ==>
      s.outcome.value == SeekTarget(a, offset, origin) && s.after == a.(position := s.outcome.value)
  {
    match CheckOpen(a)
    case Some(closed) => Step(Err(closed), a)
    case None =>
      var reply := NativeMethods.Seek(a, offset, origin, fault);
      if reply.result < 0 then Step(Err(IO), a) else Step(Ok(reply.result), reply.after)
  }

  /** The native calls Seek makes: one native seek, unless the stream is closed. */
  function SeekCalls(a: AAsset, offset: int, origin: SeekOrigin): (calls: seq<NativeCall>)
    ensures calls != [] <==> a != Zero
    ensures |calls| <= 1 && LiveCalls(calls)
  {
    if a == Zero then [] else [SeekCall(a, offset, origin)]
  }

  /** The Position setter's outcome: Seek(value, Begin) with its result dropped. */
  function Discard(r: Result<int>): (o: Outcome)
    ensures o.Pass? <==> r.Ok?
    ensures r.Err? ==> o.error == r.error
  {
    match r
    case Ok(_) => Pass
    case Err(e) => Fail(e)
  }

  // ---------------------------------------------------------------- Length, Dispose

  /** Length: closed check first, then the entry's size (see LengthCallsAsWritten). */
  function LengthSpec(a: AAsset): (r: Result<int>)
    requires Usable(a)
    ensures r.Err? <==> a == Zero
    ensures r.Err? ==> r.error == ObjectDisposed
    ensures r.Ok? ==> r.value == |a.content| && a.position <= r.value
  {
    match CheckOpen(a)
    case Some(closed) => Err(closed)
    case None => Ok(GetLength(a))
  }

  /** The native calls Length makes once the closed check comes first. */
  function LengthCalls(a: AAsset): (calls: seq<NativeCall>)
    ensures calls != [] <==> a != Zero
    ensures |calls| <= 1 && LiveCalls(calls)
  {
    if a == Zero then [] else [GetLengthCall(a)]
  }

  /** The native calls Length makes as written: the argument
      `NativeMethods.GetLength(_asset)` is evaluated before
      AssertTheStreamHasNotBeenClosed runs, closed or not. */
  function LengthCallsAsWritten(a: AAsset): (calls: seq<NativeCall>)
    ensures |calls| == 1 && calls[0].handle == a
    ensures LiveCalls(calls) <==> a != Zero
  {
    [GetLengthCall(a)]
  }

  /** The native calls Dispose makes when it releases only a live handle. */
  function DisposeCalls(a: AAsset): (calls: seq<NativeCall>)
    ensures calls != [] <==> a != Zero
    ensures |calls| <= 1 && LiveCalls(calls)
  {
    if a == Zero then [] else [CloseCall(a)]
  }

  /** The native calls Dispose makes as written: NativeMethods.Close(_asset)
      whatever `_asset` holds. */
  function DisposeCallsAsWritten(a: AAsset): (calls: seq<NativeCall>)
    ensures |calls| == 1 && calls[0].handle == a
    ensures LiveCalls(calls) <==> a != Zero
  {
    [CloseCall(a)]
  }

  // ---------------------------------------------------------------- code as written vs corrected

  /** As written, Read's last check wraps: on a 26-byte buffer, offset 1 and
      count int.MaxValue sum to int.MinValue, so the request is let through and
      the native read then writes 26 bytes from index 1, one past the end. */
  lemma ReadGuardAsWrittenAdmitsOverrun(a: AAsset)
    requires Live(a) && a.position == 0 && |a.content| == 26
    ensures ReadGuardAsWritten(a, false, 26, 1, Int32Max) == None
    ensures 1 + NativeMethods.Read(a, Int32Max, false).result == 27
    ensures ReadGuard(a, false, 26, 1, Int32Max) == Some(Argument)
  {
    assert Wrap32(1 + Int32Max) == Int32Min;
  }

  /** The corrected check differs from the written one only where the 32-bit
      sum overflows. */
  lemma ReadGuardAgreesWithoutOverflow(a: AAsset, bufferNull: bool, bufferLength: int, offset: int, count: int)
    requires IsInt32(offset + count)
    ensures ReadGuardAsWritten(a, bufferNull, bufferLength, offset, count) ==
            ReadGuard(a, bufferNull, bufferLength, offset, count)
  {
  }

  /** As written, Length on a disposed stream hands the zero handle to the
      native getLength before its closed check runs. */
  lemma LengthAsWrittenQueriesZeroHandle()
    ensures !LiveCalls(LengthCallsAsWritten(Zero))
  {
    assert LengthCallsAsWritten(Zero)[0].handle == Zero;
  }

  /** As written, a second Dispose hands the zero handle to the native close. */
  lemma DisposeTwiceAsWrittenClosesZeroHandle(a: AAsset)
    requires Live(a)
    ensures LiveCalls(DisposeCallsAsWritten(a))
    ensures !LiveCalls(DisposeCallsAsWritten(a) + DisposeCallsAsWritten(Zero))
  {
    assert (DisposeCallsAsWritten(a) + DisposeCallsAsWritten(Zero))[1].handle == Zero;
  }

  /** With the guard, disposing twice makes one native close and no more. */
  lemma DisposeTwiceClosesOnce(a: AAsset)
    requires Live(a)
    ensures DisposeCalls(a) + DisposeCalls(Zero) == [CloseCall(a)]
  {
  }
}
