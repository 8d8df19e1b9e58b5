# Asset streams over the application package

A Dafny model of the asset streams of RyujuEngine.IO. These are read-only, seekable streams over files bundled with a Unity application.

- **`AndroidAssetsStream`** is the archive backend. It holds one native `AAsset*` entry handle from Android's NDK asset API. It checks its arguments in a fixed order before each native read or seek. `Dispose` sets the handle to the zero sentinel, and every later call that checks fails with `ObjectDisposedException`.
- **`StreamingAssetsStream`** is the facade. Construction rewrites a `jar:file://…!/assets/…` path to the name inside the archive and opens a backend on it. Every member afterwards forwards to that backend unchanged.
- **`AndroidAssetManager.Open`** looks up the native asset manager once, caches it and opens entries in `Buffer` mode. A missing entry raises `FileNotFoundException`.

Layout, one module per source unit:

| file | module | models |
|---|---|---|
| stream_types.dfy | `StreamTypes` | bytes, .NET `int`/`long` ranges and unchecked 32-bit addition, `SeekOrigin`, the exceptions as an `Error` datatype, `Result`/`Outcome` |
| native_methods.dfy | `NativeMethods` | `AAsset*` as `Zero` or a live entry (bytes, position, mode), `AAssetManager*` as a container map, and the native open, getLength, read (also as an in-place write into the caller's array) and seek |
| android_asset_manager.dfy | `AssetManager` | the static class as one process-wide object: the cached manager, the lookup counter and `Open` |
| asset_stream_spec.dfy | `AssetStreamSpec` | each backend member as a function of the handle: its result or exception, the handle afterwards and the native calls it makes. It also holds the as-written variants of the findings below. |
| android_assets_stream.dfy | `AndroidAssets` | the class `AndroidAssetsStream`, proved against `AssetStreamSpec` |
| streaming_assets_stream.dfy | `StreamingAssets` | path normalisation (case-insensitive prefix test, `LastIndexOf`, cut), backend choice, and the forwarding class `StreamingAssetsStream` |
| conformance.dfy | `Conformance` | the behaviour the test suite pins down: lemmas that hold for every entry, plus the test cases replayed against the 26-byte alphabet fixture |

A native fault cannot be seen from the stream's state, so `Read`, `Seek` and the `Position` accessors take a `fault` flag. The flag stands for the platform reporting an error on that call. The ghost field `calls` records every native call a backend makes. Its invariant says the native library is never handed the zero handle.

## Model

| member | source | states |
|---|---|---|
| StreamTypes.Wrap32 | Runtime/AndroidAssetsStream.cs:62 | unchecked `int` addition: the result is in the 32-bit range, equals the exact sum when that fits, and differs from it by a multiple of 2^32 |
| NativeMethods.Open | Runtime/NativeMethods.cs:18-30 | returns the zero handle exactly when the container has no such entry; otherwise returns a live handle at position 0 on that entry's bytes, in the requested mode |
| NativeMethods.GetLength | Runtime/NativeMethods.cs:39-44 | the entry's size, which is at least the current position |
| NativeMethods.Read | Runtime/NativeMethods.cs:46-58 | negative exactly on a fault, with nothing changed; otherwise at most `count` bytes (all that remain up to `count`), taken from the current position, which advances by that many; 0 exactly when `count` is 0 or the position is at the end |
| NativeMethods.ReadInto | Runtime/AndroidAssetsStream.cs:67-74 | the native read writes straight into the caller's array: only `buffer[offset..offset+n)` changes and it receives the bytes read; a fault leaves the buffer as it was |
| NativeMethods.SeekTarget | Runtime/NativeMethods.cs:60-72 | the `whence` arithmetic: the target is `offset` itself from `Begin`, `offset` past the current position from `Current`, and `offset` past the entry's end from `End` |
| NativeMethods.Seek | Runtime/NativeMethods.cs:60-72 | succeeds exactly when there is no fault and the target (from begin, current or end) lies within the entry; then it returns the target and moves there; otherwise it returns a negative value and the position stays |
| AssetManager.AndroidAssetManager.constructor | Runtime/AndroidAssetManager.cs:66 | the cache starts as the zero handle and no lookup has run |
| AssetManager.AndroidAssetManager.GetAssetManager | Runtime/AndroidAssetManager.cs:43-49 | the lookup yields the platform's manager, and each call counts as one lookup |
| AssetManager.AndroidAssetManager.Open | Runtime/AndroidAssetManager.cs:29-41 | the manager is looked up only while the cache is zero, so the lookup runs at most once and a filled cache is never reassigned; the entry is opened in `Buffer` mode; a missing entry is `FileNotFound`; success returns a live handle at position 0 |
| AssetStreamSpec.CheckOpen | Runtime/AndroidAssetsStream.cs:117-129 | the closed check fails, with `ObjectDisposed`, exactly on the zero handle |
| AssetStreamSpec.ReadGuard | Runtime/AndroidAssetsStream.cs:53-65 | `Read`'s checks pass exactly when the stream is open, the buffer is non-null, offset and count are non-negative and `offset + count` fits the buffer; closed gives `ObjectDisposed` whatever the arguments; open with a null buffer gives `ArgumentNull`; open with a buffer but a negative offset or count gives `ArgumentOutOfRange`; otherwise `offset + count` past the buffer gives `Argument` |
| AssetStreamSpec.ReadSpec | Runtime/AndroidAssetsStream.cs:51-80 | `Read` succeeds exactly when the checks pass and the native read does not fault. A failed check raises that check's exception. A fault raises `IO` and leaves the stream open. Any failure leaves the handle unchanged. Success returns n with 0 <= n <= count and `offset + n` within the buffer, n is all remaining bytes up to `count`, the position advances by n, and n is 0 exactly at the end or for count 0 |
| AssetStreamSpec.BufferAfterRead | Runtime/AndroidAssetsStream.cs:67-74 | the caller's buffer after `Read`: on success `buffer[offset..offset+n)` holds the bytes read and the rest is unchanged; on any error the buffer is untouched |
| AssetStreamSpec.ReadCalls | Runtime/AndroidAssetsStream.cs:53-72 | a native read happens exactly when every check passed, at most once, and never on the zero handle |
| AssetStreamSpec.SeekSpec | Runtime/AndroidAssetsStream.cs:83-92 | closed gives `ObjectDisposed` and stays closed. An open stream succeeds exactly when there is no fault and the target lies within the entry; it then returns the target and moves there. Any other failure is `IO` and keeps the position |
| AssetStreamSpec.SeekCalls | Runtime/AndroidAssetsStream.cs:85-86 | a native seek happens exactly when the stream is open, and never on the zero handle |
| AssetStreamSpec.Discard | Runtime/AndroidAssetsStream.cs:41 | the `Position` setter succeeds exactly when its `Seek` does, and raises the same exception otherwise |
| AssetStreamSpec.LengthSpec | Runtime/AndroidAssetsStream.cs:34-35 | `Length` fails, with `ObjectDisposed`, exactly when closed; otherwise it is the entry's size, at least the position |
| AssetStreamSpec.LengthCalls | Runtime/AndroidAssetsStream.cs:34-35 | with the closed check first, the native getLength is called exactly when the stream is open, never on the zero handle |
| AssetStreamSpec.DisposeCalls | Runtime/AndroidAssetsStream.cs:106-115 | the native close is called exactly when the handle is live, never on the zero handle |
| AssetStreamSpec.ReadGuardAsWritten | Runtime/AndroidAssetsStream.cs:53-65 | the checks as the code writes them: the same order and exceptions as `ReadGuard`, except that the last check compares the buffer length with the 32-bit wrapped sum `Wrap32(offset + count)` |
| AssetStreamSpec.LengthCallsAsWritten | Runtime/AndroidAssetsStream.cs:34-35 | as written, `Length` makes exactly one native getLength call, on whatever handle the stream holds, so the trace stays free of the zero handle exactly when the stream is open |
| AssetStreamSpec.DisposeCallsAsWritten | Runtime/AndroidAssetsStream.cs:106-115 | as written, `Dispose` makes exactly one native close, on whatever handle the stream holds, so it is free of the zero handle exactly when the stream is open |
| AssetStreamSpec.ReadGuardAsWrittenAdmitsOverrun | Runtime/AndroidAssetsStream.cs:62 | as written, offset 1 and count `int.MaxValue` on a 26-byte buffer pass every check, and the native read then ends at index 27; the corrected guard raises `Argument` |
| AssetStreamSpec.ReadGuardAgreesWithoutOverflow | Runtime/AndroidAssetsStream.cs:58-65 | wherever `offset + count` fits in 32 bits, the written guard and the corrected one agree |
| AssetStreamSpec.LengthAsWrittenQueriesZeroHandle | Runtime/AndroidAssetsStream.cs:34-35 | as written, `Length` on a closed stream hands the zero handle to the native getLength |
| AssetStreamSpec.DisposeTwiceAsWrittenClosesZeroHandle | Runtime/AndroidAssetsStream.cs:106-115 | as written, the first `Dispose` closes a live handle and the second hands the zero handle to the native close |
| AssetStreamSpec.DisposeTwiceClosesOnce | Runtime/AndroidAssetsStream.cs:106-115 | with the guard, two disposals make exactly one native close, on the live handle |
| AndroidAssets.AndroidAssetsStream.FromAsset | Runtime/AndroidAssetsStream.cs:19-22 | a stream built on an opened handle is open, holds that handle and has made no native call |
| AndroidAssets.AndroidAssetsStream.Create | Runtime/AndroidAssetsStream.cs:19-22 | construction fails with `FileNotFound` exactly when the entry is missing; otherwise the new stream is open at position 0 on the entry in `Buffer` mode, and a cached manager is not looked up again |
| AndroidAssets.AndroidAssetsStream.CanRead | Runtime/AndroidAssetsStream.cs:25 | true whatever the state |
| AndroidAssets.AndroidAssetsStream.CanSeek | Runtime/AndroidAssetsStream.cs:28 | true whatever the state |
| AndroidAssets.AndroidAssetsStream.CanWrite | Runtime/AndroidAssetsStream.cs:31 | false whatever the state |
| AndroidAssets.AndroidAssetsStream.Length | Runtime/AndroidAssetsStream.cs:34-35 | result as `LengthSpec`, handle unchanged, native calls as `LengthCalls` (closed check first) |
| AndroidAssets.AndroidAssetsStream.GetPosition | Runtime/AndroidAssetsStream.cs:40 | `Seek(0, Current)`: its result, and the position does not move; on success it is the current position |
| AndroidAssets.AndroidAssetsStream.SetPosition | Runtime/AndroidAssetsStream.cs:41 | `Seek(value, Begin)`: its handle afterwards and its exception |
| AndroidAssets.AndroidAssetsStream.Flush | Runtime/AndroidAssetsStream.cs:45-48 | returns normally, open or closed |
| AndroidAssets.AndroidAssetsStream.Read | Runtime/AndroidAssetsStream.cs:51-80 | result and handle as `ReadSpec`, native calls as `ReadCalls`; the buffer changes only in `[offset, offset+n)`, which then holds the bytes read, and not at all on any error |
| AndroidAssets.AndroidAssetsStream.Seek | Runtime/AndroidAssetsStream.cs:83-92 | result and handle as `SeekSpec`, native calls as `SeekCalls` |
| AndroidAssets.AndroidAssetsStream.SetLength | Runtime/AndroidAssetsStream.cs:95-98 | always `NotSupported`, with no closed check and no state change |
| AndroidAssets.AndroidAssetsStream.Write | Runtime/AndroidAssetsStream.cs:101-104 | always `NotSupported`, with no closed check; neither the stream nor the buffer changes |
| AndroidAssets.AndroidAssetsStream.Dispose | Runtime/AndroidAssetsStream.cs:106-115 | the handle becomes the zero sentinel, so the stream is closed for good; the native close runs only on a live handle |
| StreamingAssets.StartsWithIgnoreCase | Runtime/StreamingAssetsStream.cs:32 | `StartsWith(…, OrdinalIgnoreCase)`: a match needs the prefix to fit in the string, and an exact-case prefix always matches |
| StreamingAssets.JarSchemeIgnoresCase | Runtime/StreamingAssetsStream.cs:32 | `jar:file://`, `JAR:FILE://` and `Jar:File://` all mark a jar path, whatever follows; a path shorter than the scheme is never one |
| StreamingAssets.JarSchemeAnySpelling | Runtime/StreamingAssetsStream.cs:32 | for every scheme spelling of the scheme's length and every remainder: the path is a jar path exactly when the spelling folds to `jar:file://` character by character (ASCII letters folded) |
| StreamingAssets.IsJarPath | Runtime/StreamingAssetsStream.cs:32 | the branch condition `StartsWith("jar:file://", OrdinalIgnoreCase)` |
| StreamingAssets.LastIndexAtOrBefore | Runtime/StreamingAssetsStream.cs:34 | the result is an occurrence of the pattern at or before k, or -1, and no occurrence lies between it and k |
| StreamingAssets.LastIndexOf | Runtime/StreamingAssetsStream.cs:34 | `LastIndexOf(…, Ordinal)`: non-negative exactly when the pattern occurs; then it is an occurrence and no occurrence starts later |
| StreamingAssets.AndroidEntryPath | Runtime/StreamingAssetsStream.cs:30-38 | a path without the case-insensitive `jar:file://` prefix passes unchanged; a jar path (which must contain `!/assets/`) becomes a strictly shorter suffix of itself |
| StreamingAssets.CutAfterLast | Runtime/StreamingAssetsStream.cs:34-36 | cutting after the last occurrence leaves the prefix, the pattern and a remainder that does not contain the pattern |
| StreamingAssets.JarPathSplitsAtLastMarker | Runtime/StreamingAssetsStream.cs:30-37 | for a jar path p, p == p[..splitIndex] + "!/assets/" + result, and result contains no "!/assets/" |
| StreamingAssets.IsPathRooted | Runtime/StreamingAssetsStream.cs:40 | `Path.IsPathRooted` on `/`-separated paths: rooted exactly when the path starts with `/`, so the empty path is relative |
| StreamingAssets.CombinePath | Runtime/StreamingAssetsStream.cs:41 | `Path.Combine` for a relative path: the result starts with the root and ends with the path; an empty path gives the root and an empty root the path; a separator is inserted only when the root does not already end in `/` |
| StreamingAssets.OpenStreamTarget | Runtime/StreamingAssetsStream.cs:27-44 | the Android player always opens the archive backend on `AndroidEntryPath(path)`: plain paths unchanged, jar paths cut to a marker-free name. Other builds require a relative path and open the file at `CombinePath(streamingAssetsPath, path)`, which starts with the root and ends with the path |
| StreamingAssets.StreamingAssetsStream.Wrap | Runtime/StreamingAssetsStream.cs:22-25 | `_impl` is set once, at construction, to the opened backend, and the facade is valid exactly as its backend is |
| StreamingAssets.StreamingAssetsStream.Open | Runtime/StreamingAssetsStream.cs:22-38 | opens the archive backend on the entry `OpenStreamTarget` picks for the Android player; fails with `FileNotFound` exactly when that entry is missing; otherwise the stream is open at position 0 on the entry |
| StreamingAssets.StreamingAssetsStream.CanRead | Runtime/StreamingAssetsStream.cs:47 | forwards to the backend: true |
| StreamingAssets.StreamingAssetsStream.CanSeek | Runtime/StreamingAssetsStream.cs:50 | forwards to the backend: true |
| StreamingAssets.StreamingAssetsStream.CanWrite | Runtime/StreamingAssetsStream.cs:53 | forwards to the backend: false |
| StreamingAssets.StreamingAssetsStream.Length | Runtime/StreamingAssetsStream.cs:56 | the backend's `Length`, unchanged |
| StreamingAssets.StreamingAssetsStream.GetPosition | Runtime/StreamingAssetsStream.cs:61 | the backend's `Position` getter, unchanged |
| StreamingAssets.StreamingAssetsStream.SetPosition | Runtime/StreamingAssetsStream.cs:62 | the backend's `Position` setter, unchanged |
| StreamingAssets.StreamingAssetsStream.Flush | Runtime/StreamingAssetsStream.cs:66-69 | the backend's `Flush`, unchanged |
| StreamingAssets.StreamingAssetsStream.Read | Runtime/StreamingAssetsStream.cs:72-75 | the backend's `Read` with the same arguments, the same result and the same buffer effect |
| StreamingAssets.StreamingAssetsStream.Seek | Runtime/StreamingAssetsStream.cs:78-81 | the backend's `Seek`, unchanged |
| StreamingAssets.StreamingAssetsStream.SetLength | Runtime/StreamingAssetsStream.cs:84-87 | the backend's `SetLength`: `NotSupported` |
| StreamingAssets.StreamingAssetsStream.Write | Runtime/StreamingAssetsStream.cs:90-93 | the backend's `Write`: `NotSupported` |
| StreamingAssets.StreamingAssetsStream.Dispose | Runtime/StreamingAssetsStream.cs:96-103 | a managed dispose disposes the backend and leaves it closed; the finaliser path leaves it alone |
| Conformance.ChunkedRead | Tests/StreamingAssetsStreamTest.cs:113-123 | the test's read loop: it collects at most the bytes still to read, and all of them when every read returned its full count |
| Conformance.ChunkedReadReassembles | Tests/StreamingAssetsStreamTest.cs:100-126 | for every entry and chunk size, the chunked-read loop gets full chunks, then the short remainder, and reassembles exactly the remaining bytes |
| Conformance.ReadWholeEntry | Tests/StreamingAssetsStreamTest.cs:89-98 | one read of `Length` bytes from the start returns all of them, equal to the content |
| Conformance.ReadPastEndReturnsRemainder | Tests/StreamingAssetsStreamTest.cs:128-148 | asking for `k > 0` more bytes than remain returns exactly the remainder, which is the rest of the content |
| Conformance.ReadAtEndReturnsZero | Tests/StreamingAssetsStreamTest.cs:150-161 | `Seek(0, End)` returns `Length`; a read after it returns 0, not an error |
| Conformance.SeekLandsOnTarget | Tests/StreamingAssetsStreamTest.cs:179-228 | `Seek(o, Begin)` returns o, `Seek(o, Current)` from p returns p + o, and `Seek(o, End)` returns `Length + o`; each time `Position` then reports that value without moving |
| Conformance.PositionRoundTrip | Tests/StreamingAssetsStreamTest.cs:163-177 | setting `Position = p` within the entry succeeds, and the getter then gives p |
| Conformance.ClosedIsTerminal | Runtime/AndroidAssetsStream.cs:117-123 | on the zero handle, `Length`, `Read` and `Seek` fail with `ObjectDisposed`, the stream stays closed and no native read happens |
| Conformance.FixtureNamesArePlain | Tests/StreamingAssetsStreamTest.cs:19-21 | the fixture names are not jar paths, so they reach the backend unchanged |
| Conformance.OpenThenDispose | Tests/StreamingAssetsStreamTest.cs:63-71 | the fixture opens, reports `CanRead` and `CanSeek`, and disposes |
| Conformance.OpenMissing | Tests/StreamingAssetsStreamTest.cs:73-78 | opening a name that is not in the package raises `FileNotFound` |
| Conformance.FixtureLength | Tests/StreamingAssetsStreamTest.cs:80-87 | the alphabet fixture's `Length` is 26 |
| Conformance.ReadAllBytes | Tests/StreamingAssetsStreamTest.cs:89-98 | one read of 26 bytes returns 26, and the buffer equals the alphabet |
| Conformance.ReadChunkBytes | Tests/StreamingAssetsStreamTest.cs:100-126 | for any chunk size, every full-chunk read returns the chunk size, the last read returns the remainder, and the buffer equals the alphabet |
| Conformance.ReadPastEnd | Tests/StreamingAssetsStreamTest.cs:128-148 | a read of 26 + k bytes returns 26, and the buffer's first 26 bytes are the alphabet |
| Conformance.ReadFromTail | Tests/StreamingAssetsStreamTest.cs:150-161 | after `Seek(0, End)`, a 42-byte read returns 0 |
| Conformance.SetPositionThenGet | Tests/StreamingAssetsStreamTest.cs:163-177 | `Position = p` succeeds and `Position` then reads back p |
| Conformance.SeekFrom | Tests/StreamingAssetsStreamTest.cs:179-228 | after `Position = p`, a seek from `Begin`, `Current` or `End` returns o, p + o or 26 + o, and `Position` then reports the same value |

## Left out

- `FileStream` backend: only its path is modelled (`OpenStreamTarget`: a relative path combined with the streaming-assets root). The stream itself is a .NET library class, and the facade class models the Android player build only.
- Compile-time `#if UNITY_ANDROID && !UNITY_EDITOR` selection: it becomes the `androidPlayer` flag of `OpenStreamTarget`.
- JNI lookup (`GetJavaActivity`, `GetJavaAssetManager`, the body of `GetAssetManager`): platform bridge calls. The lookup's result is the constant `platform`, assumed non-zero.
- Unity `Assert` calls: treated as preconditions, namely "a jar path contains `!/assets/`" and "a file path is not rooted". Release builds strip them, and what the code then does with a jar path lacking the marker is not modelled.
- Native faults: they are the `fault` parameter. A faulting read or seek is modelled as changing neither the position nor the buffer. The native library gives no such promise.
- `NativeMethods.Read`: assumes a `Buffer`-mode entry transfers every requested byte that remains. The native contract alone promises only "some bytes, 0 at the end". The tests rely on the stronger behaviour.
- `NativeMethods.Seek`: a target outside `[0, Length]` returns -1 and leaves the position unchanged. The code defines nothing there beyond "negative means `IOException`".
- `int64` overflow of a seek target and entries longer than 2^63 bytes: positions are unbounded integers.
- `StreamingAssets.StartsWithIgnoreCase`: folds ASCII letters only. Non-ASCII characters whose invariant upper case is an ASCII letter are not modelled.
- `StreamingAssets.IsPathRooted`: uses the `/` rule only. Drive letters and backslashes of Windows paths are not modelled.
- `StreamingAssets.CombinePath`: inserts `/` only. The Windows separators `\` and `:`, which `Path.Combine` also accepts at the end of the root, are not modelled.
- `Stream` base class: the effects of `base.Dispose` and `using` are not modelled. The backend's `Dispose(bool)` has a no-op managed branch, so it is modelled without the flag.
- Concurrency of the unsynchronised lazy manager lookup: the model is single-threaded.
- Test fixture setup and cleanup (writing and deleting the file): editor file-system I/O. The fixture is the `Fixture` predicate on the container.
- `Read`, `Length` and `Dispose`: they follow the corrected code of the Findings below. The as-written behaviour is kept beside them in `AssetStreamSpec`.

## Findings

| source | as written | input that shows it | evidently intended | confidence | as-written member | corrected member |
|---|---|---|---|---|---|---|
| Runtime/AndroidAssetsStream.cs:62 | `buffer.Length < offset + count` adds in unchecked 32-bit `int` | 26-byte buffer, offset 1, count 2147483647: the sum wraps to -2147483648 and the check passes; a 26-byte entry is then written from index 1 through index 26, past the array | reject every request with offset + count past the buffer | high; not executed | AssetStreamSpec.ReadGuardAsWrittenAdmitsOverrun | AssetStreamSpec.ReadGuard |
| Runtime/AndroidAssetsStream.cs:34-35 | `NativeMethods.GetLength(_asset)` is an argument, so it runs before the closed check | `Length` after `Dispose`: the native getLength receives the zero handle before `ObjectDisposedException` can be raised | check for a closed stream first, as `Read` and `Seek` do | high that the call is made, its native effect unknown; not executed | AssetStreamSpec.LengthAsWrittenQueriesZeroHandle | AndroidAssets.AndroidAssetsStream.Length |
| Runtime/AndroidAssetsStream.cs:106-115 | `Dispose` passes `_asset` to the native close without checking for zero | `Dispose` twice, such as an explicit call inside a `using` block: the second call closes the zero handle | later `Dispose` calls do nothing, as .NET's dispose convention asks | medium; not executed | AssetStreamSpec.DisposeTwiceAsWrittenClosesZeroHandle | AndroidAssets.AndroidAssetsStream.Dispose |
