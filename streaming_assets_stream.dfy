/** StreamingAssetsStream: a stream over a file under StreamingAssets. At
    construction it picks one backend from the path; every member afterwards
    forwards to that backend unchanged. On the Android player the backend is
    the archive stream; the FileStream backend of other builds is modelled only
    as far as the path it is opened on. */
module StreamingAssets {
  import opened StreamTypes
  import opened NativeMethods
  import opened AssetStreamSpec
  import opened AssetManager
  import opened AndroidAssets

  // ---------------------------------------------------------------- path normalisation

  /** The scheme of a path that points into the package archive. */
  const JarFilePrefix: string := "jar:file://"
  /** The marker after which the archive-internal asset path begins. */
  const AssetsPrefix: string := "!/assets/"

  /** Upper-case folding of an ASCII letter; other characters are unchanged. */
  function ToUpperAscii(c: char): char
  {
    if 'a' <= c <= 'z' then (c as int - 'a' as int + 'A' as int) as char else c
  }

  /** String.StartsWith(prefix, OrdinalIgnoreCase). */
  predicate StartsWithIgnoreCase(s: string, prefix: string): (b: bool)
    ensures b ==> |prefix| <= |s|
    ensures |prefix| <= |s| && s[..|prefix|] == prefix ==> b
  {
    |prefix| <= |s| && forall i :: 0 <= i < |prefix| ==> ToUpperAscii(s[i]) == ToUpperAscii(prefix[i])
  }

  /** A path in the `jar:file://…!/assets/…` form. */
  predicate IsJarPath(path: string)
  {
    StartsWithIgnoreCase(path, JarFilePrefix)
  }

  /** The scheme test ignores case: the upper-case spelling of the scheme
      marks a jar path as the lower-case one does, and a path shorter than the
      scheme never does. */
  lemma JarSchemeIgnoresCase(rest: string)
    ensures IsJarPath(JarFilePrefix + rest)
    ensures IsJarPath("JAR:FILE://" + rest)
    ensures IsJarPath("Jar:File://" + rest)
    ensures |rest| < |JarFilePrefix| ==> !IsJarPath(rest)
  {
    var upper := "JAR:FILE://" + rest;
    assert forall i :: 0 <= i < |JarFilePrefix| ==> ToUpperAscii(upper[i]) == ToUpperAscii(JarFilePrefix[i]);
    var mixed := "Jar:File://" + rest;
    assert forall i :: 0 <= i < |JarFilePrefix| ==> ToUpperAscii(mixed[i]) == ToUpperAscii(JarFilePrefix[i]);
  }

  /** Whatever follows it, a scheme spelled in any mix of cases marks a jar
      path exactly when it folds to `jar:file://` letter by letter. */
  lemma JarSchemeAnySpelling(scheme: string, rest: string)
    requires |scheme| == |JarFilePrefix|
    ensures IsJarPath(scheme + rest) <==>
      forall i :: 0 <= i < |scheme| ==> ToUpperAscii(scheme[i]) == ToUpperAscii(JarFilePrefix[i])
  {
    assert forall i :: 0 <= i < |scheme| ==> (scheme + rest)[i] == scheme[i];
  }

  /** `pattern` occurs in `s` starting at index `i` (ordinal comparison). */
  predicate OccursAt(s: string, pattern: string, i: int)
  {
    0 <= i && i + |pattern| <= |s| && s[i..i + |pattern|] == pattern
  }

  predicate Contains(s: string, pattern: string)
  {
    exists i :: 0 <= i <= |s| - |pattern| && OccursAt(s, pattern, i)
  }

  /** The last index at or before `k` where `pattern` starts, or -1. */
  function LastIndexAtOrBefore(s: string, pattern: string, k: int): (r: int)
    decreases k + 1
    ensures -1 <= r && (r >= 0 ==> r <= k)
    ensures r >= 0 ==> OccursAt(s, pattern, r)
    ensures forall j :: r < j <= k ==> !OccursAt(s, pattern, j)
  {
    if k < 0 then -1
    else if OccursAt(s, pattern, k) then k
    else LastIndexAtOrBefore(s, pattern, k - 1)
  }

  /** String.LastIndexOf(pattern, Ordinal): the start of the last occurrence, or -1. */
  function LastIndexOf(s: string, pattern: string): (r: int)
    ensures r >= 0 <==> Contains(s, pattern)
    ensures r >= 0 ==> OccursAt(s, pattern, r)
    ensures forall j :: OccursAt(s, pattern, j) ==> j <= r
  {
    LastIndexAtOrBefore(s, pattern, |s| - |pattern|)
  }

  /** The entry name OpenStream hands to the archive backend: a jar path is cut
      after the last "!/assets/", any other path goes through unchanged. A jar
      path without the marker fails the source's assertion. */
  function AndroidEntryPath(path: string): (r: string)
    requires IsJarPath(path) ==> Contains(path, AssetsPrefix)
    ensures !IsJarPath(path) ==> r == path
    ensures IsJarPath(path) ==> |r| < |path| && r == path[|path| - |r|..]
  {
    if IsJarPath(path) then path[LastIndexOf(path, AssetsPrefix) + |AssetsPrefix|..] else path
  }

  /** Cutting `s` after the last occurrence of a non-empty `pattern` leaves
      the text before it, the pattern, and a remainder free of the pattern. */
  lemma {:induction false} CutAfterLast(s: string, pattern: string)
    requires |pattern| > 0 && Contains(s, pattern)
    ensures var i := LastIndexOf(s, pattern);
      0 <= i && i + |pattern| <= |s| &&
      s == s[..i] + pattern + s[i + |pattern|..] &&
      !Contains(s[i + |pattern|..], pattern)
  {
    var i := LastIndexOf(s, pattern);
    var n := |pattern|;
    var rest := s[i + n..];
    assert OccursAt(s, pattern, i);
    assert s == s[..i] + s[i..i + n] + rest;
    if Contains(rest, pattern) {
      var j :| 0 <= j <= |rest| - n && OccursAt(rest, pattern, j);
      assert s[i + n + j..i + n + j + n] == rest[j..j + n];
      assert OccursAt(s, pattern, i + n + j);
      assert false;
    }
  }

  /** A jar path is the text before the last marker, the marker, and the entry
      name; and the entry name holds no further marker. */
  lemma {:induction false} JarPathSplitsAtLastMarker(path: string)
    requires IsJarPath(path) && Contains(path, AssetsPrefix)
    ensures var i := LastIndexOf(path, AssetsPrefix);
      0 <= i && path == path[..i] + AssetsPrefix + AndroidEntryPath(path)
    ensures !Contains(AndroidEntryPath(path), AssetsPrefix)
  {
    CutAfterLast(path, AssetsPrefix);
  }

  /** Path.IsPathRooted, for '/'-separated paths. */
  predicate IsPathRooted(path: string): (b: bool)
    ensures b ==> path != [] && path[0] == '/'
    ensures path != [] && path[0] == '/' ==> b
  {
    |path| > 0 && path[0] == '/'
  }

  /** Path.Combine(root, path) for a relative `path`: an empty side yields the
      other, and one '/' is inserted only when `root` does not end in one. */
  function CombinePath(root: string, path: string): (r: string)
    requires !IsPathRooted(path)
    ensures |root| + |path| <= |r| <= |root| + 1 + |path|
    ensures r[..|root|] == root && r[|r| - |path|..] == path
    ensures path == [] ==> r == root
    ensures root == [] ==> r == path
    ensures |r| == |root| + 1 + |path| ==> r[|root|] == '/' && root[|root| - 1] != '/'
  {
    if path == [] then root
    else if root == [] || root[|root| - 1] == '/' then root + path
    else root + "/" + path
  }

  /** The backend OpenStream opens: an archive entry, or a file under the
      streaming-assets root. */
  datatype Backend = ArchiveEntry(entry: string) | FileEntry(fullPath: string)

  /** OpenStream's choice. `androidPlayer` stands for the compile-time
      `UNITY_ANDROID && !UNITY_EDITOR`, `streamingAssetsPath` for
      Application.streamingAssetsPath. */
  function OpenStreamTarget(path: string, androidPlayer: bool, streamingAssetsPath: string): (b: Backend)
    requires androidPlayer && IsJarPath(path) ==> Contains(path, AssetsPrefix)
    requires !androidPlayer ==> !IsPathRooted(path)
    ensures b.ArchiveEntry? <==> androidPlayer
    ensures androidPlayer && !IsJarPath(path) ==> b.entry == path
    ensures androidPlayer && IsJarPath(path) ==> !Contains(b.entry, AssetsPrefix)
    ensures androidPlayer ==> b.entry == AndroidEntryPath(path)
    ensures !androidPlayer ==> b.fullPath == CombinePath(streamingAssetsPath, path)
    ensures !androidPlayer ==>
      |streamingAssetsPath| + |path| <= |b.fullPath| &&
      b.fullPath[..|streamingAssetsPath|] == streamingAssetsPath &&
      b.fullPath[|b.fullPath| - |path|..] == path
  {
    if androidPlayer then
      if IsJarPath(path) then JarPathSplitsAtLastMarker(path); ArchiveEntry(AndroidEntryPath(path))
      else ArchiveEntry(path)
    else FileEntry(CombinePath(streamingAssetsPath, path))
  }

  // ---------------------------------------------------------------- the facade

  class StreamingAssetsStream {
    /** `_impl`: the backend, assigned once at construction. */
    const impl: AndroidAssetsStream

    ghost predicate Valid()
      reads this, impl
    {
      impl.Valid()
    }

    constructor Wrap(backend: AndroidAssetsStream)
      requires backend.Valid()
      ensures Valid() && impl == backend
    {
      impl := backend;
    }

    /** `new StreamingAssetsStream(path)` on the Android player: normalise the
        path and open the archive backend on it; a missing entry surfaces as
        FileNotFoundException. */
    static method Open(manager: AndroidAssetManager, path: string) returns (r: Result<StreamingAssetsStream>)
      requires manager.Valid()
      requires IsJarPath(path) ==> Contains(path, AssetsPrefix)
      modifies manager
      ensures manager.Valid() && manager.assetManager == manager.platform
      ensures r.Err? <==> AndroidEntryPath(path) !in manager.platform.entries
      ensures r.Err? ==> r.error == FileNotFound
      ensures r.Ok? ==> fresh(r.value) && fresh(r.value.impl) && r.value.Valid() && r.value.impl.calls == []
      ensures r.Ok? ==> r.value.impl.asset == Entry(manager.platform.entries[AndroidEntryPath(path)], 0, Buffer)
    {
      var target := OpenStreamTarget(path, true, "");
      var backend := AndroidAssetsStream.Create(manager, target.entry);
      if backend.Err? {
        return Err(backend.error);
      }
      var stream := new StreamingAssetsStream.Wrap(backend.value);
      r := Ok(stream);
    }

    function CanRead(): (b: bool)
      reads this
      ensures b
    {
      impl.CanRead()
    }

    function CanSeek(): (b: bool)
      reads this
      ensures b
    {
      impl.CanSeek()
    }

    function CanWrite(): (b: bool)
      reads this
      ensures !b
    {
      impl.CanWrite()
    }

    method Length() returns (r: Result<int>)
      requires Valid()
      modifies impl`calls
      ensures Valid()
      ensures r == LengthSpec(impl.asset)
      ensures impl.calls == old(impl.calls) + LengthCalls(impl.asset)
    {
      r := impl.Length();
    }

    method GetPosition(fault: bool) returns (r: Result<int>)
      requires Valid()
      modifies impl
      ensures Valid()
      ensures r == SeekSpec(old(impl.asset), 0, Current, fault).outcome
      ensures impl.asset == old(impl.asset)
      ensures r.Ok? ==> r.value == impl.asset.position
      ensures impl.calls == old(impl.calls) + SeekCalls(old(impl.asset), 0, Current)
    {
      r := impl.GetPosition(fault);
    }

    method SetPosition(value: int, fault: bool) returns (r: Outcome)
      requires Valid() && IsInt64(value)
      modifies impl
      ensures Valid()
      ensures r == Discard(SeekSpec(old(impl.asset), value, Begin, fault).outcome)
      ensures impl.asset == SeekSpec(old(impl.asset), value, Begin, fault).after
      ensures impl.calls == old(impl.calls) + SeekCalls(old(impl.asset), value, Begin)
    {
      r := impl.SetPosition(value, fault);
    }

    method Flush() returns (r: Outcome)
      ensures r == Pass
    {
      r := impl.Flush();
    }

    method Read(buffer: array?<byte>, offset: int, count: int, fault: bool) returns (r: Result<int>)
      requires Valid() && IsInt32(offset) && IsInt32(count)
      modifies impl, buffer
      ensures Valid()
      ensures var len := if buffer == null then 0 else buffer.Length;
        r == ReadSpec(old(impl.asset), buffer == null, len, offset, count, fault).outcome &&
        impl.asset == ReadSpec(old(impl.asset), buffer == null, len, offset, count, fault).after &&
        impl.calls == old(impl.calls) + ReadCalls(old(impl.asset), buffer == null, len, offset, count)
      ensures buffer != null ==> BufferAfterRead(old(buffer[..]), buffer[..], offset, old(impl.asset), r)
    {
      r := impl.Read(buffer, offset, count, fault);
    }

    method Seek(offset: int, origin: SeekOrigin, fault: bool) returns (r: Result<int>)
      requires Valid() && IsInt64(offset)
      modifies impl
      ensures Valid()
      ensures r == SeekSpec(old(impl.asset), offset, origin, fault).outcome
      ensures impl.asset == SeekSpec(old(impl.asset), offset, origin, fault).after
      ensures impl.calls == old(impl.calls) + SeekCalls(old(impl.asset), offset, origin)
    {
      r := impl.Seek(offset, origin, fault);
    }

    method SetLength(value: int) returns (r: Outcome)
      ensures r == Fail(NotSupported)
    {
      r := impl.SetLength(value);
    }

    method Write(buffer: array?<byte>, offset: int, count: int) returns (r: Outcome)
      ensures r == Fail(NotSupported)
    {
      r := impl.Write(buffer, offset, count);
    }

    /** Dispose(fromManaged): a managed dispose disposes the backend; the
        finaliser path leaves it alone. */
    method Dispose(fromManaged: bool)
      requires Valid()
      modifies impl
      ensures Valid()
      ensures fromManaged ==> impl.asset == Zero && impl.calls == old(impl.calls) + DisposeCalls(old(impl.asset))
      ensures !fromManaged ==> impl.asset == old(impl.asset) && impl.calls == old(impl.calls)
    {
      if fromManaged {
        impl.Dispose();
      }
    }
  }
}
