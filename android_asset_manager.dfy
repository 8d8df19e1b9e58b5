/** The static class AndroidAssetManager: a process-wide, lazily looked-up
    native asset manager, through which entries are opened. Dafny has no
    static mutable fields, so the process-wide state is one object that every
    archive stream is handed. */
module AssetManager {
  import opened StreamTypes
  import opened NativeMethods

  class AndroidAssetManager {
    /** The cached `_assetManager`; NullManager is IntPtr.Zero. */
    var assetManager: AAssetManager
    /** What the JNI lookup (GetAssetManager) yields: the package's container.
        The lookup itself is platform glue outside the model. */
    const platform: AAssetManager
    /** How many times the JNI lookup has run. */
    ghost var lookups: nat

    /** The cache is empty and no lookup has run, or it holds the lookup's
        result and the lookup ran exactly once. */
    ghost predicate Valid()
      reads this
    {
      platform.Manager? &&
      ((assetManager == NullManager && lookups == 0) ||
       (assetManager == platform && lookups == 1))
    }

    /** Process start: nothing cached yet. */
    constructor (platform: AAssetManager)
      requires platform.Manager?
      ensures Valid() && this.platform == platform
      ensures assetManager == NullManager && lookups == 0
    {
      this.platform := platform;
      assetManager := NullManager;
      lookups := 0;
    }

    /** GetAssetManager: the JNI lookup of the native manager. */
    method GetAssetManager() returns (m: AAssetManager)
      modifies this`lookups
      ensures m == platform
      ensures lookups == old(lookups) + 1
    {
      m := platform;
      lookups := lookups + 1;
    }

    /** Open: fill the cache on first use, then open `path` in Buffer mode;
        a zero handle becomes FileNotFoundException. */
    method Open(path: string) returns (r: Result<AAsset>)
      requires Valid()
      modifies this
      ensures Valid() && assetManager == platform
      ensures old(assetManager) != NullManager ==> lookups == old(lookups)
      ensures r.Err? <==> path !in platform.entries
      ensures r.Err? ==> r.error == FileNotFound
      ensures r.Ok? ==> Live(r.value) && r.value.mode == Buffer
      ensures r.Ok? ==> r.value == Entry(platform.entries[path], 0, Buffer)
    {
      if assetManager == NullManager {
        assetManager := GetAssetManager();
      }
      var asset := NativeMethods.Open(assetManager, path, Buffer);
      if asset == Zero {
        return Err(FileNotFound);
      }
      return Ok(asset);
    }
  }
}
