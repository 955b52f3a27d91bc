/**
 * The fingerprint cache (`CacheManager`): parsed mods keyed by their
 * resolved folder path, each kept with the fingerprint of the two files
 * that decide its structure, `filelist.xml` and `metadata.xml`.  A stored
 * mod is reused only while the fingerprint is unchanged.
 *
 * MD5 is the parameter `md5`, applied to everything fed to the hasher:
 * feeding chunks one after another hashes their concatenation.  Pickle
 * persistence is reduced to what a load or a dump yields.  The files of a
 * mod folder are a map from path to `FileState`.
 */
module Cache {
  import opened Wrappers
  import Package

  type Byte = bv8

  /** The size of one `read` of a fingerprinted file. */
  const ChunkSize: nat := 4096

  /** The two files fingerprinted, in the order they are fed to the hasher. */
  const FingerprintFiles: seq<string> := ["filelist.xml", "metadata.xml"]

  /**
   * A file as the fingerprint sees it: absent, or present with its bytes and
   * the number of chunk reads that succeed before an `OSError` (`None`: the
   * whole file reads; `Some(0)`: opening it fails).
   */
  datatype FileState = Absent | Present(data: seq<Byte>, failsAfter: Option<nat>)

  type Files = map<string, FileState>

  function FileAt(fs: Files, path: string): FileState {
    if path in fs then fs[path] else Absent
  }

  /** The bytes a file feeds to the hasher: all of them, or those of the chunks read before the error. */
  function Contribution(f: FileState): (r: seq<Byte>)
    ensures f.Absent? ==> r == []
    ensures f.Present? ==> r <= f.data
    ensures f.Present? && f.failsAfter.None? ==> r == f.data
    ensures f.Present? && f.failsAfter == Some(0) ==> r == []
  {
    match f
    case Absent => []
    case Present(data, None) => data
    case Present(data, Some(k)) => if k * ChunkSize < |data| then data[..k * ChunkSize] else data
  }

  /** Everything fed to the hasher for the mod folder `modPath`. */
  function HashInput(fs: Files, modPath: string): seq<Byte> {
    Contribution(FileAt(fs, modPath + "/" + FingerprintFiles[0]))
      + Contribution(FileAt(fs, modPath + "/" + FingerprintFiles[1]))
  }

  /** The fingerprint is the hash of the manifest's bytes followed by the metadata's; a missing file adds nothing. */
  lemma HashInputOrder(fs: Files, modPath: string)
    ensures var fl := FileAt(fs, modPath + "/filelist.xml");
      var md := FileAt(fs, modPath + "/metadata.xml");
      && (fl.Present? && fl.failsAfter.None? && md.Present? && md.failsAfter.None? ==> HashInput(fs, modPath) == fl.data + md.data)
      && (fl.Absent? ==> HashInput(fs, modPath) == Contribution(md))
      && (md.Absent? ==> HashInput(fs, modPath) == Contribution(fl))
  {
    assert modPath + "/" + FingerprintFiles[0] == modPath + "/filelist.xml";
    assert modPath + "/" + FingerprintFiles[1] == modPath + "/metadata.xml";
  }

  /** Feeding one file chunk by chunk, as `iter(lambda: f.read(4096), b"")` does. */
  method FeedFile(fed: seq<Byte>, f: FileState) returns (fed': seq<Byte>)
    ensures fed' == fed + Contribution(f)
  {
    fed' := fed;
    if f.Absent? {
      return;
    }
    var pos := 0;
    var done := 0;
    while pos < |f.data|
      invariant 0 <= pos <= |f.data|
      invariant pos == if done * ChunkSize < |f.data| then done * ChunkSize else |f.data|
      invariant f.failsAfter.Some? ==> done <= f.failsAfter.value
      invariant fed' == fed + f.data[..pos]
      decreases |f.data| - pos
    {
      if f.failsAfter.Some? && done == f.failsAfter.value {
        break;
      }
      var next := if pos + ChunkSize < |f.data| then pos + ChunkSize else |f.data|;
      assert f.data[..next] == f.data[..pos] + f.data[pos..next];
      fed' := fed' + f.data[pos..next];
      pos := next;
      done := done + 1;
    }
    assert f.failsAfter.None? ==> f.data[..pos] == f.data;
  }

  /** `_compute_mod_hash`: the hash of both files' bytes, fed in order. */
  method ComputeModHash(fs: Files, modPath: string, md5: seq<Byte> -> string) returns (h: string)
    ensures h == md5(HashInput(fs, modPath))
  {
    var fed: seq<Byte> := [];
    var i := 0;
    while i < |FingerprintFiles|
      invariant 0 <= i <= |FingerprintFiles|
      invariant fed == if i == 0 then []
                       else if i == 1 then Contribution(FileAt(fs, modPath + "/" + FingerprintFiles[0]))
                       else HashInput(fs, modPath)
    {
      var path := modPath + "/" + FingerprintFiles[i];
      var f := FileAt(fs, path);
      if f.Present? {
        fed := FeedFile(fed, f);
      }
      i := i + 1;
    }
    h := md5(fed);
  }

  /** A stored mod and the fingerprint it was stored with. */
  type Entry = (string, Package.ModUnit)

  /** What unpickling the cache file gives: no file, an error, or the stored map. */
  datatype StoredCache = NoCacheFile | Unreadable | Stored(entries: map<string, Entry>)

  /**
   * The map `init` ends with: an existing file replaces it with its
   * contents, or with an empty map when it fails to load; no file leaves
   * it as it was.
   */
  function Reloaded(stored: StoredCache, before: map<string, Entry>): map<string, Entry> {
    match stored
    case NoCacheFile => before
    case Unreadable => map[]
    case Stored(m) => m
  }

  /**
   * What the cache file holds once `save` has opened it for writing, as
   * written: every `ModUnit` carries a `threading.Lock`, which `pickle.dump`
   * refuses, so only an empty map is written; any other map leaves a
   * truncated file that no longer loads.
   */
  function Dumped(data: map<string, Entry>): StoredCache {
    if data == map[] then Stored(map[]) else Unreadable
  }

  /** What the cache file was evidently meant to hold: the whole map. */
  function DumpedIntended(data: map<string, Entry>): StoredCache {
    Stored(data)
  }

  /** The lookup `get_cached_mod` performs: the stored mod when the fingerprint matches. */
  function Lookup(data: map<string, Entry>, key: string, current: string): (r: Option<Package.ModUnit>)
    ensures r.Some? <==> key in data && data[key].0 == current
    ensures r.Some? ==> r.value == data[key].1
  {
    if key in data && data[key].0 == current then Some(data[key].1) else None
  }

  /** An entry written with the current fingerprint is found again, and other keys are unaffected. */
  lemma {:induction false} LookupAfterStore(data: map<string, Entry>, key: string, h: string, m: Package.ModUnit,
                                           other: string, current: string)
    ensures Lookup(data[key := (h, m)], key, h) == Some(m)
    ensures other != key ==> Lookup(data[key := (h, m)], other, current) == Lookup(data, other, current)
  {
  }

  class CacheManager {
    var cacheFile: string
    var data: map<string, Entry>
    var dirty: bool

    /** The class-level defaults. */
    constructor ()
      ensures cacheFile == "mod_cache.pkl" && data == map[] && !dirty
    {
      cacheFile := "mod_cache.pkl";
      data := map[];
      dirty := false;
    }

    /**
     * `init`: the cache file moves under the data folder (a `Path` is always
     * truthy), and the map becomes what the file reloads to.
     */
    method Init(dataRoot: string, stored: StoredCache)
      modifies this
      ensures cacheFile == dataRoot + "/mod_cache.pkl"
      ensures data == Reloaded(stored, old(data))
      ensures stored.Unreadable? ==> data == map[]
      ensures dirty == old(dirty)
    {
      cacheFile := dataRoot + "/mod_cache.pkl";
      match stored {
        case NoCacheFile =>
        case Unreadable => data := map[];
        case Stored(m) => data := m;
      }
    }

    /**
     * `save`: nothing happens unless dirty.  Otherwise the file is opened
     * for writing (`file` is what it then holds, `None` when the open fails)
     * and dirty is cleared only when the dump works, which is only for an
     * empty map.
     */
    method Save(openSucceeds: bool) returns (file: Option<StoredCache>)
      modifies this
      ensures !old(dirty) ==> file.None? && !dirty
      ensures old(dirty) && !openSucceeds ==> file.None? && dirty
      ensures old(dirty) && openSucceeds ==> file == Some(Dumped(data)) && dirty == (data != map[])
      ensures old(dirty) && data != map[] ==> dirty && file != Some(Stored(data))
      ensures data == old(data) && cacheFile == old(cacheFile)
    {
      file := None;
      if !dirty || !openSucceeds {
        return;
      }
      file := Some(Dumped(data));
      dirty := data != map[];
    }

    /** `get_cached_mod`: the stored mod for the resolved path, if its fingerprint still matches. */
    method GetCachedMod(modPath: string, resolve: string -> string, fs: Files, md5: seq<Byte> -> string)
      returns (r: Option<Package.ModUnit>)
      ensures r == Lookup(data, resolve(modPath), md5(HashInput(fs, modPath)))
    {
      var key := resolve(modPath);
      if key !in data {
        return None;
      }
      var (cachedHash, modUnit) := data[key];
      var current := ComputeModHash(fs, modPath, md5);
      if current == cachedHash {
        return Some(modUnit);
      }
      return None;
    }

    /** `update_cache`: the entry for the mod's resolved path becomes its current fingerprint and the mod. */
    method UpdateCache(m: Option<Package.ModUnit>, resolve: string -> string, fs: Files, md5: seq<Byte> -> string)
      modifies this
      ensures m.None? ==> data == old(data) && dirty == old(dirty)
      ensures m.Some? ==> data == old(data)[resolve(m.value.path.text) := (md5(HashInput(fs, m.value.path.text)), m.value)]
      ensures m.Some? ==> dirty
      ensures cacheFile == old(cacheFile)
    {
      if m.None? {
        return;
      }
      var key := resolve(m.value.path.text);
      var current := ComputeModHash(fs, m.value.path.text, md5);
      data := data[key := (current, m.value)];
      dirty := true;
    }

    /** `clear`: an empty map, marked dirty; the cache file is deleted when that works, and a failure is ignored. */
    method Clear(fileExists: bool, unlinkSucceeds: bool) returns (deleted: bool)
      modifies this
      ensures data == map[] && dirty
      ensures deleted <==> fileExists && unlinkSucceeds
      ensures cacheFile == old(cacheFile)
    {
      data := map[];
      dirty := true;
      deleted := fileExists && unlinkSucceeds;
    }
  }

  /**
   * Storing a mod and looking it up again with the files unchanged gives
   * that mod back: the fingerprint `update_cache` stores is the one
   * `get_cached_mod` recomputes.
   */
  lemma UpdateThenGet(data: map<string, Entry>, m: Package.ModUnit, resolve: string -> string, fs: Files,
                      md5: seq<Byte> -> string)
    ensures var key := resolve(m.path.text);
      var stored := data[key := (md5(HashInput(fs, m.path.text)), m)];
      Lookup(stored, key, md5(HashInput(fs, m.path.text))) == Some(m)
  {
    var key := resolve(m.path.text);
    LookupAfterStore(data, key, md5(HashInput(fs, m.path.text)), m, key, md5(HashInput(fs, m.path.text)));
  }

  /**
   * As written, a mod stored in the cache is gone after `save` and a
   * restart: the file it was saved to no longer loads.
   */
  lemma RestartLosesStoredMod(data: map<string, Entry>, key: string, h: string, m: Package.ModUnit,
                              before: map<string, Entry>)
    ensures Lookup(Reloaded(Dumped(data[key := (h, m)]), before), key, h) == None
  {
    assert key in data[key := (h, m)];
  }

  /** With the whole map written, a stored mod is found again after a restart. */
  lemma RestartKeepsStoredMod(data: map<string, Entry>, key: string, h: string, m: Package.ModUnit,
                              before: map<string, Entry>)
    ensures Lookup(Reloaded(DumpedIntended(data[key := (h, m)]), before), key, h) == Some(m)
  {
    LookupAfterStore(data, key, h, m, key, h);
  }
}
