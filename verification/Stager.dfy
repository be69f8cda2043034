/** The controller side of input staging: blobs, manifest and caches (osimflow/input_staging.py). */
module Stager {
  import opened Wrappers
  import opened RelativePaths
  import opened InputStaging

  type Storage = map<string, Bytes>

  datatype Reference =
    | StagedOutput(path: string)
    | StagedInput(path: string, kind: string, role: string, manifest: string)

  /** A cached digest belongs to one file of one staged path, whose size and time never change. */
  datatype CacheKey = CacheKey(path: string, rel: Path)

  /** The object stored under a content-addressed key has that hash. */
  predicate HonestBlob(codec: Codec, storage: Storage, sha: string) {
    BlobKey(sha) in storage && codec.hash(storage[BlobKey(sha)]) == sha
  }

  predicate HonestManifest(codec: Codec, storage: Storage, sha: string) {
    ManifestKey(sha) in storage && codec.hash(storage[ManifestKey(sha)]) == sha
  }

  /** Objects already stored honestly stay so. */
  ghost predicate StillHonest(codec: Codec, before: Storage, after: Storage) {
    && (forall sha :: HonestBlob(codec, before, sha) ==> HonestBlob(codec, after, sha))
    && (forall sha :: HonestManifest(codec, before, sha) ==> HonestManifest(codec, after, sha))
  }

  lemma BlobUploadIsHonest(codec: Codec, storage: Storage, content: Bytes)
    ensures var after := storage[BlobKey(codec.hash(content)) := content];
            StillHonest(codec, storage, after) && HonestBlob(codec, after, codec.hash(content))
  {
    var key := BlobKey(codec.hash(content));
    forall sha ensures BlobKey(sha) == key ==> sha == codec.hash(content) {
      KeysDiffer(sha, codec.hash(content));
    }
    forall sha ensures ManifestKey(sha) != key {
      KeysDiffer(codec.hash(content), sha);
    }
  }

  lemma ManifestUploadIsHonest(codec: Codec, storage: Storage, raw: Bytes)
    ensures var after := storage[ManifestKey(codec.hash(raw)) := raw];
            StillHonest(codec, storage, after) && HonestManifest(codec, after, codec.hash(raw))
  {
    var key := ManifestKey(codec.hash(raw));
    forall sha ensures ManifestKey(sha) == key ==> sha == codec.hash(raw) {
      KeysDiffer(sha, codec.hash(raw));
      KeysDiffer(codec.hash(raw), sha);
    }
    forall sha ensures BlobKey(sha) != key {
      KeysDiffer(sha, codec.hash(raw));
    }
  }

  function FileIn(es: seq<Entry>, rel: Path): (r: Option<File>)
    ensures r.Some? ==> Regular(rel, r.value) in es
  {
    if es == [] then None
    else
      var last := es[|es| - 1];
      if last.Regular? && last.rel == rel then Some(last.file) else FileIn(es[..|es| - 1], rel)
  }

  function FileAt(s: Source, rel: Path): Option<File> {
    match s
    case FileSource(_, file) => if rel == [] then Some(file) else None
    case DirSource(_, entries) => FileIn(entries, rel)
    case _ => None
  }

  lemma {:induction false} FileInAt(es: seq<Entry>, i: nat)
    requires i < |es| && es[i].Regular?
    requires forall j, k :: 0 <= j < k < |es| ==> es[j].rel != es[k].rel
    ensures FileIn(es, es[i].rel) == Some(es[i].file)
  {
    if i < |es| - 1 {
      var init := es[..|es| - 1];
      assert forall j :: 0 <= j < |init| ==> init[j] == es[j];
      assert es[i].rel != es[|es| - 1].rel;
      FileInAt(init, i);
    }
  }

  /** `disk` is the fixed source tree; `accepts` says which uploads go through. */
  class InputStager {
    const codec: Codec
    const disk: string -> Source
    var storage: Storage
    var uploaded: set<string>
    var hashes: map<CacheKey, string>

    ghost predicate Valid()
      reads this
    {
      && (forall sha :: sha in uploaded ==> HonestBlob(codec, storage, sha))
      && (forall k :: k in hashes ==>
            FileAt(disk(k.path), k.rel).Some? && hashes[k] == codec.hash(FileAt(disk(k.path), k.rel).value.content))
    }

    constructor (codec: Codec, disk: string -> Source, storage: Storage)
      ensures Valid() && this.codec == codec && this.disk == disk && this.storage == storage
    {
      this.codec, this.disk, this.storage := codec, disk, storage;
      uploaded, hashes := {}, map[];
    }

    /** `_hash`: the cached digest is the digest. */
    method Hash(path: string, rel: Path, file: File) returns (sha: string)
      requires Valid() && FileAt(disk(path), rel) == Some(file)
      modifies this`hashes
      ensures Valid() && sha == codec.hash(file.content)
    {
      var key := CacheKey(path, rel);
      if key in hashes {
        return hashes[key];
      }
      sha := codec.hash(file.content);
      hashes := hashes[key := sha];
    }

    /** `_upload_blob`: a digest uploaded before is not uploaded again. */
    method UploadBlob(content: Bytes, sha: string, accepts: string -> bool) returns (ok: bool)
      requires Valid() && sha == codec.hash(content)
      modifies this`storage, this`uploaded
      ensures Valid() && StillHonest(codec, old(storage), storage)
      ensures ok ==> HonestBlob(codec, storage, sha)
      ensures !ok ==> storage == old(storage) && uploaded == old(uploaded) && !accepts(BlobKey(sha))
    {
      if sha in uploaded {
        return true;
      }
      if !accepts(BlobKey(sha)) {
        return false;
      }
      BlobUploadIsHonest(codec, storage, content);
      storage := storage[BlobKey(sha) := content];
      uploaded := uploaded + {sha};
      ok := true;
    }

    method StageFile(path: string, rel: Path, name: string, file: File, accepts: string -> bool) returns (r: Option<ManifestFile>)
      requires Valid() && FileAt(disk(path), rel) == Some(file)
      modifies this
      ensures Valid() && StillHonest(codec, old(storage), storage)
      ensures (forall k :: accepts(k)) ==> r.Some?
      ensures r.Some? ==> r.value == FileEntry(codec, name, file) && HonestBlob(codec, storage, codec.hash(file.content))
    {
      var sha := Hash(path, rel, file);
      var ok := UploadBlob(file.content, sha, accepts);
      if !ok {
        return None;
      }
      r := Some(ManifestFile(name, Some(|file.content|), Some(sha), Some(file.mode % 512)));
    }

    /** One child of the walk; `before` is the storage the walk started with. */
    method StageChild(path: string, es: seq<Entry>, i: nat, accepts: string -> bool, listing: Listing, ghost before: Storage)
      returns (r: Option<Listing>)
      requires Valid() && disk(path).DirSource? && disk(path).entries == es && WfEntries(es) && i < |es|
      requires StillHonest(codec, before, storage) && Listed(codec, storage, es[..i], listing)
      modifies this
      ensures Valid() && StillHonest(codec, before, storage)
      ensures (forall k :: accepts(k)) ==> r.Some?
      ensures r.Some? ==> Listed(codec, storage, es[..i + 1], r.value)
    {
      match es[i]
      case Dir(rel) =>
        ListedMore(codec, storage, storage, es, i, listing);
        r := Some(listing.(dirs := listing.dirs + [Posix(rel)]));
      case Regular(rel, file) =>
        FileInAt(es, i);
        ghost var current := storage;
        var staged := StageFile(path, rel, Posix(rel), file, accepts);
        if staged.None? {
          return None;
        }
        ListedMore(codec, current, storage, es, i, listing);
        r := Some(listing.(files := listing.files + [staged.value]));
      case Other(_) =>
        ListedMore(codec, storage, storage, es, i, listing);
        r := Some(listing);
    }

    /** The walk over a directory's children. */
    method StageEntries(path: string, es: seq<Entry>, accepts: string -> bool) returns (r: Option<Listing>)
      requires Valid() && disk(path).DirSource? && disk(path).entries == es && WfEntries(es)
      modifies this
      ensures Valid() && StillHonest(codec, old(storage), storage)
      ensures (forall k :: accepts(k)) ==> r.Some?
      ensures r.Some? ==> Listed(codec, storage, es, r.value)
    {
      var listing := Listing([], []);
      for i := 0 to |es|
        invariant Valid() && StillHonest(codec, old(storage), storage)
        invariant Listed(codec, storage, es[..i], listing)
      {
        var next := StageChild(path, es, i, accepts, listing, old(storage));
        if next.None? {
          return None;
        }
        listing := next.value;
      }
      assert es[..|es|] == es;
      r := Some(listing);
    }

    /** `stage_path`; None is an `InputStagingError`. */
    method StagePath(path: string, role: string, accepts: string -> bool) returns (r: Option<Reference>)
      requires Valid() && WfSource(disk(path))
      modifies this
      ensures Valid() && StillHonest(codec, old(storage), storage)
      ensures disk(path).Missing? ==> r == Some(StagedOutput(path)) && storage == old(storage)
      ensures disk(path).NonRegular? ==> r.None? && storage == old(storage)
      ensures !disk(path).NonRegular? && (forall k :: accepts(k)) ==> r.Some?
      ensures (disk(path).FileSource? || disk(path).DirSource?) && r.Some? ==>
                && r.value == StagedInput(path, if disk(path).DirSource? then "dir" else "file", role, ManifestHash(codec, disk(path)))
                && Stored(codec, storage, disk(path))
    {
      var s := disk(path);
      if s.Missing? {
        return Some(StagedOutput(path));
      }
      if s.NonRegular? {
        return None;
      }
      var files: seq<ManifestFile>, dirs: seq<string>;
      if s.DirSource? {
        var listed := StageEntries(path, s.entries, accepts);
        if listed.None? {
          return None;
        }
        files, dirs := listed.value.files, listed.value.dirs;
        BlobsAreContents(codec, storage, s);
      } else {
        var staged := StageFile(path, [], s.name, s.file, accepts);
        if staged.None? {
          return None;
        }
        files, dirs := [staged.value], [];
      }
      assert ContentsStored(codec, storage, s);
      var manifest := Manifest(SCHEMA, if s.DirSource? then "dir" else "file", s.name, files, dirs);
      assert manifest == ManifestOf(codec, s);
      var raw := codec.encode(manifest);
      var sha := codec.hash(raw);
      if !accepts(ManifestKey(sha)) {
        return None;
      }
      ManifestUploadIsHonest(codec, storage, raw);
      storage := storage[ManifestKey(sha) := raw];
      r := Some(StagedInput(path, manifest.kind, role, sha));
    }
  }

  datatype Listing = Listing(files: seq<ManifestFile>, dirs: seq<string>)

  /** The listing is that of the children walked so far, whose blobs are all stored. */
  predicate Listed(codec: Codec, storage: Storage, es: seq<Entry>, listing: Listing) {
    && listing.files == FileEntries(codec, Regulars(es)) && listing.dirs == PosixAll(Subdirs(es))
    && BlobsStored(codec, storage, Regulars(es))
  }

  lemma ListedMore(codec: Codec, before: Storage, after: Storage, es: seq<Entry>, i: nat, listing: Listing)
    requires i < |es| && Listed(codec, before, es[..i], listing) && StillHonest(codec, before, after)
    requires es[i].Regular? ==> HonestBlob(codec, after, codec.hash(es[i].file.content))
    ensures Listed(codec, after, es[..i + 1],
                   match es[i]
                   case Dir(rel) => listing.(dirs := listing.dirs + [Posix(rel)])
                   case Regular(rel, file) => listing.(files := listing.files + [FileEntry(codec, Posix(rel), file)])
                   case Other(_) => listing)
  {
    PrefixGrows(codec, es, i);
    BlobsStayStored(codec, before, after, Regulars(es[..i]));
  }

  predicate BlobsStored(codec: Codec, storage: Storage, rs: seq<Entry>) {
    forall e :: e in rs && e.Regular? ==> HonestBlob(codec, storage, codec.hash(e.file.content))
  }

  lemma BlobsStayStored(codec: Codec, before: Storage, after: Storage, rs: seq<Entry>)
    requires BlobsStored(codec, before, rs) && StillHonest(codec, before, after)
    ensures BlobsStored(codec, after, rs)
  {
  }

  lemma PrefixGrows(codec: Codec, es: seq<Entry>, i: nat)
    requires i < |es|
    ensures es[i].Dir? ==> PosixAll(Subdirs(es[..i + 1])) == PosixAll(Subdirs(es[..i])) + [Posix(es[i].rel)]
    ensures !es[i].Dir? ==> Subdirs(es[..i + 1]) == Subdirs(es[..i])
    ensures es[i].Regular? ==>
              && Regulars(es[..i + 1]) == Regulars(es[..i]) + [es[i]]
              && FileEntries(codec, Regulars(es[..i + 1])) ==
                 FileEntries(codec, Regulars(es[..i])) + [FileEntry(codec, Posix(es[i].rel), es[i].file)]
    ensures !es[i].Regular? ==> Regulars(es[..i + 1]) == Regulars(es[..i])
  {
    assert es[..i + 1][..i] == es[..i];
  }

  predicate ContentsStored(codec: Codec, storage: Storage, s: Source)
    requires s.FileSource? || s.DirSource?
  {
    forall i :: 0 <= i < |Contents(s)| ==> HonestBlob(codec, storage, codec.hash(Contents(s)[i]))
  }

  lemma BlobsAreContents(codec: Codec, storage: Storage, s: Source)
    requires s.DirSource? && BlobsStored(codec, storage, Regulars(s.entries))
    ensures ContentsStored(codec, storage, s)
  {
    var rs := Regulars(s.entries);
    forall i | 0 <= i < |Contents(s)| ensures HonestBlob(codec, storage, codec.hash(Contents(s)[i])) {
      assert rs[i] in rs;
    }
  }

  /** The manifest and every blob of a source are in storage. */
  predicate Stored(codec: Codec, storage: Storage, s: Source)
    requires s.FileSource? || s.DirSource?
  {
    HonestManifest(codec, storage, ManifestHash(codec, s)) && ContentsStored(codec, storage, s)
  }

  /** Staging other paths later leaves a staged source stored. */
  lemma {:induction false} StoredStays(codec: Codec, before: Storage, after: Storage, s: Source)
    requires (s.FileSource? || s.DirSource?) && Stored(codec, before, s) && StillHonest(codec, before, after)
    ensures Stored(codec, after, s)
  {
  }

  function FromStorage(storage: Storage): Downloads {
    (n, key) => if key in storage then Some(storage[key]) else None
  }

  /** What was staged is rebuilt, with every path, directory, content and mode, from a storage that keeps its objects. */
  lemma {:induction false} StagedIsMaterialized(codec: Codec, storage: Storage, s: Source)
    requires (s.FileSource? || s.DirSource?) && WfSource(s) && Placeable(s) && Hex64(codec, s) && Stored(codec, storage, s)
    requires NoCollision(codec, FromStorage(storage), s)
    requires codec.decode(codec.encode(ManifestOf(codec, s))) == Some(ManifestOf(codec, s))
    ensures Materialized(codec, FromStorage(storage), ManifestHash(codec, s)) == Some(TreeOf(s))
  {
    var dl := FromStorage(storage);
    assert Genuine(codec, dl(0, ManifestKey(ManifestHash(codec, s))), codec.encode(ManifestOf(codec, s)));
    forall i | 0 <= i < |Contents(s)| ensures IntactFile(codec, dl, Contents(s)[i], i + 1) {
      assert HonestBlob(codec, storage, codec.hash(Contents(s)[i]));
      assert Genuine(codec, dl(i + 1, BlobKey(codec.hash(Contents(s)[i]))), Contents(s)[i]);
    }
    MaterializesIffIntact(codec, dl, s);
  }

  /** The mode a rebuilt file gets: the nine permission bits, or rw------- where there are none. */
  function RebuiltMode(mode: nat): int {
    if mode % 512 == 0 then 384 else mode % 512
  }

  /** What the rebuilt tree holds, entry by entry: the staged file alone, or exactly the directories and regular files of the source. */
  lemma {:induction false} RebuiltTreeHolds(codec: Codec, storage: Storage, s: Source)
    requires (s.FileSource? || s.DirSource?) && WfSource(s) && Placeable(s) && Hex64(codec, s) && Stored(codec, storage, s)
    requires NoCollision(codec, FromStorage(storage), s)
    requires codec.decode(codec.encode(ManifestOf(codec, s))) == Some(ManifestOf(codec, s))
    ensures var r := Materialized(codec, FromStorage(storage), ManifestHash(codec, s));
            && r.Some?
            && (s.FileSource? ==> r.value == map[[] := FileNode(s.file.content, Some(RebuiltMode(s.file.mode)))])
            && (s.DirSource? ==>
                  && [] in r.value && r.value[[]] == DirNode
                  && (forall e :: e in s.entries && e.Dir? ==> e.rel in r.value && r.value[e.rel] == DirNode)
                  && (forall e :: e in s.entries && e.Regular? ==>
                        e.rel in r.value && r.value[e.rel] == FileNode(e.file.content, Some(RebuiltMode(e.file.mode))))
                  && (forall p :: p in r.value && p != [] ==> exists e :: e in s.entries && e.rel == p && !e.Other?))
  {
    StagedIsMaterialized(codec, storage, s);
    if s.DirSource? {
      DirTreeHolds(s.entries);
    }
  }

  // ---------------------------------------------------------------------
  // Any manifest, any storage
  // ---------------------------------------------------------------------

  /** The download that filled the manifest entry has its size and its digest, and its path stays below the root. */
  predicate Checked(codec: Codec, dl: Downloads, e: ManifestFile, n: nat) {
    && e.ManifestFile? && e.sha256.Some? && |e.sha256.value| == 64 && e.size.Some?
    && SafeRel(e.path).Some?
    && var got := dl(n, BlobKey(e.sha256.value));
       got.Some? && |got.value| == e.size.value && codec.hash(got.value) == e.sha256.value
  }

  /** One file, fetched intact: an entry without a mode leaves the default, one with a mode sets its nine bits, or rw------- for none. */
  lemma {:induction false} ModeOfFetched(codec: Codec, dl: Downloads, path: string, content: Bytes, mode: int, n: nat)
    requires SafeRel(path).Some? && |codec.hash(content)| == 64 && dl(n, BlobKey(codec.hash(content))) == Some(content)
    ensures Fetched(codec, dl, "file", map[], ManifestFile(path, Some(|content|), Some(codec.hash(content)), None), n) ==
            Some(map[[] := FileNode(content, None)])
    ensures Fetched(codec, dl, "file", map[], ManifestFile(path, Some(|content|), Some(codec.hash(content)), Some(mode)), n) ==
            Some(map[[] := FileNode(content, Some(if mode % 512 == 0 then 384 else mode % 512))])
  {
    var empty: Tree := map[];
    var written: Tree := map[[] := FileNode(content, None)];
    assert empty[[] := FileNode(content, None)] == written;
    assert Put(empty, [], content) == Some(written);
    var marked := FileNode(content, Some(if mode % 512 == 0 then 384 else mode % 512));
    assert written[[] := marked] == map[[] := marked];
  }

  lemma FetchedIsChecked(codec: Codec, dl: Downloads, kind: string, t: Tree, e: ManifestFile, n: nat)
    requires Fetched(codec, dl, kind, t, e, n).Some?
    ensures Checked(codec, dl, e, n)
  {
  }

  lemma LastIsFetched(codec: Codec, dl: Downloads, kind: string, t: Tree, es: seq<ManifestFile>) returns (before: Tree)
    requires es != [] && FetchedAll(codec, dl, kind, t, es).Some?
    ensures FetchedAll(codec, dl, kind, t, es[..|es| - 1]) == Some(before)
    ensures Fetched(codec, dl, kind, before, es[|es| - 1], |es|).Some?
  {
    before := FetchedAll(codec, dl, kind, t, es[..|es| - 1]).value;
  }

  lemma {:induction false} FetchedAreChecked(codec: Codec, dl: Downloads, kind: string, t: Tree, es: seq<ManifestFile>)
    requires FetchedAll(codec, dl, kind, t, es).Some?
    ensures forall i :: 0 <= i < |es| ==> Checked(codec, dl, es[i], i + 1)
  {
    if es != [] {
      var init, last := es[..|es| - 1], es[|es| - 1];
      var before := LastIsFetched(codec, dl, kind, t, es);
      FetchedAreChecked(codec, dl, kind, t, init);
      FetchedIsChecked(codec, dl, kind, before, last, |es|);
      assert forall i :: 0 <= i < |init| ==> es[i] == init[i];
    }
  }

  lemma {:induction false} MadeAreSafe(t: Tree, dirs: seq<string>)
    requires MadeDirs(t, dirs).Some?
    ensures forall i :: 0 <= i < |dirs| ==> SafeRel(dirs[i]).Some?
  {
    if dirs != [] {
      MadeAreSafe(t, dirs[..|dirs| - 1]);
    }
  }

  /** Nothing is materialized from an object that does not hash to the reference, nor from an entry that was not checked. */
  lemma {:induction false} MaterializedIsChecked(codec: Codec, dl: Downloads, sha: string)
    requires Materialized(codec, dl, sha).Some?
    ensures var raw := dl(0, "_inputs/manifests/" + sha + ".json");
            && |sha| == 64 && raw.Some? && codec.hash(raw.value) == sha && codec.decode(raw.value).Some?
            && var m := codec.decode(raw.value).value;
               && m.schema == 1 && (m.kind == "file" || m.kind == "dir")
               && (m.kind == "file" ==> |m.files| == 1)
               && SafeRel(if m.kind == "dir" && m.name == "" then "dir" else m.name).Some?
               && (m.kind == "dir" ==> forall i :: 0 <= i < |m.dirs| ==> SafeRel(m.dirs[i]).Some?)
               && forall i :: 0 <= i < |m.files| ==> Checked(codec, dl, m.files[i], i + 1)
  {
    var m := codec.decode(dl(0, ManifestKey(sha)).value).value;
    if m.kind == "file" {
      FetchedAreChecked(codec, dl, m.kind, map[], m.files);
    } else {
      MadeAreSafe(map[[] := DirNode], m.dirs);
      FetchedAreChecked(codec, dl, m.kind, MadeDirs(map[[] := DirNode], m.dirs).value, m.files);
    }
  }
}
