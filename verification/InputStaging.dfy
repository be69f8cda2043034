/**
 Staging a file or directory as content-addressed blobs with a manifest, and
 rebuilding it on a worker (osimflow/input_staging.py). Hash and JSON coding are
 parameters; what a download returns is arbitrary, and may differ between two
 downloads of the same key.
 */
module InputStaging {
  import opened Wrappers
  import opened RelativePaths

  type Bytes = seq<bv8>

  datatype ManifestFile =
    | Malformed
    | ManifestFile(path: string, size: Option<int>, sha256: Option<string>, mode: Option<int>)

  datatype Manifest = Manifest(schema: int, kind: string, name: string, files: seq<ManifestFile>, dirs: seq<string>)

  datatype Codec = Codec(hash: Bytes -> string, encode: Manifest -> Bytes, decode: Bytes -> Option<Manifest>)

  const SCHEMA := 1

  function Prefix(s: string, n: nat): string {
    if |s| <= n then s else s[..n]
  }

  function BlobKey(sha: string): string {
    "_inputs/blobs/" + Prefix(sha, 2) + "/" + sha
  }

  function ManifestKey(sha: string): string {
    "_inputs/manifests/" + sha + ".json"
  }

  lemma {:induction false} KeysDiffer(a: string, b: string)
    ensures |a| >= 2 ==> BlobKey(a) == "_inputs/blobs/" + a[..2] + "/" + a
    ensures BlobKey(a) != ManifestKey(b)
    ensures BlobKey(a) == BlobKey(b) ==> a == b
    ensures ManifestKey(a) == ManifestKey(b) ==> a == b
  {
    assert BlobKey(a)[8] == 'b' && ManifestKey(b)[8] == 'm';
    var k, l := BlobKey(a), BlobKey(b);
    assert k[|k| - |a|..] == a && l[|l| - |b|..] == b;
    if |a| != |b| {
      assert |k| != |l|;
    }
    var m, n := ManifestKey(a), ManifestKey(b);
    assert |m| == 18 + |a| + 5 && |n| == 18 + |b| + 5;
    assert m[18..18 + |a|] == a && n[18..18 + |b|] == b;
  }

  // ---------------------------------------------------------------------
  // What is staged
  // ---------------------------------------------------------------------

  datatype File = File(content: Bytes, mode: nat)

  /** A child found by `rglob("*")`, in sorted order; `Other` is neither a directory nor a regular file. */
  datatype Entry = Dir(rel: Path) | Regular(rel: Path, file: File) | Other(rel: Path)

  datatype Source =
    | Missing
    | NonRegular
    | FileSource(name: string, file: File)
    | DirSource(name: string, entries: seq<Entry>)

  ghost predicate WfEntries(es: seq<Entry>) {
    && (forall i :: 0 <= i < |es| ==> CleanPath(es[i].rel))
    && (forall i, j :: 0 <= i < j < |es| ==> es[i].rel != es[j].rel)
    && (forall i :: 0 <= i < |es| && |es[i].rel| > 1 ==> Dir(es[i].rel[..|es[i].rel| - 1]) in es)
  }

  /** What any file system guarantees of a tree. */
  ghost predicate WfSource(s: Source) {
    s.DirSource? ==> WfEntries(s.entries)
  }

  /** The worker can place the tree under its name; an unnamed directory becomes `dir`. */
  predicate Placeable(s: Source)
    requires s.FileSource? || s.DirSource?
  {
    SafeRel(if s.DirSource? && s.name == "" then "dir" else s.name).Some?
  }

  function Permissions(mode: nat): nat {
    mode % 512
  }

  function FileEntry(codec: Codec, path: string, f: File): ManifestFile {
    ManifestFile(path, Some(|f.content|), Some(codec.hash(f.content)), Some(Permissions(f.mode)))
  }

  function Regulars(es: seq<Entry>): (r: seq<Entry>)
    ensures forall e :: e in r <==> e in es && e.Regular?
    ensures forall i :: 0 <= i < |r| ==> r[i].Regular?
  {
    if es == [] then []
    else
      var init, last := es[..|es| - 1], es[|es| - 1];
      assert forall e :: e in es <==> e in init || e == last;
      if last.Regular? then Regulars(init) + [last] else Regulars(init)
  }

  function EntryOf(codec: Codec, e: Entry): ManifestFile {
    if e.Regular? then FileEntry(codec, Posix(e.rel), e.file) else Malformed
  }

  function FileEntries(codec: Codec, rs: seq<Entry>): seq<ManifestFile> {
    seq(|rs|, i requires 0 <= i < |rs| => EntryOf(codec, rs[i]))
  }

  function Subdirs(es: seq<Entry>): (r: seq<Path>)
    ensures forall p :: p in r <==> Dir(p) in es
  {
    if es == [] then []
    else
      var init, last := es[..|es| - 1], es[|es| - 1];
      assert forall e :: e in es <==> e in init || e == last;
      if last.Dir? then Subdirs(init) + [last.rel] else Subdirs(init)
  }

  function PosixAll(ps: seq<Path>): seq<string> {
    seq(|ps|, i requires 0 <= i < |ps| => Posix(ps[i]))
  }

  function ManifestOf(codec: Codec, s: Source): Manifest
    requires s.FileSource? || s.DirSource?
  {
    if s.FileSource? then Manifest(SCHEMA, "file", s.name, [FileEntry(codec, s.name, s.file)], [])
    else Manifest(SCHEMA, "dir", s.name, FileEntries(codec, Regulars(s.entries)), PosixAll(Subdirs(s.entries)))
  }

  /** The contents of the files a manifest lists, in its order. */
  function Contents(s: Source): seq<Bytes>
    requires s.FileSource? || s.DirSource?
  {
    if s.FileSource? then [s.file.content]
    else
      var rs := Regulars(s.entries);
      seq(|rs|, i requires 0 <= i < |rs| => ContentOf(rs[i]))
  }

  // ---------------------------------------------------------------------
  // The worker
  // ---------------------------------------------------------------------

  /** No mode means the process default. */
  datatype Node = DirNode | FileNode(content: Bytes, mode: Option<int>)

  /** The tree being rebuilt, by path below its root. */
  type Tree = map<Path, Node>

  /** What the `n`-th download of the call returns for a key; None is a storage error. */
  type Downloads = (nat, string) -> Option<Bytes>

  /** `mkdir(parents=True, exist_ok=True)`; None is an `OSError`. */
  function Mkdirs(t: Tree, p: Path): Option<Tree> {
    if p in t then if t[p].DirNode? then Some(t) else None
    else if p == [] then Some(t[p := DirNode])
    else
      var parent := Mkdirs(t, p[..|p| - 1]);
      if parent.None? then None else Some(parent.value[p := DirNode])
  }

  function Parent(t: Tree, p: Path): Option<Tree> {
    if p == [] then Some(t) else Mkdirs(t, p[..|p| - 1])
  }

  /** `_download` */
  function Put(t: Tree, p: Path, content: Bytes): Option<Tree> {
    var g := Parent(t, p);
    if g.None? || (p in g.value && g.value[p].DirNode?) then None
    else Some(g.value[p := FileNode(content, None)])
  }

  function MadeDirs(t: Tree, dirs: seq<string>): Option<Tree> {
    if dirs == [] then Some(t)
    else
      var before := MadeDirs(t, dirs[..|dirs| - 1]);
      var rel := SafeRel(dirs[|dirs| - 1]);
      if before.None? || rel.None? then None else Mkdirs(before.value, rel.value)
  }

  /** `mode & 0o777 or 0o600` */
  function Chmod(mode: int): int {
    if mode % 512 == 0 then 384 else mode % 512
  }

  /** One manifest entry: download, length, checksum, mode. */
  function Fetched(codec: Codec, dl: Downloads, kind: string, t: Tree, e: ManifestFile, n: nat): Option<Tree> {
    if e.Malformed? then None
    else
      var rel := SafeRel(e.path);
      if rel.None? || e.sha256.None? || |e.sha256.value| != 64 || e.size.None? then None
      else
        var dest := if kind == "file" then [] else rel.value;
        var content := dl(n, BlobKey(e.sha256.value));
        if content.None? then None
        else
          var written := Put(t, dest, content.value);
          if written.None? || |content.value| != e.size.value || codec.hash(content.value) != e.sha256.value then None
          else if e.mode.None? then written
          else Some(written.value[dest := FileNode(content.value, Some(Chmod(e.mode.value)))])
  }

  function FetchedAll(codec: Codec, dl: Downloads, kind: string, t: Tree, es: seq<ManifestFile>): Option<Tree> {
    if es == [] then Some(t)
    else
      var before := FetchedAll(codec, dl, kind, t, es[..|es| - 1]);
      if before.None? then None else Fetched(codec, dl, kind, before.value, es[|es| - 1], |es|)
  }

  function Rebuilt(codec: Codec, dl: Downloads, m: Manifest): Option<Tree> {
    if m.schema != SCHEMA || (m.kind != "file" && m.kind != "dir") then None
    else if m.kind == "file" then
      if |m.files| != 1 || SafeRel(m.name).None? then None else FetchedAll(codec, dl, m.kind, map[], m.files)
    else if SafeRel(if m.name == "" then "dir" else m.name).None? then None
    else
      var made := MadeDirs(map[[] := DirNode], m.dirs);
      if made.None? then None else FetchedAll(codec, dl, m.kind, made.value, m.files)
  }

  /** The tree below a fresh scratch directory; None stands for the error raised. */
  function Materialized(codec: Codec, dl: Downloads, sha: string): Option<Tree> {
    if |sha| != 64 then None
    else
      var raw := dl(0, ManifestKey(sha));
      if raw.None? || codec.hash(raw.value) != sha || codec.decode(raw.value).None? then None
      else Rebuilt(codec, dl, codec.decode(raw.value).value)
  }

  /** `_materialize_manifest` */
  method MaterializeManifest(codec: Codec, dl: Downloads, sha: string) returns (r: Option<Tree>)
    ensures r == Materialized(codec, dl, sha)
  {
    if |sha| != 64 {
      return None;
    }
    var raw := dl(0, ManifestKey(sha));
    if raw.None? || codec.hash(raw.value) != sha {
      return None;
    }
    var decoded := codec.decode(raw.value);
    if decoded.None? || decoded.value.schema != SCHEMA || decoded.value.kind !in {"file", "dir"} {
      return None;
    }
    var m := decoded.value;
    var tree: Tree := map[];
    if m.kind == "file" {
      if |m.files| != 1 || SafeRel(m.name).None? {
        return None;
      }
    } else {
      if SafeRel(if m.name == "" then "dir" else m.name).None? {
        return None;
      }
      var made := MakeDirs(map[[] := DirNode], m.dirs);
      if made.None? {
        return None;
      }
      tree := made.value;
    }
    r := FetchAll(codec, dl, m.kind, tree, m.files);
  }

  method MakeDirs(t: Tree, dirs: seq<string>) returns (r: Option<Tree>)
    ensures r == MadeDirs(t, dirs)
  {
    var tree := t;
    for i := 0 to |dirs|
      invariant MadeDirs(t, dirs[..i]) == Some(tree)
    {
      assert dirs[..i + 1][..i] == dirs[..i];
      var rel := SafeRel(dirs[i]);
      var made := if rel.None? then None else Mkdirs(tree, rel.value);
      if made.None? {
        DirsStayFailed(t, dirs, i + 1);
        return None;
      }
      tree := made.value;
    }
    assert dirs[..|dirs|] == dirs;
    r := Some(tree);
  }

  method FetchAll(codec: Codec, dl: Downloads, kind: string, t: Tree, es: seq<ManifestFile>) returns (r: Option<Tree>)
    ensures r == FetchedAll(codec, dl, kind, t, es)
  {
    var tree := t;
    for i := 0 to |es|
      invariant FetchedAll(codec, dl, kind, t, es[..i]) == Some(tree)
    {
      assert es[..i + 1][..i] == es[..i];
      var fetched := Fetched(codec, dl, kind, tree, es[i], i + 1);
      if fetched.None? {
        FetchStaysFailed(codec, dl, kind, t, es, i + 1);
        return None;
      }
      tree := fetched.value;
    }
    assert es[..|es|] == es;
    r := Some(tree);
  }

  lemma {:induction false} DirsStayFailed(t: Tree, dirs: seq<string>, n: nat)
    requires n <= |dirs| && MadeDirs(t, dirs[..n]).None?
    ensures MadeDirs(t, dirs).None?
    decreases |dirs|
  {
    if n < |dirs| {
      assert dirs[..|dirs| - 1][..n] == dirs[..n];
      DirsStayFailed(t, dirs[..|dirs| - 1], n);
    } else {
      assert dirs[..n] == dirs;
    }
  }

  lemma {:induction false} FetchStaysFailed(codec: Codec, dl: Downloads, kind: string, t: Tree, es: seq<ManifestFile>, n: nat)
    requires n <= |es| && FetchedAll(codec, dl, kind, t, es[..n]).None?
    ensures FetchedAll(codec, dl, kind, t, es).None?
    decreases |es|
  {
    if n < |es| {
      assert es[..|es| - 1][..n] == es[..n];
      FetchStaysFailed(codec, dl, kind, t, es[..|es| - 1], n);
    } else {
      assert es[..n] == es;
    }
  }

  // ---------------------------------------------------------------------
  // The tree that was staged
  // ---------------------------------------------------------------------

  function NodeOf(f: File): Node {
    FileNode(f.content, Some(if Permissions(f.mode) == 0 then 384 else Permissions(f.mode)))
  }

  function DirTree(es: seq<Entry>): Tree {
    if es == [] then map[[] := DirNode]
    else
      var init, last := DirTree(es[..|es| - 1]), es[|es| - 1];
      match last
      case Dir(rel) => init[rel := DirNode]
      case Regular(rel, file) => init[rel := NodeOf(file)]
      case Other(_) => init
  }

  /** Paths, directories, contents and modes of the source, where mode 0 reads as 0o600. */
  function TreeOf(s: Source): Tree
    requires s.FileSource? || s.DirSource?
  {
    if s.FileSource? then map[[] := NodeOf(s.file)] else DirTree(s.entries)
  }

  lemma {:induction false} DirTreeHolds(es: seq<Entry>)
    requires forall i :: 0 <= i < |es| ==> es[i].rel != []
    requires forall i, j :: 0 <= i < j < |es| ==> es[i].rel != es[j].rel
    ensures [] in DirTree(es) && DirTree(es)[[]] == DirNode
    ensures forall e :: e in es && e.Dir? ==> e.rel in DirTree(es) && DirTree(es)[e.rel] == DirNode
    ensures forall e :: e in es && e.Regular? ==> e.rel in DirTree(es) && DirTree(es)[e.rel] == NodeOf(e.file)
    ensures forall p :: p in DirTree(es) ==> p == [] || exists e :: e in es && e.rel == p && !e.Other?
  {
    if es != [] {
      var init, last := es[..|es| - 1], es[|es| - 1];
      DirTreeHolds(init);
      assert forall e :: e in es <==> e in init || e == last;
      assert forall e :: e in init ==> e.rel != last.rel;
    }
  }

  /** Everything built so far is part of the staged tree. */
  predicate Within(g: Tree, t: Tree) {
    forall p :: p in g ==> p in t && g[p] == t[p]
  }

  predicate Closed(t: Tree) {
    forall p :: p in t && p != [] ==> p[..|p| - 1] in t && t[p[..|p| - 1]] == DirNode
  }

  lemma DirTreeClosed(es: seq<Entry>)
    requires WfEntries(es)
    ensures Closed(DirTree(es))
  {
    DirTreeHolds(es);
    forall p | p in DirTree(es) && p != [] ensures p[..|p| - 1] in DirTree(es) && DirTree(es)[p[..|p| - 1]] == DirNode {
      var e :| e in es && e.rel == p;
      if |p| == 1 {
        assert p[..|p| - 1] == [];
      } else {
        assert Dir(p[..|p| - 1]) in es;
      }
    }
  }

  lemma {:induction false} MkdirsStay(t: Tree, g: Tree, p: Path)
    requires Closed(t) && Within(g, t) && p in t && t[p] == DirNode
    ensures Mkdirs(g, p).Some?
    ensures var h := Mkdirs(g, p).value; Within(h, t) && Within(g, h) && p in h
    decreases |p|
  {
    if p !in g && p != [] {
      MkdirsStay(t, g, p[..|p| - 1]);
    }
  }

  lemma MadeSnoc(g: Tree, init: seq<Path>, last: Path)
    requires CleanPath(last) && MadeDirs(g, PosixAll(init)).Some?
    ensures MadeDirs(g, PosixAll(init + [last])) == Mkdirs(MadeDirs(g, PosixAll(init)).value, last)
  {
    var ps := init + [last];
    assert PosixAll(ps)[..|init|] == PosixAll(init);
    SafeRelRoundTrip(last);
  }

  /** The directories are made, and nothing outside the staged tree. */
  ghost predicate DirsDone(t: Tree, g: Tree, ps: seq<Path>, made: Option<Tree>) {
    made.Some? && Within(made.value, t) && Within(g, made.value) && forall p :: p in ps ==> p in made.value
  }

  lemma OneMoreDir(t: Tree, g: Tree, init: seq<Path>, last: Path, made: Tree)
    requires Closed(t) && DirsDone(t, g, init, Some(made)) && last in t && t[last] == DirNode
    ensures DirsDone(t, g, init + [last], Mkdirs(made, last))
  {
    MkdirsStay(t, made, last);
  }

  ghost predicate MakesDirs(t: Tree, g: Tree, ps: seq<Path>) {
    DirsDone(t, g, ps, MadeDirs(g, PosixAll(ps)))
  }

  predicate IsDir(t: Tree, p: Path) {
    CleanPath(p) && p in t && t[p] == DirNode
  }

  lemma DirsStayStep(t: Tree, g: Tree, init: seq<Path>, last: Path)
    requires Closed(t) && MakesDirs(t, g, init) && IsDir(t, last)
    ensures MakesDirs(t, g, init + [last])
  {
    MadeSnoc(g, init, last);
    OneMoreDir(t, g, init, last, MadeDirs(g, PosixAll(init)).value);
  }

  lemma {:induction false} DirsStay(t: Tree, g: Tree, ps: seq<Path>)
    requires Closed(t) && Within(g, t) && forall p :: p in ps ==> IsDir(t, p)
    ensures MakesDirs(t, g, ps)
  {
    if ps != [] {
      var init, last := ps[..|ps| - 1], ps[|ps| - 1];
      assert ps == init + [last];
      DirsStay(t, g, init);
      DirsStayStep(t, g, init, last);
    }
  }

  lemma PutStays(t: Tree, g: Tree, p: Path, f: File)
    requires Closed(t) && Within(g, t) && p in t && t[p] == NodeOf(f)
    ensures Put(g, p, f.content).Some?
    ensures var h := Put(g, p, f.content).value[p := NodeOf(f)]; Within(h, t) && Within(g, h) && p in h
  {
    if p != [] {
      MkdirsStay(t, g, p[..|p| - 1]);
    }
  }

  // ---------------------------------------------------------------------
  // Materializing succeeds exactly on intact downloads
  // ---------------------------------------------------------------------

  predicate Hex64(codec: Codec, s: Source)
    requires s.FileSource? || s.DirSource?
  {
    && |codec.hash(codec.encode(ManifestOf(codec, s)))| == 64
    && forall i :: 0 <= i < |Contents(s)| ==> |codec.hash(Contents(s)[i])| == 64
  }

  /** A download either is what was uploaded or hashes differently. */
  predicate Genuine(codec: Codec, got: Option<Bytes>, staged: Bytes) {
    got.Some? && codec.hash(got.value) == codec.hash(staged) ==> got.value == staged
  }

  function ManifestHash(codec: Codec, s: Source): string
    requires s.FileSource? || s.DirSource?
  {
    codec.hash(codec.encode(ManifestOf(codec, s)))
  }

  /** No two different strings met in this transfer have the same hash. */
  predicate NoCollision(codec: Codec, dl: Downloads, s: Source)
    requires s.FileSource? || s.DirSource?
  {
    && Genuine(codec, dl(0, ManifestKey(ManifestHash(codec, s))), codec.encode(ManifestOf(codec, s)))
    && forall i :: 0 <= i < |Contents(s)| ==> Genuine(codec, dl(i + 1, BlobKey(codec.hash(Contents(s)[i]))), Contents(s)[i])
  }

  predicate IntactFile(codec: Codec, dl: Downloads, content: Bytes, n: nat) {
    dl(n, BlobKey(codec.hash(content))) == Some(content)
  }

  /** Every download returns what was staged. */
  predicate Intact(codec: Codec, dl: Downloads, s: Source)
    requires s.FileSource? || s.DirSource?
  {
    && dl(0, ManifestKey(ManifestHash(codec, s))) == Some(codec.encode(ManifestOf(codec, s)))
    && forall i :: 0 <= i < |Contents(s)| ==> IntactFile(codec, dl, Contents(s)[i], i + 1)
  }

  lemma FetchIs(codec: Codec, dl: Downloads, kind: string, g: Tree, path: string, f: File, dest: Path, n: nat)
    requires SafeRel(path).Some? && dest == (if kind == "file" then [] else SafeRel(path).value)
    requires Put(g, dest, f.content).Some?
    requires |codec.hash(f.content)| == 64 && Genuine(codec, dl(n, BlobKey(codec.hash(f.content))), f.content)
    ensures Fetched(codec, dl, kind, g, FileEntry(codec, path, f), n) ==
            if IntactFile(codec, dl, f.content, n) then Some(Put(g, dest, f.content).value[dest := NodeOf(f)]) else None
  {
    assert Chmod(Permissions(f.mode)) == if Permissions(f.mode) == 0 then 384 else Permissions(f.mode);
    var content := dl(n, BlobKey(codec.hash(f.content)));
    if content.Some? && content.value == f.content {
      var written := Put(g, dest, f.content).value;
      assert Fetched(codec, dl, kind, g, FileEntry(codec, path, f), n) ==
             Some(written[dest := FileNode(f.content, Some(Chmod(Permissions(f.mode))))]);
    }
  }

  /** The file has its place in the tree, and its download cannot be forged. */
  predicate Fetchable(codec: Codec, dl: Downloads, t: Tree, e: Entry, n: nat) {
    && e.Regular? && CleanPath(e.rel) && e.rel in t && t[e.rel] == NodeOf(e.file)
    && |codec.hash(e.file.content)| == 64
    && Genuine(codec, dl(n, BlobKey(codec.hash(e.file.content))), e.file.content)
  }

  lemma FetchOne(codec: Codec, dl: Downloads, t: Tree, g: Tree, e: Entry, n: nat)
    requires Closed(t) && Within(g, t) && Fetchable(codec, dl, t, e, n)
    ensures var r := Fetched(codec, dl, "dir", g, FileEntry(codec, Posix(e.rel), e.file), n);
            && (r.Some? <==> IntactFile(codec, dl, e.file.content, n))
            && (r.Some? ==> Within(r.value, t) && Within(g, r.value) && e.rel in r.value)
  {
    SafeRelRoundTrip(e.rel);
    PutStays(t, g, e.rel, e.file);
    FetchIs(codec, dl, "dir", g, Posix(e.rel), e.file, e.rel, n);
  }

  function ContentOf(e: Entry): Bytes {
    if e.Regular? then e.file.content else []
  }

  predicate AllIntact(codec: Codec, dl: Downloads, rs: seq<Entry>) {
    rs == [] || (AllIntact(codec, dl, rs[..|rs| - 1]) && IntactFile(codec, dl, ContentOf(rs[|rs| - 1]), |rs|))
  }

  lemma {:induction false} AllIntactMeans(codec: Codec, dl: Downloads, rs: seq<Entry>)
    ensures AllIntact(codec, dl, rs) <==> forall i :: 0 <= i < |rs| ==> IntactFile(codec, dl, ContentOf(rs[i]), i + 1)
  {
    if rs != [] {
      var init := rs[..|rs| - 1];
      AllIntactMeans(codec, dl, init);
      assert forall i :: 0 <= i < |init| ==> init[i] == rs[i];
    }
  }

  predicate Reached(g: Tree, rs: seq<Entry>) {
    forall e :: e in rs ==> e.rel in g
  }

  predicate FilesDone(codec: Codec, dl: Downloads, t: Tree, g: Tree, rs: seq<Entry>, r: Option<Tree>)
  {
    && (r.Some? <==> AllIntact(codec, dl, rs))
    && (r.Some? ==> Within(r.value, t) && Within(g, r.value) && Reached(r.value, rs))
  }

  lemma AllIntactSnoc(codec: Codec, dl: Downloads, init: seq<Entry>, last: Entry)
    ensures AllIntact(codec, dl, init + [last]) <==>
            AllIntact(codec, dl, init) && IntactFile(codec, dl, ContentOf(last), |init| + 1)
  {
    assert (init + [last])[..|init|] == init;
  }

  lemma FetchMore(codec: Codec, dl: Downloads, t: Tree, g: Tree, init: seq<Entry>, last: Entry, before: Tree)
    requires Closed(t) && Fetchable(codec, dl, t, last, |init| + 1)
    requires FilesDone(codec, dl, t, g, init, Some(before))
    ensures FilesDone(codec, dl, t, g, init + [last],
                      Fetched(codec, dl, "dir", before, FileEntry(codec, Posix(last.rel), last.file), |init| + 1))
  {
    AllIntactSnoc(codec, dl, init, last);
    FetchOne(codec, dl, t, before, last, |init| + 1);
    var r := Fetched(codec, dl, "dir", before, FileEntry(codec, Posix(last.rel), last.file), |init| + 1);
    if r.Some? {
      GrowsFurther(g, before, r.value, init, last);
    }
  }

  lemma GrowsFurther(g: Tree, before: Tree, after: Tree, init: seq<Entry>, last: Entry)
    requires Within(g, before) && Within(before, after) && Reached(before, init) && last.rel in after
    ensures Within(g, after) && Reached(after, init + [last])
  {
  }

  lemma FetchSnoc(codec: Codec, dl: Downloads, g: Tree, init: seq<Entry>, last: Entry)
    requires last.Regular?
    ensures var before := FetchedAll(codec, dl, "dir", g, FileEntries(codec, init));
            FetchedAll(codec, dl, "dir", g, FileEntries(codec, init + [last])) ==
            if before.None? then None
            else Fetched(codec, dl, "dir", before.value, FileEntry(codec, Posix(last.rel), last.file), |init| + 1)
  {
    var es := FileEntries(codec, init + [last]);
    assert es[..|init|] == FileEntries(codec, init);
    assert es[|init|] == FileEntry(codec, Posix(last.rel), last.file);
  }

  predicate AllFetchable(codec: Codec, dl: Downloads, t: Tree, rs: seq<Entry>) {
    forall i :: 0 <= i < |rs| ==> Fetchable(codec, dl, t, rs[i], i + 1)
  }

  lemma FetchableInit(codec: Codec, dl: Downloads, t: Tree, init: seq<Entry>, last: Entry)
    requires AllFetchable(codec, dl, t, init + [last])
    ensures AllFetchable(codec, dl, t, init) && Fetchable(codec, dl, t, last, |init| + 1)
  {
    var rs := init + [last];
    assert rs[|init|] == last && forall i :: 0 <= i < |init| ==> rs[i] == init[i];
  }

  predicate Fetches(codec: Codec, dl: Downloads, t: Tree, g: Tree, rs: seq<Entry>)
  {
    FilesDone(codec, dl, t, g, rs, FetchedAll(codec, dl, "dir", g, FileEntries(codec, rs)))
  }

  lemma FetchManyStep(codec: Codec, dl: Downloads, t: Tree, g: Tree, init: seq<Entry>, last: Entry)
    requires Closed(t) && Fetchable(codec, dl, t, last, |init| + 1) && Fetches(codec, dl, t, g, init)
    ensures Fetches(codec, dl, t, g, init + [last])
  {
    FetchSnoc(codec, dl, g, init, last);
    var before := FetchedAll(codec, dl, "dir", g, FileEntries(codec, init));
    if before.Some? {
      FetchMore(codec, dl, t, g, init, last, before.value);
    } else {
      assert (init + [last])[..|init|] == init;
    }
  }

  /** Induction over a listing, one entry at a time. */
  lemma {:induction false} ListingInduction(rs: seq<Entry>, p: seq<Entry> -> bool)
    requires p([])
    requires forall init, last :: p(init) ==> p(init + [last])
    ensures p(rs)
  {
    if rs != [] {
      ListingInduction(rs[..|rs| - 1], p);
      assert rs == rs[..|rs| - 1] + [rs[|rs| - 1]];
    }
  }

  lemma {:induction false} FetchMany(codec: Codec, dl: Downloads, t: Tree, g: Tree, rs: seq<Entry>)
    requires Closed(t) && Within(g, t) && AllFetchable(codec, dl, t, rs)
    ensures Fetches(codec, dl, t, g, rs)
  {
    var fetches := (es: seq<Entry>) => AllFetchable(codec, dl, t, es) ==> Fetches(codec, dl, t, g, es);
    forall init, last | fetches(init) ensures fetches(init + [last]) {
      if AllFetchable(codec, dl, t, init + [last]) {
        FetchableInit(codec, dl, t, init, last);
        FetchManyStep(codec, dl, t, g, init, last);
      }
    }
    NothingFetched(codec, dl, t, g);
    ListingInduction(rs, fetches);
    assert fetches(rs);
  }

  lemma NothingFetched(codec: Codec, dl: Downloads, t: Tree, g: Tree)
    requires Within(g, t)
    ensures Fetches(codec, dl, t, g, [])
  {
    assert FileEntries(codec, []) == [];
  }

  lemma FileRebuilt(codec: Codec, dl: Downloads, s: Source)
    requires s.FileSource? && Placeable(s) && Hex64(codec, s) && NoCollision(codec, dl, s)
    ensures var r := Rebuilt(codec, dl, ManifestOf(codec, s));
            (r.Some? <==> IntactFile(codec, dl, s.file.content, 1)) && (r.Some? ==> r.value == TreeOf(s))
  {
    var es := [FileEntry(codec, s.name, s.file)];
    assert Contents(s)[0] == s.file.content;
    assert es[..0] == [];
    assert FetchedAll(codec, dl, "file", map[], es[..0]) == Some(map[]);
    FetchIs(codec, dl, "file", map[], s.name, s.file, [], 1);
    assert FetchedAll(codec, dl, "file", map[], es) == Fetched(codec, dl, "file", map[], es[0], 1);
  }

  lemma SubdirsPlaced(es: seq<Entry>)
    requires WfEntries(es)
    ensures forall p :: p in Subdirs(es) ==> IsDir(DirTree(es), p)
  {
    DirTreeHolds(es);
    forall p | p in Subdirs(es) ensures IsDir(DirTree(es), p) {
      assert Dir(p) in es && Dir(p).rel == p;
    }
  }

  lemma FilesFetchable(codec: Codec, dl: Downloads, s: Source)
    requires s.DirSource? && WfSource(s) && Hex64(codec, s) && NoCollision(codec, dl, s)
    ensures AllFetchable(codec, dl, TreeOf(s), Regulars(s.entries))
  {
    var es, rs := s.entries, Regulars(s.entries);
    DirTreeHolds(es);
    forall i | 0 <= i < |rs| ensures Fetchable(codec, dl, TreeOf(s), rs[i], i + 1) {
      assert rs[i] in es;
      assert Contents(s)[i] == rs[i].file.content;
    }
  }

  lemma NothingMissing(es: seq<Entry>, g: Tree)
    requires WfEntries(es) && Within(g, DirTree(es)) && [] in g
    requires Reached(g, Regulars(es)) && forall p :: p in Subdirs(es) ==> p in g
    ensures g == DirTree(es)
  {
    DirTreeHolds(es);
    forall p | p in DirTree(es) ensures p in g {
      if p != [] {
        var e :| e in es && e.rel == p && !e.Other?;
        assert e.Regular? ==> e in Regulars(es);
        assert e.Dir? ==> e == Dir(p);
      }
    }
  }

  function DirsMade(es: seq<Entry>): Option<Tree> {
    MadeDirs(map[[] := DirNode], PosixAll(Subdirs(es)))
  }

  lemma DirsAreMade(es: seq<Entry>)
    requires WfEntries(es)
    ensures DirsMade(es).Some? && Within(DirsMade(es).value, DirTree(es)) && [] in DirsMade(es).value
    ensures forall p :: p in Subdirs(es) ==> p in DirsMade(es).value
  {
    DirTreeHolds(es);
    DirTreeClosed(es);
    SubdirsPlaced(es);
    DirsStay(DirTree(es), map[[] := DirNode], Subdirs(es));
  }

  lemma DirManifestRead(codec: Codec, dl: Downloads, s: Source)
    requires s.DirSource? && Placeable(s) && DirsMade(s.entries).Some?
    ensures Rebuilt(codec, dl, ManifestOf(codec, s)) ==
            FetchedAll(codec, dl, "dir", DirsMade(s.entries).value, FileEntries(codec, Regulars(s.entries)))
  {
  }

  lemma DirRebuilt(codec: Codec, dl: Downloads, s: Source)
    requires s.DirSource? && WfSource(s) && Placeable(s) && Hex64(codec, s) && NoCollision(codec, dl, s)
    ensures var r := Rebuilt(codec, dl, ManifestOf(codec, s));
            (r.Some? <==> AllIntact(codec, dl, Regulars(s.entries))) && (r.Some? ==> r.value == TreeOf(s))
  {
    var es := s.entries;
    DirsAreMade(es);
    DirManifestRead(codec, dl, s);
    DirTreeClosed(es);
    FilesFetchable(codec, dl, s);
    FetchMany(codec, dl, TreeOf(s), DirsMade(es).value, Regulars(es));
    var r := Rebuilt(codec, dl, ManifestOf(codec, s));
    if r.Some? {
      NothingMissing(es, r.value);
    }
  }

  lemma ContentsIntact(codec: Codec, dl: Downloads, s: Source)
    requires s.DirSource?
    ensures AllIntact(codec, dl, Regulars(s.entries)) <==>
            forall i :: 0 <= i < |Contents(s)| ==> IntactFile(codec, dl, Contents(s)[i], i + 1)
  {
    var rs := Regulars(s.entries);
    AllIntactMeans(codec, dl, rs);
    assert forall i :: 0 <= i < |rs| ==> Contents(s)[i] == rs[i].file.content;
  }

  /**
   Whatever storage returns, materializing a staged reference either raises or yields exactly
   the staged tree; it yields it precisely when its name can be placed and every download is what was uploaded.
   */
  lemma {:induction false} MaterializesIffIntact(codec: Codec, dl: Downloads, s: Source)
    requires (s.FileSource? || s.DirSource?) && WfSource(s) && Hex64(codec, s) && NoCollision(codec, dl, s)
    requires codec.decode(codec.encode(ManifestOf(codec, s))) == Some(ManifestOf(codec, s))
    ensures var r := Materialized(codec, dl, ManifestHash(codec, s));
            (r.Some? <==> Placeable(s) && Intact(codec, dl, s)) && (r.Some? ==> r.value == TreeOf(s))
  {
    if !Placeable(s) {
      assert Rebuilt(codec, dl, ManifestOf(codec, s)).None?;
    } else if s.FileSource? {
      FileRebuilt(codec, dl, s);
      assert Contents(s) == [s.file.content];
      assert Contents(s)[0] == s.file.content;
    } else {
      DirRebuilt(codec, dl, s);
      ContentsIntact(codec, dl, s);
    }
    assert Genuine(codec, dl(0, ManifestKey(ManifestHash(codec, s))), codec.encode(ManifestOf(codec, s)));
  }
}
