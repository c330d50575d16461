// The sync protocol: content hashes, the note manifest of a workspace and
// the delta between a local and a remote manifest.
module SyncProtocol {
  import opened Wrappers
  import opened Strings
  import opened Bytes
  import Utf8
  import opened SyncModels

  // ---- content hash ----------------------------------------------------

  const HASH_PREFIX: string := "sha256:"

  /**
   * The manifest's content hash: "sha256:" followed by the lower-case hex
   * digest of the UTF-8 bytes of the content. The digest itself is a parameter.
   */
  function ContentHash(content: string, sha256: seq<byte> -> seq<byte>): (h: string)
    ensures StartsWith(h, HASH_PREFIX)
    ensures |h| == |HASH_PREFIX| + 2 * |sha256(Utf8.Encode(content))|
  {
    HASH_PREFIX + ToHex(sha256(Utf8.Encode(content)))
  }

  /** Two contents get the same hash exactly when their digests agree. */
  lemma ContentHashDistinguishesDigests(a: string, b: string, sha256: seq<byte> -> seq<byte>)
    ensures ContentHash(a, sha256) == ContentHash(b, sha256) <==>
            sha256(Utf8.Encode(a)) == sha256(Utf8.Encode(b))
  {
    var da, db := sha256(Utf8.Encode(a)), sha256(Utf8.Encode(b));
    if ContentHash(a, sha256) == ContentHash(b, sha256) {
      assert ToHex(da) == ContentHash(a, sha256)[|HASH_PREFIX|..];
      assert ToHex(db) == ContentHash(b, sha256)[|HASH_PREFIX|..];
      FromHexToHex(da);
      FromHexToHex(db);
    }
  }

  // ---- manifest --------------------------------------------------------

  /**
   * What gray-matter yields for a note; None when the front matter cannot be parsed.
   * `updated` is None when the field is missing or falsy, and otherwise the time
   * value Date makes of it (Invalid when Date cannot parse it).
   */
  datatype FrontMatter = FrontMatter(title: Option<string>, updated: Option<Timestamp>)

  /** Contents and modification time of a readable file. */
  datatype FileData = FileData(content: string, mtimeMs: int)

  /**
   * A directory entry as readdir reports it. A file whose read or stat fails
   * has no data; a directory that cannot be listed is not readable.
   */
  datatype FsEntry =
    | File(name: string, data: Option<FileData>)
    | Directory(name: string, readable: bool, children: seq<FsEntry>)
    | Other(name: string)

  datatype ScanEnv = ScanEnv(
    parseFrontMatter: string -> Option<FrontMatter>,
    sha256: seq<byte> -> seq<byte>)

  /** Entries the scan skips: hidden names (".ai-note" among them) and node_modules. */
  predicate Skipped(name: string)
  {
    StartsWith(name, ".") || name == "node_modules"
  }

  /** The path relative to the workspace root of `name` inside the directories `dirs`. */
  function RelPath(dirs: seq<string>, name: string): string
  {
    Join(dirs + [name], '/')
  }

  /** The manifest entry of one markdown file, or nothing when reading or parsing it fails. */
  function FileEntry(dirs: seq<string>, name: string, data: Option<FileData>, env: ScanEnv): (r: seq<NoteManifestEntry>)
    requires EndsWith(name, ".md")
    ensures |r| <= 1
  {
    if data.None? then []
    else
      match env.parseFrontMatter(data.value.content)
      case None => []
      case Some(fm) =>
        var content := data.value.content;
        var title := if fm.title.Some? && fm.title.value != "" then fm.title.value else name[..|name| - 3];
        var updatedAt := if fm.updated.Some? then fm.updated.value else Ms(data.value.mtimeMs);
        [NoteManifestEntry(RelPath(dirs, name), title, updatedAt,
                           ContentHash(content, env.sha256), Utf8.ByteLength(content))]
  }

  /** The entries one directory entry contributes, in the order the scan visits them. */
  function ScanEntry(dirs: seq<string>, e: FsEntry, env: ScanEnv): seq<NoteManifestEntry>
    decreases e
  {
    if Skipped(e.name) then []
    else
      match e
      case Directory(name, readable, children) =>
        if readable then ScanList(dirs + [name], children, env) else []
      case File(name, data) =>
        if EndsWith(name, ".md") then FileEntry(dirs, name, data, env) else []
      case Other(_) => []
  }

  function ScanList(dirs: seq<string>, entries: seq<FsEntry>, env: ScanEnv): seq<NoteManifestEntry>
    decreases entries
  {
    if entries == [] then []
    else ScanList(dirs, entries[..|entries| - 1], env) + ScanEntry(dirs, entries[|entries| - 1], env)
  }

  /**
   * scanDir: walks one directory listing, descending into sub-directories and
   * appending to the manifest accumulated so far.
   */
  method ScanDir(dirs: seq<string>, readable: bool, entries: seq<FsEntry>, env: ScanEnv,
                 manifest: NoteManifest) returns (out: NoteManifest)
    ensures out == manifest + (if readable then ScanList(dirs, entries, env) else [])
    decreases entries
  {
    out := manifest;
    if !readable {
      return;
    }
    var i := 0;
    while i < |entries|
      invariant 0 <= i <= |entries|
      invariant out == manifest + ScanList(dirs, entries[..i], env)
    {
      var e := entries[i];
      ghost var before := out;
      if Skipped(e.name) {
        assert out == before + ScanEntry(dirs, e, env);
      } else if e.Directory? {
        out := ScanDir(dirs + [e.name], e.readable, e.children, env, out);
        assert out == before + ScanEntry(dirs, e, env);
      } else if e.File? && EndsWith(e.name, ".md") {
        out := out + FileEntry(dirs, e.name, e.data, env);
        assert out == before + ScanEntry(dirs, e, env);
      } else {
        assert out == before + ScanEntry(dirs, e, env);
      }
      ScanListStep(dirs, entries, i, env);
      AppendedStep(manifest, ScanList(dirs, entries[..i], env), ScanEntry(dirs, e, env), before, out);
      i := i + 1;
    }
    assert entries[..i] == entries;
  }

  /** Scanning one more entry appends what that entry contributes. */
  lemma ScanListStep(dirs: seq<string>, entries: seq<FsEntry>, i: nat, env: ScanEnv)
    requires i < |entries|
    ensures ScanList(dirs, entries[..i + 1], env) == ScanList(dirs, entries[..i], env) + ScanEntry(dirs, entries[i], env)
  {
    assert entries[..i + 1][..i] == entries[..i];
  }

  lemma AppendedStep(m: NoteManifest, a: NoteManifest, b: NoteManifest, before: NoteManifest, after: NoteManifest)
    requires before == m + a && after == before + b
    ensures after == m + (a + b)
  {
  }

  /** buildManifest: the manifest of every visible markdown note under the workspace root. */
  method BuildManifest(rootReadable: bool, root: seq<FsEntry>, env: ScanEnv) returns (m: NoteManifest)
    ensures m == (if rootReadable then ScanList([], root, env) else [])
  {
    m := ScanDir([], rootReadable, root, env, []);
  }

  // Names in a directory tree never contain the separator.
  predicate WellNamed(entries: seq<FsEntry>)
  {
    forall i :: 0 <= i < |entries| ==> EntryWellNamed(entries[i])
  }

  predicate EntryWellNamed(e: FsEntry)
    decreases e
  {
    '/' !in e.name &&
    (e.Directory? ==> forall i :: 0 <= i < |e.children| ==> EntryWellNamed(e.children[i]))
  }

  /** No segment of the path is hidden or node_modules. */
  predicate VisiblePath(p: string)
  {
    var segs := Split(p, '/');
    forall k :: 0 <= k < |segs| ==> !Skipped(segs[k])
  }

  predicate ManifestVisible(m: NoteManifest)
  {
    forall i :: 0 <= i < |m| ==> EndsWith(m[i].path, ".md") && VisiblePath(m[i].path)
  }

  predicate VisibleDirs(dirs: seq<string>)
  {
    forall k :: 0 <= k < |dirs| ==> '/' !in dirs[k] && !Skipped(dirs[k])
  }

  lemma RelPathVisible(dirs: seq<string>, name: string)
    requires VisibleDirs(dirs) && '/' !in name && !Skipped(name)
    ensures VisiblePath(RelPath(dirs, name))
    ensures EndsWith(RelPath(dirs, name), name)
  {
    var segs := dirs + [name];
    SplitJoin(segs, '/');
    JoinEndsWithLast(segs, '/');
  }

  lemma {:induction false} JoinEndsWithLast<T>(parts: seq<seq<T>>, sep: T)
    requires |parts| >= 1
    ensures EndsWith(Join(parts, sep), parts[|parts| - 1])
  {
    if |parts| > 1 {
      JoinEndsWithLast(parts[1..], sep);
    }
  }

  /** Every manifest entry is a markdown note, and no directory on its path is hidden. */
  lemma {:induction false} ScanListVisible(dirs: seq<string>, entries: seq<FsEntry>, env: ScanEnv)
    requires VisibleDirs(dirs) && WellNamed(entries)
    ensures ManifestVisible(ScanList(dirs, entries, env))
    decreases entries
  {
    if entries != [] {
      var init, e := entries[..|entries| - 1], entries[|entries| - 1];
      ScanListVisible(dirs, init, env);
      ScanEntryVisible(dirs, e, env);
    }
  }

  lemma {:induction false} ScanEntryVisible(dirs: seq<string>, e: FsEntry, env: ScanEnv)
    requires VisibleDirs(dirs) && EntryWellNamed(e)
    ensures ManifestVisible(ScanEntry(dirs, e, env))
    decreases e
  {
    if !Skipped(e.name) {
      match e
      case Directory(name, readable, children) =>
        if readable {
          ScanListVisible(dirs + [name], children, env);
        }
      case File(name, data) =>
        if EndsWith(name, ".md") {
          FileEntryVisible(dirs, name, data, env);
        }
      case Other(_) =>
    }
  }

  /** A visible markdown file's entry is a visible markdown path. */
  lemma FileEntryVisible(dirs: seq<string>, name: string, data: Option<FileData>, env: ScanEnv)
    requires VisibleDirs(dirs) && '/' !in name && !Skipped(name) && EndsWith(name, ".md")
    ensures ManifestVisible(FileEntry(dirs, name, data, env))
  {
    RelPathVisible(dirs, name);
    var r := FileEntry(dirs, name, data, env);
    if |r| == 1 {
      var p := RelPath(dirs, name);
      assert r[0].path == p;
      assert p[|p| - |name|..] == name;
      assert p[|p| - 3..] == name[|name| - 3..];
    }
  }

  // ---- delta -----------------------------------------------------------

  function PathsOf(m: seq<NoteManifestEntry>): (r: seq<string>)
    ensures |r| == |m|
    ensures forall i :: 0 <= i < |m| ==> r[i] == m[i].path
  {
    if m == [] then [] else PathsOf(m[..|m| - 1]) + [m[|m| - 1].path]
  }

  function ConflictPaths(cs: seq<SyncConflict>): (r: seq<string>)
    ensures |r| == |cs|
    ensures forall i :: 0 <= i < |cs| ==> r[i] == cs[i].path
  {
    if cs == [] then [] else ConflictPaths(cs[..|cs| - 1]) + [cs[|cs| - 1].path]
  }

  predicate NoDup<T(==)>(s: seq<T>)
  {
    forall i, j :: 0 <= i < j < |s| ==> s[i] != s[j]
  }

  /** The keys of a Map or Set built from `s`, in first-insertion order. */
  function Dedup(s: seq<string>): (r: seq<string>)
    ensures NoDup(r)
    ensures forall x :: x in r <==> x in s
  {
    if s == [] then []
    else
      var d := Dedup(s[..|s| - 1]);
      var x := s[|s| - 1];
      assert forall y :: y in s <==> y in s[..|s| - 1] || y == x;
      if x in d then d else d + [x]
  }

  /** A Map filled from the manifest with `map.set(entry.path, entry)`: the last entry per path wins. */
  function MapOf(m: seq<NoteManifestEntry>): (r: map<string, NoteManifestEntry>)
    ensures forall p :: p in r ==> r[p].path == p
    ensures forall p :: p in r <==> p in PathsOf(m)
  {
    if m == [] then map[] else MapOf(m[..|m| - 1])[m[|m| - 1].path := m[|m| - 1]]
  }

  /** The entry MapOf keeps for a path is its last occurrence in the manifest. */
  lemma {:induction false} MapOfLastWins(m: seq<NoteManifestEntry>, i: nat)
    requires i < |m|
    requires forall j :: i < j < |m| ==> m[j].path != m[i].path
    ensures m[i].path in MapOf(m) && MapOf(m)[m[i].path] == m[i]
  {
    if i < |m| - 1 {
      MapOfLastWins(m[..|m| - 1], i);
    }
  }

  function Lookup(m: map<string, NoteManifestEntry>, p: string): Option<NoteManifestEntry>
  {
    if p in m then Some(m[p]) else None
  }

  datatype Decision = Send(entry: NoteManifestEntry) | Receive(entry: NoteManifestEntry)
                    | Conflict(conflict: SyncConflict) | InSync

  /** What computeDelta decides for one path, given its local and remote entries. */
  function Classify(p: string, local: Option<NoteManifestEntry>, remote: Option<NoteManifestEntry>): Decision
  {
    match (local, remote)
    case (Some(l), None) => Send(l)
    case (None, Some(r)) => Receive(r)
    case (None, None) => InSync
    case (Some(l), Some(r)) =>
      if l.contentHash == r.contentHash then InSync
      else if Later(l.updatedAt, r.updatedAt) then Send(l)
      else if Later(r.updatedAt, l.updatedAt) then Receive(r)
      else Conflict(SyncConflict(p, l, r, None))
  }

  function Push(d: SyncDelta, dec: Decision): SyncDelta
  {
    match dec
    case Send(e) => d.(toSend := d.toSend + [e])
    case Receive(e) => d.(toReceive := d.toReceive + [e])
    case Conflict(c) => d.(conflicts := d.conflicts + [c])
    case InSync => d
  }

  function DeltaOver(ps: seq<string>, lm: map<string, NoteManifestEntry>, rm: map<string, NoteManifestEntry>): SyncDelta
  {
    if ps == [] then SyncDelta([], [], [])
    else
      var p := ps[|ps| - 1];
      Push(DeltaOver(ps[..|ps| - 1], lm, rm), Classify(p, Lookup(lm, p), Lookup(rm, p)))
  }

  /** The paths computeDelta visits: local keys, then remote keys not seen locally. */
  function AllPaths(local: NoteManifest, remote: NoteManifest): seq<string>
  {
    Dedup(Dedup(PathsOf(local)) + Dedup(PathsOf(remote)))
  }

  /** computeDelta as a function of the two manifests. */
  function Delta(local: NoteManifest, remote: NoteManifest): SyncDelta
  {
    DeltaOver(AllPaths(local, remote), MapOf(local), MapOf(remote))
  }

  predicate KeyedByPath(m: map<string, NoteManifestEntry>)
  {
    forall p :: p in m ==> m[p].path == p
  }

  /** The path a decision files its entry under. */
  predicate DecidesFor(dec: Decision, q: string)
  {
    (dec.Send? ==> dec.entry.path == q) && (dec.Receive? ==> dec.entry.path == q) &&
    (dec.Conflict? ==> dec.conflict.path == q)
  }

  lemma ClassifyDecidesFor(q: string, lm: map<string, NoteManifestEntry>, rm: map<string, NoteManifestEntry>)
    requires KeyedByPath(lm) && KeyedByPath(rm)
    ensures DecidesFor(Classify(q, Lookup(lm, q), Lookup(rm, q)), q)
  {
  }

  /** Pushing a decision for `q` adds `q` to exactly the list it names. */
  lemma PushPaths(d: SyncDelta, dec: Decision, q: string)
    requires DecidesFor(dec, q)
    ensures PathsOf(Push(d, dec).toSend) == PathsOf(d.toSend) + (if dec.Send? then [q] else [])
    ensures PathsOf(Push(d, dec).toReceive) == PathsOf(d.toReceive) + (if dec.Receive? then [q] else [])
    ensures ConflictPaths(Push(d, dec).conflicts) == ConflictPaths(d.conflicts) + (if dec.Conflict? then [q] else [])
  {
    match dec
    case Send(e) =>
      assert (d.toSend + [e])[..|d.toSend|] == d.toSend;
    case Receive(e) =>
      assert (d.toReceive + [e])[..|d.toReceive|] == d.toReceive;
    case Conflict(c) =>
      assert (d.conflicts + [c])[..|d.conflicts|] == d.conflicts;
    case InSync =>
  }

  /** Each path lands in the list its classification names, and in no other. */
  lemma {:induction false} DeltaOverMembership(ps: seq<string>, lm: map<string, NoteManifestEntry>,
                                               rm: map<string, NoteManifestEntry>, p: string)
    requires KeyedByPath(lm) && KeyedByPath(rm)
    ensures var d := DeltaOver(ps, lm, rm);
      var c := Classify(p, Lookup(lm, p), Lookup(rm, p));
      && (p in PathsOf(d.toSend) <==> p in ps && c.Send?)
      && (p in PathsOf(d.toReceive) <==> p in ps && c.Receive?)
      && (p in ConflictPaths(d.conflicts) <==> p in ps && c.Conflict?)
  {
    if ps != [] {
      var init, q := ps[..|ps| - 1], ps[|ps| - 1];
      var d0, dq := DeltaOver(init, lm, rm), Classify(q, Lookup(lm, q), Lookup(rm, q));
      DeltaOverMembership(init, lm, rm, p);
      ClassifyDecidesFor(q, lm, rm);
      PushPaths(d0, dq, q);
      assert p in ps <==> p in init || p == q;
      InAppended(PathsOf(d0.toSend), q, dq.Send?, p);
      InAppended(PathsOf(d0.toReceive), q, dq.Receive?, p);
      InAppended(ConflictPaths(d0.conflicts), q, dq.Conflict?, p);
    }
  }

  lemma InAppended(xs: seq<string>, q: string, b: bool, p: string)
    ensures p in xs + (if b then [q] else []) <==> p in xs || (b && p == q)
  {
  }

  predicate EntriesFrom(d: SyncDelta, lm: map<string, NoteManifestEntry>, rm: map<string, NoteManifestEntry>)
  {
    && (forall i :: 0 <= i < |d.toSend| ==> d.toSend[i].path in lm && lm[d.toSend[i].path] == d.toSend[i])
    && (forall i :: 0 <= i < |d.toReceive| ==> d.toReceive[i].path in rm && rm[d.toReceive[i].path] == d.toReceive[i])
    && (forall i :: 0 <= i < |d.conflicts| ==> ConflictFrom(d.conflicts[i], lm, rm))
  }

  predicate ConflictFrom(c: SyncConflict, lm: map<string, NoteManifestEntry>, rm: map<string, NoteManifestEntry>)
  {
    c.path in lm && c.path in rm && c.localEntry == lm[c.path] && c.remoteEntry == rm[c.path]
    && c.localEntry.contentHash != c.remoteEntry.contentHash
    && !Later(c.localEntry.updatedAt, c.remoteEntry.updatedAt)
    && !Later(c.remoteEntry.updatedAt, c.localEntry.updatedAt) && c.resolution.None?
  }

  /** Entries sent are local entries and entries received are remote ones, under their own paths. */
  lemma {:induction false} DeltaOverEntries(ps: seq<string>, lm: map<string, NoteManifestEntry>,
                                            rm: map<string, NoteManifestEntry>)
    requires KeyedByPath(lm) && KeyedByPath(rm)
    ensures EntriesFrom(DeltaOver(ps, lm, rm), lm, rm)
  {
    if ps != [] {
      var init, q := ps[..|ps| - 1], ps[|ps| - 1];
      DeltaOverEntries(init, lm, rm);
      var d0 := DeltaOver(init, lm, rm);
      var dec := Classify(q, Lookup(lm, q), Lookup(rm, q));
      match dec
      case Send(e) =>
        assert e == lm[q];
        assert forall i :: 0 <= i < |d0.toSend| ==> (d0.toSend + [e])[i] == d0.toSend[i];
      case Receive(e) =>
        assert e == rm[q];
        assert forall i :: 0 <= i < |d0.toReceive| ==> (d0.toReceive + [e])[i] == d0.toReceive[i];
      case Conflict(c) =>
        assert ConflictFrom(c, lm, rm);
        assert forall i :: 0 <= i < |d0.conflicts| ==> (d0.conflicts + [c])[i] == d0.conflicts[i];
      case InSync =>
    }
  }

  /** No path appears twice in the delta, within a list or across lists. */
  predicate Distinct(d: SyncDelta)
  {
    var s, r, c := PathsOf(d.toSend), PathsOf(d.toReceive), ConflictPaths(d.conflicts);
    NoDup(s) && NoDup(r) && NoDup(c) &&
    (forall x :: x in s ==> x !in r && x !in c) && (forall x :: x in r ==> x !in c)
  }

  lemma NoDupAppend(s: seq<string>, q: string)
    requires NoDup(s) && q !in s
    ensures NoDup(s + [q])
  {
  }

  lemma PushDistinct(d: SyncDelta, dec: Decision, q: string)
    requires Distinct(d) && DecidesFor(dec, q)
    requires q !in PathsOf(d.toSend) && q !in PathsOf(d.toReceive) && q !in ConflictPaths(d.conflicts)
    ensures Distinct(Push(d, dec))
  {
    PushPaths(d, dec, q);
    var s, r, c := PathsOf(d.toSend), PathsOf(d.toReceive), ConflictPaths(d.conflicts);
    if dec.Send? {
      NoDupAppend(s, q);
    } else if dec.Receive? {
      NoDupAppend(r, q);
    } else if dec.Conflict? {
      NoDupAppend(c, q);
    }
  }

  lemma {:induction false} DeltaOverDistinct(ps: seq<string>, lm: map<string, NoteManifestEntry>,
                                             rm: map<string, NoteManifestEntry>)
    requires KeyedByPath(lm) && KeyedByPath(rm) && NoDup(ps)
    ensures Distinct(DeltaOver(ps, lm, rm))
  {
    if ps != [] {
      var init, q := ps[..|ps| - 1], ps[|ps| - 1];
      assert NoDup(init);
      DeltaOverDistinct(init, lm, rm);
      assert q !in init;
      DeltaOverMembership(init, lm, rm, q);
      ClassifyDecidesFor(q, lm, rm);
      PushDistinct(DeltaOver(init, lm, rm), Classify(q, Lookup(lm, q), Lookup(rm, q)), q);
    }
  }

  lemma AllPathsMembership(local: NoteManifest, remote: NoteManifest, p: string)
    ensures p in AllPaths(local, remote) <==> p in MapOf(local) || p in MapOf(remote)
  {
  }

  /**
   * The delta decides each path by its last local and last remote entry:
   * only local or local newer sends, only remote or remote newer receives,
   * different content with neither side later conflicts (equal timestamps, or
   * a NaN on either side), equal content is left alone.
   */
  lemma DeltaDecides(local: NoteManifest, remote: NoteManifest, p: string)
    ensures var d, lm, rm := Delta(local, remote), MapOf(local), MapOf(remote);
      && (p in PathsOf(d.toSend) <==>
            p in lm && (p !in rm || (lm[p].contentHash != rm[p].contentHash && Later(lm[p].updatedAt, rm[p].updatedAt))))
      && (p in PathsOf(d.toReceive) <==>
            p in rm && (p !in lm || (lm[p].contentHash != rm[p].contentHash && Later(rm[p].updatedAt, lm[p].updatedAt))))
      && (p in ConflictPaths(d.conflicts) <==>
            p in lm && p in rm && lm[p].contentHash != rm[p].contentHash
              && !Later(lm[p].updatedAt, rm[p].updatedAt) && !Later(rm[p].updatedAt, lm[p].updatedAt))
  {
    DeltaOverMembership(AllPaths(local, remote), MapOf(local), MapOf(remote), p);
  }

  /**
   * A note whose `updated` Date could not parse is never newer or older than
   * the other side: once the contents differ it is a conflict, whatever the
   * other side's time.
   */
  lemma DeltaInvalidTimeConflicts(local: NoteManifest, remote: NoteManifest, p: string)
    requires p in MapOf(local) && p in MapOf(remote)
    requires MapOf(local)[p].contentHash != MapOf(remote)[p].contentHash
    requires MapOf(local)[p].updatedAt.Invalid? || MapOf(remote)[p].updatedAt.Invalid?
    ensures var d := Delta(local, remote);
      p in ConflictPaths(d.conflicts) && p !in PathsOf(d.toSend) && p !in PathsOf(d.toReceive)
  {
    DeltaDecides(local, remote, p);
  }

  /** With two valid times and different contents, the path conflicts iff the times are equal. */
  lemma DeltaValidTimes(local: NoteManifest, remote: NoteManifest, p: string)
    requires p in MapOf(local) && p in MapOf(remote)
    requires MapOf(local)[p].contentHash != MapOf(remote)[p].contentHash
    requires MapOf(local)[p].updatedAt.Ms? && MapOf(remote)[p].updatedAt.Ms?
    ensures var d, l, r := Delta(local, remote), MapOf(local)[p].updatedAt.ms, MapOf(remote)[p].updatedAt.ms;
      && (p in ConflictPaths(d.conflicts) <==> l == r)
      && (p in PathsOf(d.toSend) <==> l > r)
      && (p in PathsOf(d.toReceive) <==> r > l)
  {
    DeltaDecides(local, remote, p);
  }

  /** A path whose content hashes agree on both sides is in none of the lists. */
  lemma DeltaSkipsInSync(local: NoteManifest, remote: NoteManifest, p: string)
    requires p in MapOf(local) && p in MapOf(remote)
    requires MapOf(local)[p].contentHash == MapOf(remote)[p].contentHash
    ensures var d := Delta(local, remote);
      p !in PathsOf(d.toSend) && p !in PathsOf(d.toReceive) && p !in ConflictPaths(d.conflicts)
  {
    DeltaDecides(local, remote, p);
  }

  /** No path is listed twice, in one list or across the three. */
  lemma DeltaDistinct(local: NoteManifest, remote: NoteManifest)
    ensures Distinct(Delta(local, remote))
  {
    DeltaOverDistinct(AllPaths(local, remote), MapOf(local), MapOf(remote));
  }

  /** Every path of either manifest is listed, unless both sides hold the same content. */
  lemma DeltaCovers(local: NoteManifest, remote: NoteManifest, p: string)
    requires p in MapOf(local) || p in MapOf(remote)
    ensures var d := Delta(local, remote);
      || p in PathsOf(d.toSend) || p in PathsOf(d.toReceive) || p in ConflictPaths(d.conflicts)
      || (p in MapOf(local) && p in MapOf(remote) && MapOf(local)[p].contentHash == MapOf(remote)[p].contentHash)
  {
    DeltaDecides(local, remote, p);
  }

  /** Swapping the two sides swaps what is sent and received and keeps the conflicts. */
  lemma DeltaSymmetric(a: NoteManifest, b: NoteManifest, p: string)
    ensures p in PathsOf(Delta(a, b).toSend) <==> p in PathsOf(Delta(b, a).toReceive)
    ensures p in PathsOf(Delta(a, b).toReceive) <==> p in PathsOf(Delta(b, a).toSend)
    ensures p in ConflictPaths(Delta(a, b).conflicts) <==> p in ConflictPaths(Delta(b, a).conflicts)
  {
    DeltaDecides(a, b, p);
    DeltaDecides(b, a, p);
  }

  /** The entries of the delta are the last local or remote entries under their paths. */
  lemma DeltaEntries(local: NoteManifest, remote: NoteManifest)
    ensures EntriesFrom(Delta(local, remote), MapOf(local), MapOf(remote))
  {
    DeltaOverEntries(AllPaths(local, remote), MapOf(local), MapOf(remote));
  }

  /** A conflict seen from the other side holds the same two entries, swapped. */
  lemma DeltaConflictsSwapped(a: NoteManifest, b: NoteManifest, i: nat, j: nat)
    requires i < |Delta(a, b).conflicts| && j < |Delta(b, a).conflicts|
    requires Delta(a, b).conflicts[i].path == Delta(b, a).conflicts[j].path
    ensures Delta(a, b).conflicts[i].localEntry == Delta(b, a).conflicts[j].remoteEntry
    ensures Delta(a, b).conflicts[i].remoteEntry == Delta(b, a).conflicts[j].localEntry
  {
    DeltaEntries(a, b);
    DeltaEntries(b, a);
    assert ConflictFrom(Delta(a, b).conflicts[i], MapOf(a), MapOf(b));
    assert ConflictFrom(Delta(b, a).conflicts[j], MapOf(b), MapOf(a));
  }

  /** One more manifest entry: its path is set in the map, and listed if it is new. */
  lemma IndexStep(m: NoteManifest, i: nat)
    requires i < |m|
    ensures MapOf(m[..i + 1]) == MapOf(m[..i])[m[i].path := m[i]]
    ensures Dedup(PathsOf(m[..i + 1])) ==
      Dedup(PathsOf(m[..i])) + (if m[i].path in MapOf(m[..i]) then [] else [m[i].path])
  {
    var m' := m[..i + 1];
    assert m'[..i] == m[..i];
    assert PathsOf(m') == PathsOf(m[..i]) + [m[i].path];
    assert PathsOf(m')[..i] == PathsOf(m[..i]);
  }

  /** An insertion-ordered Map keyed by path, as computeDelta fills it. */
  method IndexByPath(m: NoteManifest) returns (byPath: map<string, NoteManifestEntry>, keys: seq<string>)
    ensures byPath == MapOf(m)
    ensures keys == Dedup(PathsOf(m))
  {
    byPath, keys := map[], [];
    var i := 0;
    while i < |m|
      invariant 0 <= i <= |m|
      invariant byPath == MapOf(m[..i])
      invariant keys == Dedup(PathsOf(m[..i]))
    {
      IndexStep(m, i);
      var e := m[i];
      if e.path !in byPath {
        keys := keys + [e.path];
      }
      byPath := byPath[e.path := e];
      i := i + 1;
    }
    assert m[..i] == m;
  }

  /** `new Set(keys)`: the distinct keys in first-insertion order. */
  method UniqueInOrder(keys: seq<string>) returns (unique: seq<string>)
    ensures unique == Dedup(keys)
  {
    unique := [];
    var j := 0;
    while j < |keys|
      invariant 0 <= j <= |keys|
      invariant unique == Dedup(keys[..j])
    {
      assert keys[..j + 1][..j] == keys[..j];
      if keys[j] !in unique {
        unique := unique + [keys[j]];
      }
      j := j + 1;
    }
    assert keys[..j] == keys;
  }

  /** computeDelta: the loop over all paths, proved equal to Delta. */
  method ComputeDelta(local: NoteManifest, remote: NoteManifest) returns (d: SyncDelta)
    ensures d == Delta(local, remote)
  {
    var localMap, localKeys := IndexByPath(local);
    var remoteMap, remoteKeys := IndexByPath(remote);
    var allPaths := UniqueInOrder(localKeys + remoteKeys);
    d := ClassifyPaths(allPaths, localMap, remoteMap);
  }

  /** The loop of computeDelta over the distinct paths, pushing each path into its list. */
  method ClassifyPaths(allPaths: seq<string>, localMap: map<string, NoteManifestEntry>,
                       remoteMap: map<string, NoteManifestEntry>) returns (d: SyncDelta)
    ensures d == DeltaOver(allPaths, localMap, remoteMap)
  {
    var toSend, toReceive, conflicts := [], [], [];
    var k := 0;
    while k < |allPaths|
      invariant 0 <= k <= |allPaths|
      invariant SyncDelta(toSend, toReceive, conflicts) == DeltaOver(allPaths[..k], localMap, remoteMap)
    {
      var p := allPaths[k];
      ghost var before := SyncDelta(toSend, toReceive, conflicts);
      ghost var dec := Classify(p, Lookup(localMap, p), Lookup(remoteMap, p));
      assert allPaths[..k + 1][..k] == allPaths[..k];
      assert DeltaOver(allPaths[..k + 1], localMap, remoteMap) == Push(before, dec);
      if p in localMap && p !in remoteMap {
        toSend := toSend + [localMap[p]];
      } else if p !in localMap && p in remoteMap {
        toReceive := toReceive + [remoteMap[p]];
      } else if p in localMap && p in remoteMap {
        var l, r := localMap[p], remoteMap[p];
        if l.contentHash == r.contentHash {
        } else if Later(l.updatedAt, r.updatedAt) {
          toSend := toSend + [l];
        } else if Later(r.updatedAt, l.updatedAt) {
          toReceive := toReceive + [r];
        } else {
          conflicts := conflicts + [SyncConflict(p, l, r, None)];
        }
      }
      k := k + 1;
    }
    assert allPaths[..k] == allPaths;
    d := SyncDelta(toSend, toReceive, conflicts);
  }
}
