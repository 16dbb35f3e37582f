/** The digest manifest of a submission bundle: building it, and validating it against a later state of the files. */
module Bundle {
  import opened Wrappers
  import opened ByteStrings
  import opened Newlines
  import opened Reports

  datatype Node = File(bytes: Bytes) | Directory

  type Files = map<string, Node>

  datatype Entry = Entry(path: string, digest: string)

  datatype Manifest = Manifest(submissionId: string, version: string, alg: string, files: seq<Entry>)

  const INTEGRITY_FILENAME := "bundle-integrity.json"
  const MANIFEST_VERSION := "1.0"
  const SHA256 := "sha256"
  const TEXT_SUFFIXES := {".json", ".jsonl", ".md", ".py", ".ts", ".mjs", ".yml", ".yaml"}

  // ---- compute_file_digest

  function LastAt(s: string, c: char, j: nat): (r: int)
    requires j <= |s|
    ensures -1 <= r < j && (r >= 0 ==> s[r] == c) && forall i :: r < i < j ==> s[i] != c
  {
    if j == 0 then -1 else if s[j - 1] == c then j - 1 else LastAt(s, c, j - 1)
  }

  /** `Path(path).suffix.lower()`, ASCII letters only. */
  function Suffix(path: string): string {
    var name := path[LastAt(path, '/', |path|) + 1..];
    var dot := LastAt(name, '.', |name|);
    if 0 < dot < |name| - 1 then Lower(name[dot..]) else ""
  }

  function Lower(s: string): (r: string)
    ensures |r| == |s|
  {
    seq(|s|, i requires 0 <= i < |s| => if 'A' <= s[i] <= 'Z' then s[i] + 32 as char else s[i])
  }

  predicate IsText(path: string) { Suffix(path) in TEXT_SUFFIXES }

  /** The bytes that are hashed. */
  function Canonical(path: string, bytes: Bytes): Bytes {
    if IsText(path) then Normalize(bytes) else bytes
  }

  /** `s` is `word`, which is in lower case, but for the case of its letters. */
  ghost predicate Spells(s: string, word: string) {
    && |s| == |word|
    && forall i :: 0 <= i < |s| ==> s[i] == word[i] || ('a' <= word[i] <= 'z' && s[i] as int + 32 == word[i] as int)
  }

  ghost predicate TextEnding(ext: string) {
    || Spells(ext, ".json") || Spells(ext, ".jsonl") || Spells(ext, ".md") || Spells(ext, ".py")
    || Spells(ext, ".ts") || Spells(ext, ".mjs") || Spells(ext, ".yml") || Spells(ext, ".yaml")
  }

  /** A file name with one of the eight endings behind something else, in whatever directory. */
  ghost predicate NamesText(path: string, dir: string, stem: string, ext: string) {
    && path == dir + stem + ext && (dir == "" || dir[|dir| - 1] == '/')
    && stem != "" && '/' !in stem && TextEnding(ext)
  }

  lemma TextFiles(path: string)
    ensures IsText(path) <==> exists dir, stem, ext :: NamesText(path, dir, stem, ext)
  {
    if IsText(path) {
      var dir, stem, ext := TextNamed(path);
    }
    if dir, stem, ext :| NamesText(path, dir, stem, ext) {
      NamedText(path, dir, stem, ext);
    }
  }

  lemma TextNamed(path: string) returns (dir: string, stem: string, ext: string)
    requires IsText(path)
    ensures NamesText(path, dir, stem, ext)
  {
    var a, name, d := SuffixParts(path);
    dir, stem, ext := CutName(path, a, name, d);
  }

  lemma CutName(path: string, a: nat, name: string, d: nat) returns (dir: string, stem: string, ext: string)
    requires a <= |path| && name == path[a..] && (a > 0 ==> path[a - 1] == '/') && '/' !in name
    requires 0 < d < |name| && Lower(name[d..]) in TEXT_SUFFIXES
    ensures NamesText(path, dir, stem, ext)
  {
    dir, stem, ext := path[..a], name[..d], name[d..];
    Cut(path, a, name, d);
    TextParts(path, dir, name, stem, ext);
  }

  lemma SuffixParts(path: string) returns (a: nat, name: string, d: nat)
    requires IsText(path)
    ensures a <= |path| && name == path[a..] && (a > 0 ==> path[a - 1] == '/') && '/' !in name
    ensures 0 < d < |name| && Lower(name[d..]) in TEXT_SUFFIXES
  {
    a := LastAt(path, '/', |path|) + 1;
    name := path[a..];
    d := LastAt(name, '.', |name|);
  }

  lemma Cut(path: string, a: nat, name: string, d: nat)
    requires a <= |path| && name == path[a..] && d <= |name|
    ensures path == path[..a] + name && name == name[..d] + name[d..]
  {
  }

  lemma TextParts(path: string, dir: string, name: string, stem: string, ext: string)
    requires path == dir + name && name == stem + ext && (dir == "" || dir[|dir| - 1] == '/')
    requires '/' !in name && stem != "" && Lower(ext) in TEXT_SUFFIXES
    ensures NamesText(path, dir, stem, ext)
  {
    EndingSpelled(ext);
    assert path == dir + stem + ext;
    forall c | c in stem ensures c in name {
    }
  }

  lemma NamedText(path: string, dir: string, stem: string, ext: string)
    requires NamesText(path, dir, stem, ext)
    ensures IsText(path)
  {
    EndingShape(ext);
    SuffixOf(path, dir, stem + ext, stem, ext);
    EndingSpelled(ext);
  }

  lemma SuffixOf(path: string, dir: string, name: string, stem: string, ext: string)
    requires path == dir + stem + ext && name == stem + ext && stem != "" && '/' !in name
    requires dir == "" || dir[|dir| - 1] == '/'
    requires |ext| > 1 && ext[0] == '.' && forall i :: 0 < i < |ext| ==> ext[i] != '.'
    ensures Suffix(path) == Lower(ext)
  {
    assert path == dir + name;
    NameFound(path, dir, name);
    SuffixFound(stem, ext);
  }

  lemma {:induction false} NameFound(path: string, dir: string, name: string)
    requires path == dir + name && (dir == "" || dir[|dir| - 1] == '/') && '/' !in name
    ensures LastAt(path, '/', |path|) == |dir| - 1 && path[|dir|..] == name
  {
    forall i | |dir| <= i < |path| ensures path[i] != '/' {
      assert path[i] == name[i - |dir|];
    }
    assert dir != "" ==> path[|dir| - 1] == dir[|dir| - 1];
    LastAtIs(path, '/', |path|, |dir| - 1);
  }

  lemma {:induction false} LastAtIs(s: string, c: char, j: nat, r: int)
    requires -1 <= r < j <= |s| || (r == -1 && j == 0)
    requires (r >= 0 ==> s[r] == c) && forall i :: r < i < j ==> s[i] != c
    ensures LastAt(s, c, j) == r
  {
  }

  lemma {:induction false} SuffixFound(stem: string, ext: string)
    requires |ext| > 1 && ext[0] == '.' && forall i :: 0 < i < |ext| ==> ext[i] != '.'
    ensures LastAt(stem + ext, '.', |stem + ext|) == |stem| && (stem + ext)[|stem|..] == ext
  {
    var name := stem + ext;
    assert name[|stem|] == ext[0];
    forall i | |stem| < i < |name| ensures name[i] != '.' {
      assert name[i] == ext[i - |stem|];
    }
    LastAtIs(name, '.', |name|, |stem|);
  }

  lemma EndingShape(ext: string)
    requires TextEnding(ext)
    ensures |ext| > 1 && ext[0] == '.' && '/' !in ext && forall i :: 0 < i < |ext| ==> ext[i] != '.'
  {
  }

  lemma EndingSpelled(ext: string)
    ensures Lower(ext) in TEXT_SUFFIXES <==> TextEnding(ext)
  {
    LowerSpells(ext, ".json");
    LowerSpells(ext, ".jsonl");
    LowerSpells(ext, ".md");
    LowerSpells(ext, ".py");
    LowerSpells(ext, ".ts");
    LowerSpells(ext, ".mjs");
    LowerSpells(ext, ".yml");
    LowerSpells(ext, ".yaml");
  }

  lemma LowerSpells(s: string, word: string)
    requires forall i :: 0 <= i < |word| ==> !('A' <= word[i] <= 'Z')
    ensures Lower(s) == word <==> Spells(s, word)
  {
    if Spells(s, word) {
      forall i | 0 <= i < |s| ensures Lower(s)[i] == word[i] {
      }
    }
    if Lower(s) == word {
      forall i | 0 <= i < |s| ensures s[i] == word[i] || ('a' <= word[i] <= 'z' && s[i] as int + 32 == word[i] as int) {
        assert Lower(s)[i] == word[i];
      }
    }
  }

  ghost predicate InjectiveDigest(digest: Bytes -> string) {
    forall a, b :: digest(a) == digest(b) ==> a == b
  }

  // ---- build_integrity_manifest

  datatype BuildError = UnsupportedAlgorithm | MissingFile(path: string) | NothingTracked

  predicate IsFile(files: Files, path: string) { path in files && files[path].File? }

  function FileEntry(digest: Bytes -> string, files: Files, path: string): Entry
    requires IsFile(files, path)
  {
    Entry(path, digest(Canonical(path, files[path].bytes)))
  }

  /** The tracked paths, each once, in the order of their first mention. */
  function Once(tracked: seq<string>): seq<string> {
    if tracked == [] then []
    else
      var front, last := Once(tracked[..|tracked| - 1]), tracked[|tracked| - 1];
      if last in tracked[..|tracked| - 1] then front else front + [last]
  }

  lemma {:induction false} OnceMembers(tracked: seq<string>)
    ensures forall p :: p in Once(tracked) <==> p in tracked
    ensures forall i, j :: 0 <= i < j < |Once(tracked)| ==> Once(tracked)[i] != Once(tracked)[j]
  {
    if tracked == [] {
    } else {
      OnceMembers(tracked[..|tracked| - 1]);
      assert tracked == tracked[..|tracked| - 1] + [tracked[|tracked| - 1]];
    }
  }

  /** The positions at which a path is mentioned for the first time. */
  ghost function FirstMentions(tracked: seq<string>): (s: set<nat>) {
    set i: nat | i < |tracked| && tracked[i] !in tracked[..i]
  }

  lemma {:induction false} OnceInOrder(tracked: seq<string>) returns (f: seq<nat>)
    ensures Enumerates(f, FirstMentions(tracked)) && |f| == |Once(tracked)|
    ensures forall k :: 0 <= k < |f| ==> f[k] < |tracked| && Once(tracked)[k] == tracked[f[k]]
  {
    if tracked == [] {
      f := [];
    } else {
      var n := |tracked| - 1;
      f := OnceInOrder(tracked[..n]);
      LastMention(tracked);
      if tracked[n] !in tracked[..n] {
        EnumeratesNext(f, FirstMentions(tracked[..n]), n);
        f := f + [n];
      }
    }
  }

  lemma LastMention(tracked: seq<string>)
    requires tracked != []
    ensures var n := |tracked| - 1;
      FirstMentions(tracked) == FirstMentions(tracked[..n]) + (if tracked[n] in tracked[..n] then {} else {n})
  {
    var n := |tracked| - 1;
    forall i: nat | i < n ensures i in FirstMentions(tracked) <==> i in FirstMentions(tracked[..n]) {
      assert tracked[..n][..i] == tracked[..i];
    }
  }

  /** What `BuildManifest` returns on success. */
  ghost predicate BuiltFrom(digest: Bytes -> string, files: Files, submissionId: string, tracked: seq<string>,
                            m: Manifest) {
    && m.submissionId == submissionId && m.version == MANIFEST_VERSION && m.alg == SHA256
    && EntriesFor(digest, files, Once(tracked), m.files)
  }

  ghost predicate EntriesFor(digest: Bytes -> string, files: Files, paths: seq<string>, entries: seq<Entry>) {
    && |entries| == |paths|
    && forall i :: 0 <= i < |paths| ==> IsFile(files, paths[i]) && entries[i] == FileEntry(digest, files, paths[i])
  }

  /** One entry for each path, at its first mention, in that order, with the digest of what the file is hashed as. */
  ghost predicate Listed(digest: Bytes -> string, files: Files, tracked: seq<string>, entries: seq<Entry>) {
    exists f: seq<nat> :: Enumerates(f, FirstMentions(tracked)) && |f| == |entries|
      && forall k :: 0 <= k < |f| ==>
           f[k] < |tracked| && entries[k].path == tracked[f[k]] && IsFile(files, tracked[f[k]])
           && entries[k].digest == digest(Canonical(tracked[f[k]], files[tracked[f[k]]].bytes))
  }

  lemma BuiltListed(digest: Bytes -> string, files: Files, submissionId: string, tracked: seq<string>, m: Manifest)
    requires BuiltFrom(digest, files, submissionId, tracked, m)
    ensures Listed(digest, files, tracked, m.files)
  {
    var f := OnceInOrder(tracked);
    assert Enumerates(f, FirstMentions(tracked)) && |f| == |m.files|;
  }

  lemma OnceNext(tracked: seq<string>, n: nat)
    requires n < |tracked|
    ensures tracked[..n + 1] == tracked[..n] + [tracked[n]]
    ensures Once(tracked[..n + 1]) == Once(tracked[..n]) + (if tracked[n] in tracked[..n] then [] else [tracked[n]])
  {
    assert tracked[..n + 1][..n] == tracked[..n];
  }

  method BuildManifest(digest: Bytes -> string, files: Files, submissionId: string, tracked: seq<string>, alg: string)
      returns (r: Result<Manifest, BuildError>)
    ensures r.Ok? <==> alg == SHA256 && tracked != [] && forall p :: p in tracked ==> IsFile(files, p)
    ensures r.Ok? ==> BuiltFrom(digest, files, submissionId, tracked, r.value)
    ensures r.Ok? ==> Listed(digest, files, tracked, r.value.files)
    ensures r.Err? ==> alg != SHA256 || tracked == [] || r.error.MissingFile?
    ensures r.Err? ==> match r.error
      case UnsupportedAlgorithm => alg != SHA256
      case NothingTracked => alg == SHA256 && tracked == []
      case MissingFile(path) =>
        exists n :: 0 <= n < |tracked| && alg == SHA256 && path == tracked[n] && !IsFile(files, path)
                    && forall i :: 0 <= i < n ==> IsFile(files, tracked[i])
  {
    if alg != SHA256 {
      return Err(UnsupportedAlgorithm);
    }
    var entries: seq<Entry> := [];
    var seen: set<string> := {};
    for n := 0 to |tracked|
      invariant forall p :: p in seen <==> p in tracked[..n]
      invariant forall p :: p in seen ==> IsFile(files, p)
      invariant EntriesFor(digest, files, Once(tracked[..n]), entries)
    {
      var path := tracked[n];
      OnceNext(tracked, n);
      if path in seen {
        continue;
      }
      seen := seen + {path};
      if !IsFile(files, path) {
        forall i | 0 <= i < n ensures IsFile(files, tracked[i]) {
          assert tracked[i] == tracked[..n][i];
        }
        return Err(MissingFile(path));
      }
      entries := entries + [FileEntry(digest, files, path)];
    }
    assert tracked[..|tracked|] == tracked;
    if entries == [] {
      assert tracked != [] ==> tracked[0] in tracked;
      OnceMembers(tracked);
      return Err(NothingTracked);
    }
    r := Ok(Manifest(submissionId, MANIFEST_VERSION, alg, entries));
    BuiltListed(digest, files, submissionId, tracked, r.value);
  }

  // ---- validate_bundle_integrity

  datatype Status = Absent | Valid | Invalid

  /** A manifest file as read and checked against its schema; an entry that is not a pair of strings is None. */
  datatype Loaded = Unreadable(faults: seq<Fault>)
                  | Loaded(submissionId: string, version: string, alg: string, entries: seq<Option<Entry>>,
                           faults: seq<Fault>)

  datatype Fault =
    | NotAManifestFile | SchemaFault(text: string) | WrongSubmission | WrongVersion | WrongAlgorithm
    | DuplicatePath(index: nat) | TracksItself | MissingPath(path: string) | NotAFile(path: string)
    | DigestMismatch(path: string)

  ghost predicate Mentioned(entries: seq<Option<Entry>>, n: nat, path: string)
    requires n <= |entries|
  {
    exists j :: 0 <= j < n && entries[j].Some? && entries[j].value.path == path
  }

  /** What the loop reports about entry `i`. */
  ghost function FaultAt(digest: Bytes -> string, files: Files, entries: seq<Option<Entry>>, i: nat): seq<Fault>
    requires i < |entries|
  {
    if entries[i].None? then []
    else
      var e := entries[i].value;
      if Mentioned(entries, i, e.path) then [DuplicatePath(i)]
      else if e.path == INTEGRITY_FILENAME then [TracksItself]
      else if e.path !in files then [MissingPath(e.path)]
      else if !files[e.path].File? then [NotAFile(e.path)]
      else if FileEntry(digest, files, e.path).digest != e.digest then [DigestMismatch(e.path)]
      else []
  }

  ghost function EntryFaults(digest: Bytes -> string, files: Files, entries: seq<Option<Entry>>): (r: seq<seq<Fault>>)
    ensures |r| == |entries|
  {
    seq(|entries|, i requires 0 <= i < |entries| => FaultAt(digest, files, entries, i))
  }

  function HeaderFaults(m: Loaded, submissionId: string): seq<Fault>
    requires m.Loaded?
  {
    m.faults + (if m.submissionId != submissionId then [WrongSubmission] else [])
    + (if m.version != MANIFEST_VERSION then [WrongVersion] else [])
  }

  /** All that is wrong with a manifest that can be read. */
  ghost function FaultsOf(digest: Bytes -> string, files: Files, m: Loaded, submissionId: string): seq<Fault>
    requires m.Loaded?
  {
    HeaderFaults(m, submissionId)
    + (if m.alg != SHA256 then [WrongAlgorithm] else Flatten(EntryFaults(digest, files, m.entries)))
  }

  ghost function Verdict(digest: Bytes -> string, load: Bytes -> Loaded, files: Files, submissionId: string): Status {
    if INTEGRITY_FILENAME !in files then Absent
    else if files[INTEGRITY_FILENAME].File? && load(files[INTEGRITY_FILENAME].bytes).Loaded?
            && FaultsOf(digest, files, load(files[INTEGRITY_FILENAME].bytes), submissionId) == [] then Valid
    else Invalid
  }

  method Validate(digest: Bytes -> string, load: Bytes -> Loaded, files: Files, submissionId: string)
      returns (status: Status, faults: seq<Fault>)
    ensures status == Verdict(digest, load, files, submissionId)
    ensures status == Absent <==> "bundle-integrity.json" !in files
    ensures status == Valid <==> IsFile(files, INTEGRITY_FILENAME)
                                 && load(files[INTEGRITY_FILENAME].bytes).Loaded? && faults == []
    ensures status == Absent ==> faults == []
    ensures INTEGRITY_FILENAME in files && files[INTEGRITY_FILENAME].Directory? ==> faults == [NotAManifestFile]
    ensures IsFile(files, INTEGRITY_FILENAME) && load(files[INTEGRITY_FILENAME].bytes).Unreadable? ==>
      faults == load(files[INTEGRITY_FILENAME].bytes).faults
    ensures IsFile(files, INTEGRITY_FILENAME) && load(files[INTEGRITY_FILENAME].bytes).Loaded? ==>
      faults == FaultsOf(digest, files, load(files[INTEGRITY_FILENAME].bytes), submissionId)
  {
    if INTEGRITY_FILENAME !in files {
      return Absent, [];
    }
    if !files[INTEGRITY_FILENAME].File? {
      return Invalid, [NotAManifestFile];
    }
    var m := load(files[INTEGRITY_FILENAME].bytes);
    if m.Unreadable? {
      return Invalid, m.faults;
    }
    faults := m.faults;
    if m.submissionId != submissionId {
      faults := faults + [WrongSubmission];
    }
    if m.version != MANIFEST_VERSION {
      faults := faults + [WrongVersion];
    }
    assert faults == HeaderFaults(m, submissionId);
    if m.alg != SHA256 {
      faults := faults + [WrongAlgorithm];
      return Invalid, faults;
    }
    var entryFaults := CheckEntries(digest, files, m.entries);
    faults := faults + entryFaults;
    status := if faults == [] then Valid else Invalid;
  }

  /** The loop over the entries. */
  method CheckEntries(digest: Bytes -> string, files: Files, entries: seq<Option<Entry>>) returns (faults: seq<Fault>)
    ensures faults == Flatten(EntryFaults(digest, files, entries))
  {
    faults := [];
    var seenPaths: set<string> := {};
    for index := 0 to |entries|
      invariant faults == FlattenUpTo(EntryFaults(digest, files, entries), index)
      invariant forall p :: p in seenPaths <==> Mentioned(entries, index, p)
    {
      if entries[index].None? {
        continue;
      }
      var path, expected := entries[index].value.path, entries[index].value.digest;
      assert Mentioned(entries, index + 1, path) by {
        assert entries[index].value.path == path;
      }
      if path in seenPaths {
        faults := faults + [DuplicatePath(index)];
        continue;
      }
      seenPaths := seenPaths + {path};
      if path == INTEGRITY_FILENAME {
        faults := faults + [TracksItself];
        continue;
      }
      if path !in files {
        faults := faults + [MissingPath(path)];
        continue;
      }
      if !files[path].File? {
        faults := faults + [NotAFile(path)];
        continue;
      }
      var actual := digest(Canonical(path, files[path].bytes));
      if actual != expected {
        faults := faults + [DigestMismatch(path)];
      }
    }
  }

  // ---- which faults are reported

  /** What is wrong beyond what the schema already found: exactly these, the header's first, then entry by entry, at
      most one each, and nothing of the entries under another algorithm. */
  lemma FaultsExact(digest: Bytes -> string, files: Files, m: Loaded, submissionId: string)
    requires m.Loaded?
    ensures var header := HeaderFaults(m, submissionId);
      && m.faults <= header
      && (m.submissionId == submissionId && m.version == "1.0" ==> header[|m.faults|..] == [])
      && (m.submissionId != submissionId && m.version == "1.0" ==> header[|m.faults|..] == [WrongSubmission])
      && (m.submissionId == submissionId && m.version != "1.0" ==> header[|m.faults|..] == [WrongVersion])
      && (m.submissionId != submissionId && m.version != "1.0" ==>
            header[|m.faults|..] == [WrongSubmission, WrongVersion])
      && (m.alg != "sha256" ==> FaultsOf(digest, files, m, submissionId) == header + [WrongAlgorithm])
      && (m.alg == "sha256" ==>
            FaultsOf(digest, files, m, submissionId) == header + Flatten(EntryFaults(digest, files, m.entries)))
  {
    var header := HeaderFaults(m, submissionId);
    assert header[|m.faults|..] == (if m.submissionId != submissionId then [WrongSubmission] else [])
                                   + (if m.version != MANIFEST_VERSION then [WrongVersion] else []);
  }

  /** Entry `i`, if it is a pair of strings whose path no entry before it has... */
  ghost predicate FirstOfPath(entries: seq<Option<Entry>>, i: nat) {
    && i < |entries| && entries[i].Some?
    && forall j :: 0 <= j < i && entries[j].Some? ==> entries[j].value.path != entries[i].value.path
  }

  /** ... and what is reported about it. */
  lemma EntryFaultsExact(digest: Bytes -> string, files: Files, entries: seq<Option<Entry>>, i: nat)
    requires i < |entries|
    ensures var row := EntryFaults(digest, files, entries)[i];
      && |row| <= 1 && (entries[i].None? ==> row == [])
      && (entries[i].Some? ==>
            var e := entries[i].value;
            && (DuplicatePath(i) in row <==> !FirstOfPath(entries, i))
            && (TracksItself in row <==> FirstOfPath(entries, i) && e.path == "bundle-integrity.json")
            && (MissingPath(e.path) in row
                <==> FirstOfPath(entries, i) && e.path != "bundle-integrity.json" && e.path !in files)
            && (NotAFile(e.path) in row
                <==> FirstOfPath(entries, i) && e.path != "bundle-integrity.json" && e.path in files
                     && files[e.path].Directory?)
            && (DigestMismatch(e.path) in row
                <==> FirstOfPath(entries, i) && e.path != "bundle-integrity.json" && IsFile(files, e.path)
                     && digest(Canonical(e.path, files[e.path].bytes)) != e.digest)
            && forall f :: f in row ==>
                 f in {DuplicatePath(i), TracksItself, MissingPath(e.path), NotAFile(e.path), DigestMismatch(e.path)})
  {
    if entries[i].Some? {
      assert FirstOfPath(entries, i) <==> !Mentioned(entries, i, entries[i].value.path);
    }
  }

  // ---- build, then validate

  /** The manifest in the bundle reads back as what was built. */
  ghost predicate Installed(load: Bytes -> Loaded, files: Files, m: Manifest) {
    && IsFile(files, INTEGRITY_FILENAME)
    && load(files[INTEGRITY_FILENAME].bytes)
       == Loaded(m.submissionId, m.version, m.alg, seq(|m.files|, i requires 0 <= i < |m.files| => Some(m.files[i])),
                 [])
  }

  /** Nothing that is hashed has changed at `path`, which is not the manifest's own. */
  ghost predicate Unchanged(before: Files, later: Files, path: string) {
    && path != INTEGRITY_FILENAME && IsFile(later, path) && IsFile(before, path)
    && Canonical(path, later[path].bytes) == Canonical(path, before[path].bytes)
  }

  lemma EntryFine(digest: Bytes -> string, before: Files, later: Files, entries: seq<Option<Entry>>,
                  i: nat, path: string)
    requires InjectiveDigest(digest) && IsFile(before, path) && i < |entries|
    requires entries[i] == Some(FileEntry(digest, before, path)) && !Mentioned(entries, i, path)
    ensures EntryFaults(digest, later, entries)[i] == [] <==> Unchanged(before, later, path)
  {
  }

  /** The entries of a built manifest, read back. */
  lemma EntriesFine(digest: Bytes -> string, before: Files, later: Files, submissionId: string, tracked: seq<string>,
                    m: Manifest, entries: seq<Option<Entry>>)
    requires InjectiveDigest(digest) && BuiltFrom(digest, before, submissionId, tracked, m)
    requires entries == seq(|m.files|, i requires 0 <= i < |m.files| => Some(m.files[i]))
    ensures Flatten(EntryFaults(digest, later, entries)) == []
       <==> forall p :: p in tracked ==> Unchanged(before, later, p)
  {
    var paths := Once(tracked);
    OnceMembers(tracked);
    FlattenEmpty(EntryFaults(digest, later, entries));
    forall i | 0 <= i < |paths|
      ensures EntryFaults(digest, later, entries)[i] == [] <==> Unchanged(before, later, paths[i])
    {
      assert entries[i] == Some(FileEntry(digest, before, paths[i]));
      assert !Mentioned(entries, i, paths[i]);
      EntryFine(digest, before, later, entries, i, paths[i]);
    }
    forall p | p in tracked ensures exists i :: 0 <= i < |paths| && paths[i] == p {
      assert p in paths;
    }
    forall i | 0 <= i < |paths| ensures paths[i] in tracked {
      assert paths[i] in paths;
    }
  }

  /** Validating in any later state of the files says valid exactly when the manifest does not track itself, the
      submission is the same and every tracked path is still a file with the same bytes, line endings of text aside. */
  lemma ValidExactly(digest: Bytes -> string, load: Bytes -> Loaded, before: Files, later: Files,
                     submissionId: string, tracked: seq<string>, m: Manifest, id: string)
    requires InjectiveDigest(digest) && BuiltFrom(digest, before, submissionId, tracked, m) && Installed(load, later, m)
    ensures Verdict(digest, load, later, id).Valid?
       <==> id == submissionId && forall p :: p in tracked ==> Unchanged(before, later, p)
  {
    EntriesFine(digest, before, later, submissionId, tracked, m, load(later[INTEGRITY_FILENAME].bytes).entries);
  }

  /** A text file written out again with other line ends keeps its canonical bytes exactly when no two of them merge;
      any other file must not change at all. */
  lemma {:induction false} CheckoutKeepsCanonical(path: string, bytes: Bytes, e: seq<Ending>)
    requires |e| == |Normalize(bytes)|
    ensures IsText(path) ==>
      (Canonical(path, Rewritten(Normalize(bytes), e)) == Canonical(path, bytes) <==> !Merges(Normalize(bytes), e))
    ensures !IsText(path) ==> forall other :: Canonical(path, other) == Canonical(path, bytes) <==> other == bytes
  {
    NormalizeCheckout(bytes, e);
  }

  /** The file at `path` is as it was, but for the line ends of text. */
  ghost predicate CheckedOut(path: string, before: Files, later: Files, ends: map<string, seq<Ending>>) {
    && IsFile(before, path) && IsFile(later, path)
    && if IsText(path) then
         path in ends && |ends[path]| == |Normalize(before[path].bytes)|
         && later[path].bytes == Rewritten(Normalize(before[path].bytes), ends[path])
       else later[path].bytes == before[path].bytes
  }

  /** Two of its line ends have become one. */
  ghost predicate LosesALine(path: string, before: Files, ends: map<string, seq<Ending>>) {
    && IsFile(before, path) && IsText(path) && path in ends && |ends[path]| == |Normalize(before[path].bytes)|
    && Merges(Normalize(before[path].bytes), ends[path])
  }

  /** The verdict after a checkout that changes nothing but line ends, each as it likes: still valid exactly when no
      text file had two of them merge. */
  lemma {:induction false} VerdictAfterCheckout(digest: Bytes -> string, load: Bytes -> Loaded, before: Files,
                                                later: Files, submissionId: string, tracked: seq<string>, m: Manifest,
                                                ends: map<string, seq<Ending>>)
    requires InjectiveDigest(digest) && BuiltFrom(digest, before, submissionId, tracked, m) && Installed(load, later, m)
    requires forall p :: p in tracked ==> CheckedOut(p, before, later, ends)
    ensures Verdict(digest, load, later, submissionId).Valid?
       <==> INTEGRITY_FILENAME !in tracked && forall p :: p in tracked ==> !LosesALine(p, before, ends)
  {
    ValidExactly(digest, load, before, later, submissionId, tracked, m, submissionId);
    forall p | p in tracked
      ensures Unchanged(before, later, p) <==> p != INTEGRITY_FILENAME && !LosesALine(p, before, ends)
    {
      assert CheckedOut(p, before, later, ends);
      if IsText(p) {
        CheckoutKeepsCanonical(p, before[p].bytes, ends[p]);
      }
    }
  }
}
