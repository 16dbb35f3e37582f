/** `build_registry`: the loops that check profiles against their catalogs and emit the composition rules, and the
    independence of the emitted document from the order of its inputs. */
module Registry {
  import opened Wrappers
  import opened Sorting
  import opened Reports
  import opened Composition

  datatype Failure =
    | DuplicateCatalog | DuplicateProfile | IdMismatch | RegistryCatalogMismatch | BadCatalog | DuplicateMark
    | UnknownGroupMember | BadCoreSuite

  /** What the generator reads; the catalogs are in the order of their file names. */
  datatype Inputs = Inputs(catalogs: seq<Catalog>, registry: seq<RegistryEntry>, files: SuiteFiles)

  predicate HasMeta(files: SuiteFiles, path: string) { path in files && files[path].Some? }

  ghost predicate CatalogKeysOnce(catalogs: seq<Catalog>) {
    forall i, j :: 0 <= i < j < |catalogs| ==> catalogs[i].key != catalogs[j].key
  }

  ghost predicate EntryKeysOnce(registry: seq<RegistryEntry>) {
    forall i, j :: 0 <= i < j < |registry| ==> registry[i].key != registry[j].key
  }

  predicate IdFits(e: RegistryEntry) { e.id == Some(e.key.0 + "@" + e.key.1) }

  /** Profile id, an at sign, version. */
  lemma IdFitsExact(e: RegistryEntry)
    ensures IdFits(e) <==>
      && e.id.Some? && |e.id.value| == |e.key.0| + 1 + |e.key.1|
      && e.id.value[..|e.key.0|] == e.key.0 && e.id.value[|e.key.0|] == '@' && e.id.value[|e.key.0| + 1..] == e.key.1
  {
    if e.id.Some? && |e.id.value| == |e.key.0| + 1 + |e.key.1| {
      var id, n := e.id.value, |e.key.0|;
      assert id == id[..n] + [id[n]] + id[n + 1..];
      assert (e.key.0 + "@" + e.key.1)[n + 1..] == e.key.1 && (e.key.0 + "@" + e.key.1)[..n] == e.key.0;
    }
  }

  ghost predicate Catalogued(inp: Inputs, key: Key) { exists c :: c in inp.catalogs && c.key == key }

  ghost predicate Registered(inp: Inputs, key: Key) { exists e :: e in inp.registry && e.key == key }

  ghost predicate MarksOnce(catalogs: seq<Catalog>) {
    forall c, d :: c in catalogs && d in catalogs && c.mark == d.mark ==> c.key == d.key
  }

  /** When the generator succeeds. */
  ghost predicate Fine(inp: Inputs) {
    && CatalogKeysOnce(inp.catalogs) && EntryKeysOnce(inp.registry) && (forall e :: e in inp.registry ==> IdFits(e))
    && (forall key :: Catalogued(inp, key) <==> Registered(inp, key))
    && (forall c :: c in inp.catalogs ==> CatalogFine(c, inp.files)) && MarksOnce(inp.catalogs)
    && (forall key :: key in EXCLUSIVE_MEMBERS ==> Registered(inp, key)) && HasMeta(inp.files, SUPPORTED_CORE_SUITE)
  }

  /** The record of a registered profile, as it must come out. */
  ghost predicate RecordFits(inp: Inputs, r: Record) {
    exists e, c :: e in inp.registry && c in inp.catalogs && e.key == c.key == r.key && CatalogFine(c, inp.files)
                   && r == MakeRecord(e, c, inp.files)
  }

  predicate RecordLe(a: Record, b: Record) { PairLe(a.key, b.key) }

  ghost predicate Recorded(profiles: seq<Record>, key: Key) { exists r :: r in profiles && r.key == key }

  /** What the emitted document is: one record for each registered key, sorted by key, with exactly the relation of
      `Relations`. */
  ghost predicate Emitted(inp: Inputs, doc: Document) {
    && HasMeta(inp.files, SUPPORTED_CORE_SUITE) && doc.supportedCore == inp.files[SUPPORTED_CORE_SUITE].value
    && doc.relations == Relations(doc.profiles)
    && (forall r :: r in doc.profiles ==> RecordFits(inp, r))
    && (forall e :: e in inp.registry ==> Recorded(doc.profiles, e.key))
    && DistinctKeys(doc.profiles) && Sorted(RecordLe, doc.profiles)
  }

  // ---- the inputs determine the document

  lemma RecordDetermined(inp: Inputs, a: Record, b: Record)
    requires Fine(inp) && RecordFits(inp, a) && RecordFits(inp, b) && a.key == b.key
    ensures a == b
  {
    var e, c :| e in inp.registry && c in inp.catalogs && e.key == c.key == a.key && CatalogFine(c, inp.files)
      && a == MakeRecord(e, c, inp.files);
    var f, d :| f in inp.registry && d in inp.catalogs && f.key == d.key == b.key && CatalogFine(d, inp.files)
      && b == MakeRecord(f, d, inp.files);
    EntryDetermined(inp.registry, e, f);
    CatalogDetermined(inp.catalogs, c, d);
  }

  lemma EntryDetermined(registry: seq<RegistryEntry>, e: RegistryEntry, f: RegistryEntry)
    requires EntryKeysOnce(registry) && e in registry && f in registry && e.key == f.key
    ensures e == f
  {
    var i :| 0 <= i < |registry| && registry[i] == e;
    var j :| 0 <= j < |registry| && registry[j] == f;
  }

  lemma CatalogDetermined(catalogs: seq<Catalog>, c: Catalog, d: Catalog)
    requires CatalogKeysOnce(catalogs) && c in catalogs && d in catalogs && c.key == d.key
    ensures c == d
  {
    var i :| 0 <= i < |catalogs| && catalogs[i] == c;
    var j :| 0 <= j < |catalogs| && catalogs[j] == d;
  }

  /** Two inputs with the same files, whose records agree key by key. */
  ghost predicate SameRecords(a: Inputs, b: Inputs) {
    && a.files == b.files
    && (forall r :: RecordFits(a, r) <==> RecordFits(b, r))
    && (forall key :: Registered(a, key) <==> Registered(b, key))
  }

  ghost predicate Determined(inp: Inputs) {
    forall r, q :: RecordFits(inp, r) && RecordFits(inp, q) && r.key == q.key ==> r == q
  }

  lemma FineDetermines(inp: Inputs)
    requires Fine(inp)
    ensures Determined(inp)
  {
    forall r, q | RecordFits(inp, r) && RecordFits(inp, q) && r.key == q.key ensures r == q {
      RecordDetermined(inp, r, q);
    }
  }

  lemma EmittedUnique(a: Inputs, b: Inputs, x: Document, y: Document)
    requires Fine(a) && SameRecords(a, b) && Emitted(a, x) && Emitted(b, y)
    ensures x == y
  {
    FineDetermines(a);
    assert Determined(b);
    forall r ensures r in x.profiles <==> r in y.profiles {
      if r in x.profiles {
        InDocument(b, y, r);
      } else if r in y.profiles {
        InDocument(a, x, r);
      }
    }
    SameProfiles(a, x.profiles, y.profiles);
  }

  lemma SameProfiles(inp: Inputs, x: seq<Record>, y: seq<Record>)
    requires Determined(inp) && forall r :: r in x ==> RecordFits(inp, r)
    requires forall r :: r in x <==> r in y
    requires DistinctKeys(x) && DistinctKeys(y) && Sorted(RecordLe, x) && Sorted(RecordLe, y)
    ensures x == y
  {
    PairOrder();
    forall r, q | r in x && q in x && RecordLe(r, q) && RecordLe(q, r) ensures r == q {
      assert r.key == q.key;
    }
    KeysOnceNoRepeats(x);
    KeysOnceNoRepeats(y);
    SortedOnceUnique(RecordLe, x, y);
  }

  lemma KeysOnceNoRepeats(profiles: seq<Record>)
    requires DistinctKeys(profiles)
    ensures NoRepeats(profiles)
  {
  }

  lemma InDocument(inp: Inputs, doc: Document, r: Record)
    requires Determined(inp) && Emitted(inp, doc) && RecordFits(inp, r)
    ensures r in doc.profiles
  {
    var e, c :| e in inp.registry && c in inp.catalogs && e.key == c.key == r.key && CatalogFine(c, inp.files)
      && r == MakeRecord(e, c, inp.files);
    var q :| q in doc.profiles && q.key == e.key;
    assert RecordFits(inp, q);
  }

  // ---- the order of the inputs

  /** The registry entries in another order. */
  lemma EntriesRearranged(a: Inputs, registry: seq<RegistryEntry>)
    requires multiset(registry) == multiset(a.registry)
    ensures Fine(a) <==> Fine(a.(registry := registry))
    ensures SameRecords(a, a.(registry := registry))
  {
    var b := a.(registry := registry);
    forall e ensures e in a.registry <==> e in b.registry {
      SameItems(a.registry, b.registry, e);
    }
    if EntryKeysOnce(a.registry) {
      KeysOnceRearranged(a.registry, registry);
    }
    if EntryKeysOnce(registry) {
      KeysOnceRearranged(registry, a.registry);
    }
    forall key ensures Registered(a, key) <==> Registered(b, key) {
    }
    forall key ensures Catalogued(a, key) <==> Catalogued(b, key) {
    }
  }

  lemma KeysOnceRearranged(s: seq<RegistryEntry>, t: seq<RegistryEntry>)
    requires multiset(s) == multiset(t) && EntryKeysOnce(s)
    ensures EntryKeysOnce(t)
  {
    assert NoRepeats(s);
    RearrangedOnce(s, t);
    forall i, j | 0 <= i < j < |t| ensures t[i].key != t[j].key {
      SameItems(s, t, t[i]);
      SameItems(s, t, t[j]);
      if t[i].key == t[j].key {
        EntryDetermined(s, t[i], t[j]);
      }
    }
  }

  /** One profile's required suites in another order. */
  ghost predicate SuitesRearranged(c: Catalog, d: Catalog) {
    c.path == d.path && c.key == d.key && c.mark == d.mark && multiset(c.suites) == multiset(d.suites)
  }

  lemma {:induction false} CorePathsCount(s: seq<string>, p: string)
    ensures multiset(CorePaths(s))[p] == if IsCore(p) then multiset(s)[p] else 0
  {
    if s == [] {
    } else {
      CorePathsCount(s[..|s| - 1], p);
      assert s == s[..|s| - 1] + [s[|s| - 1]];
    }
  }

  lemma SameCore(c: Catalog, d: Catalog)
    requires SuitesRearranged(c, d)
    ensures |CorePaths(c.suites)| == |CorePaths(d.suites)|
    ensures |CorePaths(c.suites)| == 1 ==> CorePaths(c.suites) == CorePaths(d.suites)
  {
    var a, b := CorePaths(c.suites), CorePaths(d.suites);
    forall p ensures multiset(a)[p] == multiset(b)[p] {
      CorePathsCount(c.suites, p);
      CorePathsCount(d.suites, p);
    }
    assert multiset(a) == multiset(b);
    SameLength(a, b);
    if |a| == 1 {
      SameItems(a, b, a[0]);
    }
  }

  lemma RearrangedRecord(e: RegistryEntry, c: Catalog, d: Catalog, files: SuiteFiles)
    requires SuitesRearranged(c, d) && CatalogFine(c, files)
    ensures CatalogFine(d, files) && MakeRecord(e, c, files) == MakeRecord(e, d, files)
  {
    SameCore(c, d);
    SameLength(c.suites, d.suites);
    RearrangedOnce(c.suites, d.suites);
    forall p ensures p in c.suites <==> p in d.suites {
      SameItems(c.suites, d.suites, p);
    }
    StringOrder();
    SortCanonical(StringLe, c.suites, d.suites);
  }

  /** Every catalog with its required suites in another order. */
  ghost predicate CatalogsRearranged(a: seq<Catalog>, b: seq<Catalog>) {
    |a| == |b| && forall i :: 0 <= i < |a| ==> SuitesRearranged(a[i], b[i])
  }

  lemma Counterpart(a: seq<Catalog>, b: seq<Catalog>, c: Catalog) returns (d: Catalog)
    requires CatalogsRearranged(a, b) && c in a
    ensures d in b && SuitesRearranged(c, d)
  {
    var i :| 0 <= i < |a| && a[i] == c;
    d := b[i];
  }

  lemma SuitesKeepFine(a: Inputs, catalogs: seq<Catalog>)
    requires CatalogsRearranged(a.catalogs, catalogs) && Fine(a)
    ensures Fine(a.(catalogs := catalogs))
  {
    var b := a.(catalogs := catalogs);
    KeysOnceKept(a.catalogs, catalogs);
    BackwardsToo(a.catalogs, catalogs);
    forall key ensures Catalogued(a, key) <==> Catalogued(b, key) {
      SameCatalogued(a, catalogs, key);
    }
    forall d | d in catalogs ensures CatalogFine(d, a.files) {
      var c := Counterpart(catalogs, a.catalogs, d);
      RearrangedRecord(RegistryEntry(c.key, None, [], [], []), c, d, a.files);
    }
    forall c, d | c in catalogs && d in catalogs && c.mark == d.mark ensures c.key == d.key {
      var c' := Counterpart(catalogs, a.catalogs, c);
      var d' := Counterpart(catalogs, a.catalogs, d);
    }
    forall key ensures Registered(a, key) <==> Registered(b, key) {
    }
  }

  lemma KeysOnceKept(a: seq<Catalog>, b: seq<Catalog>)
    requires CatalogsRearranged(a, b) && CatalogKeysOnce(a)
    ensures CatalogKeysOnce(b)
  {
    forall i, j | 0 <= i < j < |b| ensures b[i].key != b[j].key {
      assert SuitesRearranged(a[i], b[i]) && SuitesRearranged(a[j], b[j]);
    }
  }

  lemma BackwardsToo(a: seq<Catalog>, b: seq<Catalog>)
    requires CatalogsRearranged(a, b)
    ensures CatalogsRearranged(b, a)
  {
    forall i | 0 <= i < |b| ensures SuitesRearranged(b[i], a[i]) {
      assert SuitesRearranged(a[i], b[i]);
    }
  }

  lemma SameCatalogued(a: Inputs, catalogs: seq<Catalog>, key: Key)
    requires CatalogsRearranged(a.catalogs, catalogs)
    ensures Catalogued(a, key) <==> Catalogued(a.(catalogs := catalogs), key)
  {
    BackwardsToo(a.catalogs, catalogs);
    if c :| c in a.catalogs && c.key == key {
      var d := Counterpart(a.catalogs, catalogs, c);
    }
    if d :| d in catalogs && d.key == key {
      var c := Counterpart(catalogs, a.catalogs, d);
    }
  }

  lemma SuitesKeepRecords(a: Inputs, catalogs: seq<Catalog>, r: Record)
    requires CatalogsRearranged(a.catalogs, catalogs) && RecordFits(a, r)
    ensures RecordFits(a.(catalogs := catalogs), r)
  {
    var e, c :| e in a.registry && c in a.catalogs && e.key == c.key == r.key && CatalogFine(c, a.files)
      && r == MakeRecord(e, c, a.files);
    var d := Counterpart(a.catalogs, catalogs, c);
    RearrangedRecord(e, c, d, a.files);
  }

  /** Success and output do not depend on the order of the registry entries nor of any profile's required suites. */
  lemma OrderIndependent(a: Inputs, registry: seq<RegistryEntry>, catalogs: seq<Catalog>)
    requires multiset(registry) == multiset(a.registry) && CatalogsRearranged(a.catalogs, catalogs)
    ensures Fine(a) <==> Fine(Inputs(catalogs, registry, a.files))
    ensures forall x, y :: Fine(a) && Emitted(a, x) && Emitted(Inputs(catalogs, registry, a.files), y) ==> x == y
  {
    var m := a.(registry := registry);
    var b := m.(catalogs := catalogs);
    EntriesRearranged(a, registry);
    BackwardsToo(a.catalogs, catalogs);
    if Fine(m) {
      SuitesKeepFine(m, catalogs);
    }
    if Fine(b) {
      SuitesKeepFine(b, a.catalogs);
      assert b.(catalogs := a.catalogs) == m;
    }
    forall r ensures RecordFits(m, r) <==> RecordFits(b, r) {
      if RecordFits(m, r) {
        SuitesKeepRecords(m, catalogs, r);
      }
      if RecordFits(b, r) {
        SuitesKeepRecords(b, a.catalogs, r);
        assert b.(catalogs := a.catalogs) == m;
      }
    }
    forall key ensures Registered(m, key) <==> Registered(b, key) {
    }
    assert SameRecords(a, b);
    forall x, y | Fine(a) && Emitted(a, x) && Emitted(b, y) ensures x == y {
      EmittedUnique(a, b, x, y);
    }
  }

  // ---- the generator

  method CheckCatalog(c: Catalog, files: SuiteFiles) returns (ok: bool)
    ensures ok <==> CatalogFine(c, files)
  {
    CountDistinct(c.suites);
    ok := c.suites != [] && |c.suites| == |set p | p in c.suites| && forall p | p in c.suites :: p in files;
    if ok {
      var core := CorePaths(c.suites);
      ok := |core| == 1 && core[0] in files && files[core[0]].Some? && c.mark.Some? && c.mark.value != "";
    }
  }

  method ReadCatalogs(catalogs: seq<Catalog>) returns (r: Option<map<Key, Catalog>>)
    ensures r.Some? <==> CatalogKeysOnce(catalogs)
    ensures r.Some? ==> forall key :: key in r.value <==> exists c :: c in catalogs && c.key == key
    ensures r.Some? ==> forall key :: key in r.value ==> r.value[key] in catalogs && r.value[key].key == key
  {
    var m: map<Key, Catalog> := map[];
    for n := 0 to |catalogs|
      invariant CatalogKeysOnce(catalogs[..n])
      invariant forall key :: key in m <==> exists c :: c in catalogs[..n] && c.key == key
      invariant forall key :: key in m ==> m[key] in catalogs[..n] && m[key].key == key
    {
      var c := catalogs[n];
      assert catalogs[..n + 1] == catalogs[..n] + [c];
      if c.key in m {
        var d :| d in catalogs[..n] && d.key == c.key;
        var i :| 0 <= i < n && catalogs[..n][i] == d;
        assert catalogs[i].key == catalogs[n].key;
        return None;
      }
      forall i, j | 0 <= i < j < n + 1 ensures catalogs[i].key != catalogs[j].key {
        if j == n {
          assert catalogs[..n][i] in catalogs[..n];
        } else {
          assert catalogs[..n][i].key != catalogs[..n][j].key;
        }
      }
      m := m[c.key := c];
    }
    assert catalogs[..|catalogs|] == catalogs;
    return Some(m);
  }

  /** The registry by key, and its keys in the order they were read. */
  method ReadRegistry(registry: seq<RegistryEntry>) returns (r: Result<(map<Key, RegistryEntry>, seq<Key>), Failure>)
    ensures r.Ok? <==> EntryKeysOnce(registry) && forall e :: e in registry ==> IdFits(e)
    ensures r.Ok? ==> forall key :: key in r.value.0 <==> exists e :: e in registry && e.key == key
    ensures r.Ok? ==> forall key :: key in r.value.0 ==> r.value.0[key] in registry && r.value.0[key].key == key
    ensures r.Ok? ==> NoRepeats(r.value.1) && forall key :: key in r.value.0 <==> key in r.value.1
  {
    var m: map<Key, RegistryEntry> := map[];
    var keys: seq<Key> := [];
    for n := 0 to |registry|
      invariant EntryKeysOnce(registry[..n]) && forall e :: e in registry[..n] ==> IdFits(e)
      invariant forall key :: key in m <==> exists e :: e in registry[..n] && e.key == key
      invariant forall key :: key in m ==> m[key] in registry[..n] && m[key].key == key
      invariant NoRepeats(keys) && forall key :: key in m <==> key in keys
    {
      var e := registry[n];
      assert registry[..n + 1] == registry[..n] + [e];
      if e.key in m {
        var d :| d in registry[..n] && d.key == e.key;
        var i :| 0 <= i < n && registry[..n][i] == d;
        assert registry[i].key == registry[n].key;
        return Err(DuplicateProfile);
      }
      if !IdFits(e) {
        assert e in registry;
        return Err(IdMismatch);
      }
      forall i, j | 0 <= i < j < n + 1 ensures registry[i].key != registry[j].key {
        if j == n {
          assert registry[..n][i] in registry[..n];
        } else {
          assert registry[..n][i].key != registry[..n][j].key;
        }
      }
      m := m[e.key := e];
      keys := keys + [e.key];
    }
    assert registry[..|registry|] == registry;
    return Ok((m, keys));
  }

  /** The nested loops over all pairs of profiles. */
  method CollectPairs(profiles: seq<Record>) returns (pairs: seq<(Key, Key)>)
    ensures pairs == AllPairs(profiles)
  {
    pairs := [];
    for i := 0 to |profiles|
      invariant pairs == FlattenUpTo(PairRows(profiles), i)
    {
      ghost var before := pairs;
      assert before + [] == before;
      for j := 0 to |profiles|
        invariant pairs == before + PairsOf(profiles[i], profiles[..j])
      {
        assert profiles[..j + 1][..j] == profiles[..j];
        if i != j && SuiteSet(profiles[i]) < SuiteSet(profiles[j]) {
          pairs := pairs + [(profiles[i].key, profiles[j].key)];
        }
      }
      assert profiles[..|profiles|] == profiles;
    }
  }

  /** What the loop checks of the catalogs under `keys`. */
  ghost predicate Checked(catalogs: map<Key, Catalog>, keys: seq<Key>, files: SuiteFiles)
    requires forall key :: key in keys ==> key in catalogs
  {
    && (forall key :: key in keys ==> CatalogFine(catalogs[key], files))
    && forall k, l :: k in keys && l in keys && catalogs[k].mark == catalogs[l].mark ==> k == l
  }

  /** The records the loop makes, one for each key in turn. */
  ghost predicate RecordsOf(inp: Inputs, catalogs: map<Key, Catalog>, entries: map<Key, RegistryEntry>, keys: seq<Key>,
                            records: seq<Record>)
    requires forall key :: key in keys ==> key in catalogs && key in entries
  {
    && |records| == |keys|
    && forall i :: 0 <= i < |keys| ==>
         CatalogFine(catalogs[keys[i]], inp.files)
           && records[i] == MakeRecord(entries[keys[i]], catalogs[keys[i]], inp.files)
  }

  /** The loop over the sorted keys: checks every catalog and makes every record, or says why it cannot. */
  method MakeRecords(inp: Inputs, catalogs: map<Key, Catalog>, registry: map<Key, RegistryEntry>, keys: seq<Key>)
      returns (r: Result<seq<Record>, Failure>)
    requires NoRepeats(keys) && forall key :: key in keys ==> key in catalogs && key in registry
    ensures r.Ok? <==> Checked(catalogs, keys, inp.files)
    ensures r.Ok? ==> RecordsOf(inp, catalogs, registry, keys, r.value)
  {
    var records: seq<Record> := [];
    var marks: set<Option<string>> := {};
    for n := 0 to |keys|
      invariant RecordsOf(inp, catalogs, registry, keys[..n], records)
      invariant forall mark :: mark in marks <==> exists i :: 0 <= i < n && catalogs[keys[i]].mark == mark
      invariant MarksDiffer(catalogs, keys, n)
    {
      var c := catalogs[keys[n]];
      var ok := CheckCatalog(c, inp.files);
      if !ok {
        assert keys[n] in keys;
        return Err(BadCatalog);
      }
      if c.mark in marks {
        var i :| 0 <= i < n && catalogs[keys[i]].mark == c.mark;
        MarkTwice(inp, catalogs, keys, i, n);
        return Err(DuplicateMark);
      }
      marks := marks + {c.mark};
      OneRecordMore(inp, catalogs, registry, keys, n, records);
      records := records + [MakeRecord(registry[keys[n]], c, inp.files)];
    }
    assert keys[..|keys|] == keys;
    AllChecked(inp, catalogs, keys);
    r := Ok(records);
  }

  lemma MarkTwice(inp: Inputs, catalogs: map<Key, Catalog>, keys: seq<Key>, i: nat, n: nat)
    requires NoRepeats(keys) && (forall key :: key in keys ==> key in catalogs) && i < n < |keys|
    requires catalogs[keys[i]].mark == catalogs[keys[n]].mark
    ensures !Checked(catalogs, keys, inp.files)
  {
    assert keys[i] in keys && keys[n] in keys && keys[i] != keys[n];
  }

  lemma OneRecordMore(inp: Inputs, catalogs: map<Key, Catalog>, entries: map<Key, RegistryEntry>, keys: seq<Key>,
                      n: nat, records: seq<Record>)
    requires (forall key :: key in keys ==> key in catalogs && key in entries) && n < |keys|
    requires RecordsOf(inp, catalogs, entries, keys[..n], records) && CatalogFine(catalogs[keys[n]], inp.files)
    ensures RecordsOf(inp, catalogs, entries, keys[..n + 1],
                      records + [MakeRecord(entries[keys[n]], catalogs[keys[n]], inp.files)])
  {
  }

  ghost predicate MarksDiffer(catalogs: map<Key, Catalog>, keys: seq<Key>, n: nat)
    requires n <= |keys| && forall key :: key in keys ==> key in catalogs
  {
    forall i, j :: 0 <= i < j < n ==> catalogs[keys[i]].mark != catalogs[keys[j]].mark
  }

  lemma AllChecked(inp: Inputs, catalogs: map<Key, Catalog>, keys: seq<Key>)
    requires (forall key :: key in keys ==> key in catalogs) && MarksDiffer(catalogs, keys, |keys|)
    requires forall i :: 0 <= i < |keys| ==> CatalogFine(catalogs[keys[i]], inp.files)
    ensures Checked(catalogs, keys, inp.files)
  {
    forall k, l | k in keys && l in keys && catalogs[k].mark == catalogs[l].mark ensures k == l {
      var i :| 0 <= i < |keys| && keys[i] == k;
      var j :| 0 <= j < |keys| && keys[j] == l;
    }
  }

  method BuildRegistry(inp: Inputs) returns (r: Result<Document, Failure>)
    ensures r.Ok? <==> Fine(inp)
    ensures r.Ok? ==> Emitted(inp, r.value) && Describes(inp, r.value)
  {
    var catalogs := ReadCatalogs(inp.catalogs);
    if catalogs.None? {
      return Err(DuplicateCatalog);
    }
    var registry := ReadRegistry(inp.registry);
    if registry.Err? {
      return Err(registry.error);
    }
    var (entries, read) := registry.value;
    assert Indexed(inp, catalogs.value, entries);
    if catalogs.value.Keys != entries.Keys {
      KeysDiffer(inp, catalogs.value, entries);
      return Err(RegistryCatalogMismatch);
    }
    var keys := Sort(PairLe, read);
    SortedKeys(read);
    assert forall key :: key in keys <==> key in catalogs.value.Keys;
    FineWhen(inp, catalogs.value, entries, keys);
    var records := MakeRecords(inp, catalogs.value, entries, keys);
    if records.Err? {
      return Err(records.error);
    }
    if !(forall member | member in EXCLUSIVE_MEMBERS :: member in keys) {
      return Err(UnknownGroupMember);
    }
    var pairs := CollectPairs(records.value);
    if SUPPORTED_CORE_SUITE !in inp.files || inp.files[SUPPORTED_CORE_SUITE].None? {
      return Err(BadCoreSuite);
    }
    r := Ok(Document(inp.files[SUPPORTED_CORE_SUITE].value, Sort(RelationLe, pairs), records.value));
    EmittedWhen(inp, catalogs.value, entries, keys, records.value);
    EmittedDescribes(inp, r.value);
  }

  lemma {:induction false} SortedKeys(read: seq<Key>)
    requires NoRepeats(read)
    ensures var keys := Sort(PairLe, read);
            NoRepeats(keys) && Sorted(PairLe, keys) && forall key :: key in keys <==> key in read
  {
    PairOrder();
    SortSorts(PairLe, read);
    RearrangedOnce(read, Sort(PairLe, read));
    forall key ensures key in Sort(PairLe, read) <==> key in read {
      SameItems(read, Sort(PairLe, read), key);
    }
  }

  /** The two dictionaries hold the catalogs and the entries by their keys. */
  ghost predicate Indexed(inp: Inputs, catalogs: map<Key, Catalog>, entries: map<Key, RegistryEntry>) {
    && (forall key :: key in catalogs <==> Catalogued(inp, key))
    && (forall key :: key in entries <==> Registered(inp, key))
    && (forall key :: key in catalogs ==> catalogs[key] in inp.catalogs && catalogs[key].key == key)
    && (forall key :: key in entries ==> entries[key] in inp.registry && entries[key].key == key)
  }

  lemma KeysDiffer(inp: Inputs, catalogs: map<Key, Catalog>, entries: map<Key, RegistryEntry>)
    requires Indexed(inp, catalogs, entries) && catalogs.Keys != entries.Keys
    ensures !Fine(inp)
  {
    var key :| (key in catalogs.Keys) != (key in entries.Keys);
    assert Catalogued(inp, key) != Registered(inp, key);
  }

  lemma TheCatalog(inp: Inputs, catalogs: map<Key, Catalog>, entries: map<Key, RegistryEntry>, c: Catalog)
    requires Indexed(inp, catalogs, entries) && CatalogKeysOnce(inp.catalogs) && c in inp.catalogs
    ensures c.key in catalogs && catalogs[c.key] == c
  {
    assert Catalogued(inp, c.key);
    CatalogDetermined(inp.catalogs, c, catalogs[c.key]);
  }

  /** Once the dictionaries agree, what is left to check. */
  lemma FineWhen(inp: Inputs, catalogs: map<Key, Catalog>, entries: map<Key, RegistryEntry>, keys: seq<Key>)
    requires Indexed(inp, catalogs, entries) && catalogs.Keys == entries.Keys && CatalogKeysOnce(inp.catalogs)
    requires EntryKeysOnce(inp.registry) && (forall e :: e in inp.registry ==> IdFits(e))
    requires forall key :: key in keys <==> key in catalogs.Keys
    ensures Fine(inp)
       <==> Checked(catalogs, keys, inp.files) && (forall key :: key in EXCLUSIVE_MEMBERS ==> key in keys)
            && HasMeta(inp.files, SUPPORTED_CORE_SUITE)
  {
    forall c | c in inp.catalogs ensures c.key in catalogs && catalogs[c.key] == c {
      TheCatalog(inp, catalogs, entries, c);
    }
    forall key ensures (Catalogued(inp, key) <==> Registered(inp, key)) && (key in keys <==> Registered(inp, key)) {
    }
    CheckedMeans(inp, catalogs, entries, keys);
  }

  lemma CheckedMeans(inp: Inputs, catalogs: map<Key, Catalog>, entries: map<Key, RegistryEntry>, keys: seq<Key>)
    requires Indexed(inp, catalogs, entries) && forall key :: key in keys <==> key in catalogs.Keys
    requires forall c :: c in inp.catalogs ==> c.key in catalogs && catalogs[c.key] == c
    ensures Checked(catalogs, keys, inp.files)
            <==> (forall c :: c in inp.catalogs ==> CatalogFine(c, inp.files)) && MarksOnce(inp.catalogs)
  {
    if Checked(catalogs, keys, inp.files) {
      forall c | c in inp.catalogs ensures CatalogFine(c, inp.files) {
        assert c.key in keys;
      }
      forall c, d | c in inp.catalogs && d in inp.catalogs && c.mark == d.mark ensures c.key == d.key {
        assert c.key in keys && d.key in keys;
      }
    }
  }

  lemma RecordFitsAt(inp: Inputs, catalogs: map<Key, Catalog>, entries: map<Key, RegistryEntry>, key: Key)
    requires Indexed(inp, catalogs, entries) && key in catalogs && key in entries
             && CatalogFine(catalogs[key], inp.files)
    ensures RecordFits(inp, MakeRecord(entries[key], catalogs[key], inp.files))
    ensures MakeRecord(entries[key], catalogs[key], inp.files).key == key
  {
  }

  lemma RecordsFit(inp: Inputs, catalogs: map<Key, Catalog>, entries: map<Key, RegistryEntry>, keys: seq<Key>,
                   records: seq<Record>)
    requires Indexed(inp, catalogs, entries) && forall key :: key in keys ==> key in catalogs && key in entries
    requires RecordsOf(inp, catalogs, entries, keys, records)
    ensures forall i :: 0 <= i < |keys| ==> records[i].key == keys[i] && RecordFits(inp, records[i])
  {
    forall i | 0 <= i < |keys| ensures records[i].key == keys[i] && RecordFits(inp, records[i]) {
      RecordFitsAt(inp, catalogs, entries, keys[i]);
    }
  }

  lemma SameOrder(keys: seq<Key>, records: seq<Record>)
    requires |records| == |keys| && forall i :: 0 <= i < |keys| ==> records[i].key == keys[i]
    requires NoRepeats(keys) && Sorted(PairLe, keys)
    ensures DistinctKeys(records) && Sorted(RecordLe, records)
  {
  }

  lemma EmittedWhen(inp: Inputs, catalogs: map<Key, Catalog>, entries: map<Key, RegistryEntry>, keys: seq<Key>,
                    records: seq<Record>)
    requires Indexed(inp, catalogs, entries) && catalogs.Keys == entries.Keys
    requires NoRepeats(keys) && Sorted(PairLe, keys) && forall key :: key in keys <==> key in catalogs.Keys
    requires RecordsOf(inp, catalogs, entries, keys, records) && HasMeta(inp.files, SUPPORTED_CORE_SUITE)
    ensures Emitted(inp, Document(inp.files[SUPPORTED_CORE_SUITE].value, Relations(records), records))
  {
    RecordsFit(inp, catalogs, entries, keys, records);
    SameOrder(keys, records);
    forall e | e in inp.registry ensures Recorded(records, e.key) {
      assert Registered(inp, e.key);
      var i :| 0 <= i < |keys| && keys[i] == e.key;
      assert records[i] in records;
    }
  }

  // ---- the document, field by field

  /** The same items in ascending order. */
  ghost predicate SortedCopy(copy: seq<string>, s: seq<string>) {
    && multiset(copy) == multiset(s)
    && forall i, j :: 0 <= i < j < |copy| ==> copy[i] == copy[j] || Precedes(copy[i], copy[j])
  }

  lemma {:induction false} SortCopies(s: seq<string>)
    ensures SortedCopy(Sort(StringLe, s), s)
  {
    StringOrder();
    SortSorts(StringLe, s);
    var t := Sort(StringLe, s);
    forall i, j | 0 <= i < j < |t| ensures t[i] == t[j] || Precedes(t[i], t[j]) {
      StringLeExact(t[i], t[j]);
    }
  }

  /** Every field of a record, from the registry entry, the catalog and the suite files. */
  ghost predicate Faithful(r: Record, e: RegistryEntry, c: Catalog, files: SuiteFiles) {
    && r.key == e.key == c.key && r.catalogPath == c.path
    && OneCore(c.suites, r.coreSuite) && r.coreSuite in files && files[r.coreSuite] == Some(r.coreMeta)
    && SortedCopy(r.suites, c.suites) && SortedCopy(r.extensions, e.extensions)
    && SortedCopy(r.crypto, e.crypto) && SortedCopy(r.policies, e.policies)
    && c.mark == Some(r.mark) && r.mark != ""
    && (r.negotiable <==> r.coreSuite == "conformance/core/CT_CORE_0.1.json")
  }

  lemma RecordFaithful(e: RegistryEntry, c: Catalog, files: SuiteFiles)
    requires CatalogFine(c, files) && e.key == c.key
    ensures Faithful(MakeRecord(e, c, files), e, c, files)
  {
    CatalogFineExact(c, files);
    SortCopies(c.suites);
    SortCopies(e.extensions);
    SortCopies(e.crypto);
    SortCopies(e.policies);
  }

  function SetOf(s: seq<string>): set<string> { set x | x in s }

  ghost predicate KeysAscend(profiles: seq<Record>) {
    forall i, j :: 0 <= i < j < |profiles| ==> PairPrecedes(profiles[i].key, profiles[j].key)
  }

  /** One faithful record for each entry and its catalog and no others, in ascending order of the keys. */
  ghost predicate DescribesProfiles(inp: Inputs, profiles: seq<Record>) {
    && KeysAscend(profiles)
    && (forall e, c :: e in inp.registry && c in inp.catalogs && e.key == c.key ==>
          exists r :: r in profiles && Faithful(r, e, c, inp.files))
    && (forall r :: r in profiles ==>
          exists e, c :: e in inp.registry && c in inp.catalogs && Faithful(r, e, c, inp.files))
  }

  /** Of two catalogs the one's key is paired with the other's exactly when its suites are some but not all of the
      other's; the pairs ascend, each once. */
  ghost predicate DescribesRelation(inp: Inputs, relations: seq<(Key, Key)>) {
    && (forall c, d :: c in inp.catalogs && d in inp.catalogs ==>
          ((c.key, d.key) in relations <==> SetOf(c.suites) < SetOf(d.suites)))
    && (forall p :: p in relations ==>
          exists c, d :: c in inp.catalogs && d in inp.catalogs && p == (c.key, d.key))
    && (forall i, j :: 0 <= i < j < |relations| ==> RelationPrecedes(relations[i], relations[j]))
  }

  ghost predicate Describes(inp: Inputs, doc: Document) {
    && DescribesProfiles(inp, doc.profiles) && DescribesRelation(inp, doc.relations)
    && SUPPORTED_CORE_SUITE in inp.files && inp.files[SUPPORTED_CORE_SUITE] == Some(doc.supportedCore)
  }

  lemma EmittedDescribes(inp: Inputs, doc: Document)
    requires Fine(inp) && Emitted(inp, doc)
    ensures Describes(inp, doc)
  {
    ProfilesDescribed(inp, doc.profiles);
    RelationDescribed(inp, doc);
  }

  /** Each record fits, and each entry has one. */
  ghost predicate EntriesRecorded(inp: Inputs, profiles: seq<Record>) {
    && EntryKeysOnce(inp.registry) && CatalogKeysOnce(inp.catalogs)
    && (forall r :: r in profiles ==> RecordFits(inp, r))
    && (forall e :: e in inp.registry ==> Recorded(profiles, e.key))
  }

  lemma ProfilesDescribed(inp: Inputs, profiles: seq<Record>)
    requires EntriesRecorded(inp, profiles) && DistinctKeys(profiles) && Sorted(RecordLe, profiles)
    ensures DescribesProfiles(inp, profiles)
  {
    forall e, c | e in inp.registry && c in inp.catalogs && e.key == c.key
      ensures exists r :: r in profiles && Faithful(r, e, c, inp.files)
    {
      var r := RecordOf(inp, profiles, e, c);
    }
    forall r | r in profiles
      ensures exists e, c :: e in inp.registry && c in inp.catalogs && Faithful(r, e, c, inp.files)
    {
      var e, c := DescribedBy(inp, r);
    }
    KeysAscending(profiles);
  }

  lemma KeysAscending(profiles: seq<Record>)
    requires DistinctKeys(profiles) && Sorted(RecordLe, profiles)
    ensures KeysAscend(profiles)
  {
    forall i, j | 0 <= i < j < |profiles| ensures PairPrecedes(profiles[i].key, profiles[j].key) {
      PairLeExact(profiles[i].key, profiles[j].key);
    }
  }

  lemma DescribedBy(inp: Inputs, r: Record) returns (e: RegistryEntry, c: Catalog)
    requires RecordFits(inp, r)
    ensures e in inp.registry && c in inp.catalogs && Faithful(r, e, c, inp.files)
  {
    e, c := SourceOf(inp, r);
    RecordFaithful(e, c, inp.files);
  }

  lemma SourceOf(inp: Inputs, r: Record) returns (e: RegistryEntry, c: Catalog)
    requires RecordFits(inp, r)
    ensures e in inp.registry && c in inp.catalogs && e.key == c.key == r.key && CatalogFine(c, inp.files)
    ensures r == MakeRecord(e, c, inp.files)
  {
    e, c :| e in inp.registry && c in inp.catalogs && e.key == c.key == r.key && CatalogFine(c, inp.files)
            && r == MakeRecord(e, c, inp.files);
  }

  lemma RelationDescribed(inp: Inputs, doc: Document)
    requires Fine(inp) && Emitted(inp, doc)
    ensures DescribesRelation(inp, doc.relations)
  {
    forall c, d | c in inp.catalogs && d in inp.catalogs
      ensures (c.key, d.key) in doc.relations <==> SetOf(c.suites) < SetOf(d.suites)
    {
      RelatedExactly(inp, doc, c, d);
    }
    forall p | p in doc.relations
      ensures exists c, d :: c in inp.catalogs && d in inp.catalogs && p == (c.key, d.key)
    {
      RelatedCatalogs(inp, doc, p);
    }
    RelationsAscending(doc.profiles);
  }

  /** The record of an entry and its catalog. */
  lemma RecordOf(inp: Inputs, profiles: seq<Record>, e: RegistryEntry, c: Catalog) returns (r: Record)
    requires EntriesRecorded(inp, profiles) && e in inp.registry && c in inp.catalogs && e.key == c.key
    ensures r in profiles && Faithful(r, e, c, inp.files)
  {
    r :| r in profiles && r.key == e.key;
    RecordIs(inp, r, e, c);
    RecordFaithful(e, c, inp.files);
  }

  lemma RecordIs(inp: Inputs, r: Record, e: RegistryEntry, c: Catalog)
    requires EntryKeysOnce(inp.registry) && CatalogKeysOnce(inp.catalogs) && RecordFits(inp, r)
    requires e in inp.registry && c in inp.catalogs && e.key == c.key == r.key
    ensures CatalogFine(c, inp.files) && r == MakeRecord(e, c, inp.files)
  {
    var f, d := SourceOf(inp, r);
    EntryDetermined(inp.registry, e, f);
    CatalogDetermined(inp.catalogs, c, d);
  }

  lemma EntryOf(inp: Inputs, c: Catalog) returns (e: RegistryEntry)
    requires Fine(inp) && c in inp.catalogs
    ensures e in inp.registry && e.key == c.key
  {
    assert Catalogued(inp, c.key) && Registered(inp, c.key);
    e :| e in inp.registry && e.key == c.key;
  }

  lemma RelatedExactly(inp: Inputs, doc: Document, c: Catalog, d: Catalog)
    requires Fine(inp) && Emitted(inp, doc) && c in inp.catalogs && d in inp.catalogs
    ensures (c.key, d.key) in doc.relations <==> SetOf(c.suites) < SetOf(d.suites)
  {
    var e := EntryOf(inp, c);
    var f := EntryOf(inp, d);
    var r := RecordOf(inp, doc.profiles, e, c);
    var q := RecordOf(inp, doc.profiles, f, d);
    FaithfulSuites(r, e, c, inp.files);
    FaithfulSuites(q, f, d, inp.files);
    RelatedRecords(doc.profiles, r, q);
  }

  lemma FaithfulSuites(r: Record, e: RegistryEntry, c: Catalog, files: SuiteFiles)
    requires Faithful(r, e, c, files)
    ensures r.key == c.key && SuiteSet(r) == SetOf(c.suites)
  {
    SameSets(r.suites, c.suites);
    assert SuiteSet(r) == SetOf(r.suites);
  }

  lemma RelatedRecords(profiles: seq<Record>, r: Record, q: Record)
    requires DistinctKeys(profiles) && r in profiles && q in profiles
    ensures (r.key, q.key) in Relations(profiles) <==> SuiteSet(r) < SuiteSet(q)
  {
    var i :| 0 <= i < |profiles| && profiles[i] == r;
    var j :| 0 <= j < |profiles| && profiles[j] == q;
    RelationExact(profiles, i, j);
  }

  lemma SameSets(a: seq<string>, b: seq<string>)
    requires multiset(a) == multiset(b)
    ensures SetOf(a) == SetOf(b)
  {
    forall x ensures x in SetOf(a) <==> x in SetOf(b) {
      SameItems(a, b, x);
    }
  }

  lemma RelatedCatalogs(inp: Inputs, doc: Document, p: (Key, Key))
    requires Emitted(inp, doc) && p in doc.relations
    ensures exists c, d :: c in inp.catalogs && d in inp.catalogs && p == (c.key, d.key)
  {
    RelationItems(doc.profiles, p);
    AllPairsMember(doc.profiles, p);
    var i, j :| 0 <= i < |doc.profiles| && 0 <= j < |doc.profiles|
                && p == (doc.profiles[i].key, doc.profiles[j].key) && Covered(doc.profiles[i], doc.profiles[j]);
    var e, c := SourceOf(inp, doc.profiles[i]);
    var f, d := SourceOf(inp, doc.profiles[j]);
    assert p == (c.key, d.key);
  }

  lemma RelationsAscending(profiles: seq<Record>)
    requires DistinctKeys(profiles)
    ensures forall i, j :: 0 <= i < j < |Relations(profiles)| ==>
              RelationPrecedes(Relations(profiles)[i], Relations(profiles)[j])
  {
    var pairs := Relations(profiles);
    RelationOrder();
    SortSorts(RelationLe, AllPairs(profiles));
    PairsOnce(profiles);
    RearrangedOnce(AllPairs(profiles), pairs);
    forall i, j | 0 <= i < j < |pairs| ensures RelationPrecedes(pairs[i], pairs[j]) {
      RelationLeExact(pairs[i], pairs[j]);
    }
  }

  /** The nested loops meet no pair of keys twice. */
  lemma PairsOnce(profiles: seq<Record>)
    requires DistinctKeys(profiles)
    ensures NoRepeats(AllPairs(profiles))
  {
    RowsOnce(profiles, |profiles|);
  }

  lemma {:induction false} RowsOnce(profiles: seq<Record>, n: nat)
    requires DistinctKeys(profiles) && n <= |profiles|
    ensures NoRepeats(FlattenUpTo(PairRows(profiles), n))
  {
    if n == 0 {
    } else {
      RowsOnce(profiles, n - 1);
      RowOnce(profiles[n - 1], profiles);
      var before, row := FlattenUpTo(PairRows(profiles), n - 1), PairRows(profiles)[n - 1];
      forall i, j | 0 <= i < |before| && 0 <= j < |row| ensures before[i] != row[j] {
        RowsApart(profiles, n - 1, before[i]);
      }
      OnceTogether(FlattenUpTo(PairRows(profiles), n - 1), PairRows(profiles)[n - 1]);
    }
  }

  lemma {:induction false} RowsApart(profiles: seq<Record>, n: nat, p: (Key, Key))
    requires DistinctKeys(profiles) && n < |profiles| && p in FlattenUpTo(PairRows(profiles), n)
    ensures p !in PairRows(profiles)[n]
  {
    FlattenMember(PairRows(profiles), n, p);
    var i :| 0 <= i < n && p in PairRows(profiles)[i];
    PairsOfMember(profiles[i], profiles, p);
    PairsOfMember(profiles[n], profiles, p);
  }

  lemma {:induction false} RowOnce(candidate: Record, profiles: seq<Record>)
    requires DistinctKeys(profiles)
    ensures NoRepeats(PairsOf(candidate, profiles))
  {
    if profiles == [] {
    } else {
      var n := |profiles| - 1;
      RowOnce(candidate, profiles[..n]);
      var last := (candidate.key, profiles[n].key);
      PairsOfMember(candidate, profiles[..n], last);
      OnceTogether(PairsOf(candidate, profiles[..n]), if Covered(candidate, profiles[n]) then [last] else []);
    }
  }

  lemma OnceTogether<T>(s: seq<T>, t: seq<T>)
    requires NoRepeats(s) && NoRepeats(t) && forall i, j :: 0 <= i < |s| && 0 <= j < |t| ==> s[i] != t[j]
    ensures NoRepeats(s + t)
  {
  }
}
