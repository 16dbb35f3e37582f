/** The profile-composition registry: strict-subset redundancy, canonical order, and independence of input order. */
module Composition {
  import opened Wrappers
  import opened Sorting
  import opened Reports

  type Key = (string, string)

  // ---- canonical_profile_ref_key and _canonical_composition

  /** A JSON scalar; `Other` is anything else, by its text. */
  datatype Scalar = Text(text: string) | Number(text: string) | Other(text: string)

  datatype ProfileRef = Ref(fields: map<string, Scalar>) | NotAnObject(text: string)

  function FieldText(fields: map<string, Scalar>, name: string): string {
    if name in fields then fields[name].text else ""
  }

  function RefKey(p: ProfileRef): Key {
    if p.NotAnObject? then ("", "") else (FieldText(p.fields, "profile_id"), FieldText(p.fields, "profile_version"))
  }

  predicate RefLe(a: ProfileRef, b: ProfileRef) { PairLe(RefKey(a), RefKey(b)) }

  function CanonicalComposition(profiles: seq<ProfileRef>): seq<ProfileRef> { Sort(RefLe, profiles) }

  lemma RefOrder()
    ensures TotalPreorder(RefLe)
  {
    PairOrder();
    forall a, b ensures RefLe(a, b) || RefLe(b, a) {
      assert PairLe(RefKey(a), RefKey(b)) || PairLe(RefKey(b), RefKey(a));
    }
    forall a, b, c | RefLe(a, b) && RefLe(b, c) ensures RefLe(a, c) {
      assert PairLe(RefKey(a), RefKey(b)) && PairLe(RefKey(b), RefKey(c));
    }
  }

  /** References with equal keys are the same reference. */
  ghost predicate KeysIdentify(profiles: seq<ProfileRef>) {
    forall a, b :: a in profiles && b in profiles && RefKey(a) == RefKey(b) ==> a == b
  }

  /** The composition (and so its hash) is the same for every order of the references exactly when no two different
      references have the same key. */
  lemma CompositionCanonical(profiles: seq<ProfileRef>)
    ensures KeysIdentify(profiles)
       <==> forall other :: multiset(other) == multiset(profiles) ==>
             CanonicalComposition(other) == CanonicalComposition(profiles)
  {
    RefOrder();
    PairOrder();
    SortCanonicalOnlyIf(RefLe, profiles);
    forall a, b ensures RefLe(a, b) && RefLe(b, a) <==> RefKey(a) == RefKey(b) {
      assert PairLe(RefKey(a), RefKey(b)) || PairLe(RefKey(b), RefKey(a));
    }
    if KeysIdentify(profiles) {
      forall other | multiset(other) == multiset(profiles)
        ensures CanonicalComposition(other) == CanonicalComposition(profiles) {
        SortCanonical(RefLe, profiles, other);
      }
    } else if forall other :: multiset(other) == multiset(profiles) ==>
               CanonicalComposition(other) == CanonicalComposition(profiles) {
      forall t | multiset(t) == multiset(profiles) ensures Sort(RefLe, t) == Sort(RefLe, profiles) {
        assert CanonicalComposition(t) == CanonicalComposition(profiles);
      }
    }
  }

  /** A reference as the builders write it. */
  function PlainRef(id: string, version: string): ProfileRef {
    Ref(map["profile_id" := Text(id), "profile_version" := Text(version)])
  }

  lemma PlainRefsIdentify(profiles: seq<ProfileRef>)
    requires forall p :: p in profiles ==> exists id, version :: p == PlainRef(id, version)
    ensures KeysIdentify(profiles)
  {
    forall a, b | a in profiles && b in profiles && RefKey(a) == RefKey(b) ensures a == b {
      var i, v :| a == PlainRef(i, v);
      var j, w :| b == PlainRef(j, w);
      PlainRefKey(i, v);
      PlainRefKey(j, w);
    }
  }

  lemma PlainRefKey(id: string, version: string)
    ensures RefKey(PlainRef(id, version)) == (id, version)
  {
    assert "profile_id" != "profile_version" by {
      assert |"profile_id"| != |"profile_version"|;
    }
  }

  /** Two references that differ can have one key: a number and its text. */
  lemma AmbiguousRefs()
    ensures !KeysIdentify([Ref(map["profile_id" := Number("1")]), Ref(map["profile_id" := Text("1")])])
  {
    var a, b := Ref(map["profile_id" := Number("1")]), Ref(map["profile_id" := Text("1")]);
    assert a.fields["profile_id"] != b.fields["profile_id"];
    assert a in [a, b] && b in [a, b];
    assert "profile_version" !in a.fields && "profile_version" !in b.fields by {
      assert |"profile_id"| != |"profile_version"|;
    }
    assert RefKey(a) == RefKey(b);
  }

  // ---- build_registry: inputs and output

  datatype RegistryEntry = RegistryEntry(key: Key, id: Option<string>, extensions: seq<string>, crypto: seq<string>,
                                         policies: seq<string>)

  datatype Catalog = Catalog(path: string, key: Key, suites: seq<string>, mark: Option<string>)

  /** The suite files: their metadata, None where suite_id or suite_version is missing. */
  type SuiteFiles = map<string, Option<(string, string)>>

  datatype Record = Record(
    key: Key, catalogPath: string, coreSuite: string, coreMeta: (string, string), suites: seq<string>,
    extensions: seq<string>, crypto: seq<string>, policies: seq<string>, mark: string, negotiable: bool)

  datatype Document = Document(supportedCore: (string, string), relations: seq<(Key, Key)>, profiles: seq<Record>)

  const SUPPORTED_CORE_SUITE := "conformance/core/CT_CORE_0.1.json"
  const CORE_PREFIX := "conformance/core/CT_CORE_"
  const EXCLUSIVE_MEMBERS: seq<Key> :=
    [("AICP-POLICY-ABAC-RBAC", "0.1"), ("AICP-POLICY-LLM-SAFETY", "0.1"), ("AICP-POLICY-OPA-REGO", "0.1")]

  predicate IsCore(path: string) { CORE_PREFIX <= path }

  function CorePaths(suites: seq<string>): seq<string> {
    if suites == [] then []
    else CorePaths(suites[..|suites| - 1]) + (if IsCore(suites[|suites| - 1]) then [suites[|suites| - 1]] else [])
  }

  /** The checks on one profile's catalog. */
  ghost predicate CatalogFine(c: Catalog, files: SuiteFiles) {
    && c.suites != [] && NoRepeats(c.suites) && (forall p :: p in c.suites ==> p in files)
    && |CorePaths(c.suites)| == 1 && CorePaths(c.suites)[0] in files && files[CorePaths(c.suites)[0]].Some?
    && c.mark.Some? && c.mark.value != ""
  }

  /** The core paths are the suites that are core suites, in their order. */
  lemma {:induction false} CorePathsExact(suites: seq<string>)
    ensures forall p :: p in CorePaths(suites) <==> p in suites && IsCore(p)
    ensures |CorePaths(suites)| <= |suites| && (NoRepeats(suites) ==> NoRepeats(CorePaths(suites)))
  {
    if suites == [] {
    } else {
      var n := |suites| - 1;
      CorePathsExact(suites[..n]);
      assert suites == suites[..n] + [suites[n]];
      if NoRepeats(suites) {
        assert NoRepeats(suites[..n]);
        assert suites[n] !in suites[..n];
      }
    }
  }

  /** Exactly one of the suites starts like a core suite. */
  ghost predicate OneCore(suites: seq<string>, core: string) {
    core in suites && "conformance/core/CT_CORE_" <= core
    && forall p :: p in suites && "conformance/core/CT_CORE_" <= p ==> p == core
  }

  lemma CatalogFineExact(c: Catalog, files: SuiteFiles)
    ensures CatalogFine(c, files) <==>
      && NoRepeats(c.suites) && (forall p :: p in c.suites ==> p in files)
      && (exists core :: OneCore(c.suites, core) && core in files && files[core].Some?)
      && c.mark.Some? && c.mark.value != ""
    ensures CatalogFine(c, files) ==> OneCore(c.suites, CorePaths(c.suites)[0])
  {
    var cores := CorePaths(c.suites);
    CorePathsExact(c.suites);
    if core :| OneCore(c.suites, core) && NoRepeats(c.suites) {
      OnlyOne(cores, core);
    }
    if |cores| == 1 {
      assert cores[0] in cores;
      assert OneCore(c.suites, cores[0]);
    }
  }

  lemma OnlyOne(s: seq<string>, x: string)
    requires NoRepeats(s) && x in s && forall y :: y in s ==> y == x
    ensures |s| == 1 && s[0] == x
  {
    assert |s| <= 1 || s[0] != s[1];
    forall i | 0 <= i < |s| ensures s[i] == x {
      assert s[i] in s;
    }
  }

  function MakeRecord(e: RegistryEntry, c: Catalog, files: SuiteFiles): Record
    requires CatalogFine(c, files)
  {
    var core := CorePaths(c.suites)[0];
    Record(e.key, c.path, core, files[core].value, Sort(StringLe, c.suites), Sort(StringLe, e.extensions),
           Sort(StringLe, e.crypto), Sort(StringLe, e.policies), c.mark.value, core == SUPPORTED_CORE_SUITE)
  }

  // ---- the redundancy relation

  function SuiteSet(r: Record): set<string> { set s | s in r.suites }

  /** `covering` requires all of `candidate`'s suites and more. */
  predicate Covered(candidate: Record, covering: Record) { SuiteSet(candidate) < SuiteSet(covering) }

  /** A profile's pairs, in the order of the inner loop. */
  function PairsOf(candidate: Record, profiles: seq<Record>): seq<(Key, Key)> {
    if profiles == [] then []
    else
      var n := |profiles| - 1;
      PairsOf(candidate, profiles[..n])
        + (if Covered(candidate, profiles[n]) then [(candidate.key, profiles[n].key)] else [])
  }

  function PairRows(profiles: seq<Record>): (rows: seq<seq<(Key, Key)>>)
    ensures |rows| == |profiles|
  {
    seq(|profiles|, i requires 0 <= i < |profiles| => PairsOf(profiles[i], profiles))
  }

  function AllPairs(profiles: seq<Record>): seq<(Key, Key)> { Flatten(PairRows(profiles)) }

  predicate RelationLe(a: (Key, Key), b: (Key, Key)) {
    if a.0 == b.0 then PairLe(a.1, b.1) else PairLe(a.0, b.0)
  }

  function Relations(profiles: seq<Record>): seq<(Key, Key)> { Sort(RelationLe, AllPairs(profiles)) }

  lemma {:induction false} PairsOfMember(candidate: Record, profiles: seq<Record>, p: (Key, Key))
    ensures p in PairsOf(candidate, profiles) <==>
            exists j :: 0 <= j < |profiles| && p == (candidate.key, profiles[j].key) && Covered(candidate, profiles[j])
  {
    if profiles == [] {
    } else {
      var n := |profiles| - 1;
      PairsOfMember(candidate, profiles[..n], p);
      if j :| 0 <= j < |profiles| && p == (candidate.key, profiles[j].key) && Covered(candidate, profiles[j]) {
        assert j < n ==> profiles[..n][j] == profiles[j];
      }
    }
  }

  lemma AllPairsMember(profiles: seq<Record>, p: (Key, Key))
    ensures p in AllPairs(profiles) <==>
            exists i, j :: 0 <= i < |profiles| && 0 <= j < |profiles| && p == (profiles[i].key, profiles[j].key)
                           && Covered(profiles[i], profiles[j])
  {
    FlattenMember(PairRows(profiles), |profiles|, p);
    forall i | 0 <= i < |profiles|
      ensures p in PairRows(profiles)[i]
         <==> exists j :: 0 <= j < |profiles| && p == (profiles[i].key, profiles[j].key)
                          && Covered(profiles[i], profiles[j])
    {
      PairsOfMember(profiles[i], profiles, p);
    }
  }

  lemma RelationOrder()
    ensures TotalPreorder(RelationLe)
    ensures forall a, b :: RelationLe(a, b) && RelationLe(b, a) ==> a == b
  {
    PairOrder();
    forall a: (Key, Key), b: (Key, Key) | RelationLe(a, b) && RelationLe(b, a) ensures a == b {
    }
    forall a: (Key, Key), b: (Key, Key), c: (Key, Key) | RelationLe(a, b) && RelationLe(b, c) ensures RelationLe(a, c) {
    }
  }

  /** Pairs of keys: the first key decides, the second where the first is the same. */
  ghost predicate RelationPrecedes(a: (Key, Key), b: (Key, Key)) {
    PairPrecedes(a.0, b.0) || (a.0 == b.0 && PairPrecedes(a.1, b.1))
  }

  lemma RelationLeExact(a: (Key, Key), b: (Key, Key))
    ensures RelationLe(a, b) <==> a == b || RelationPrecedes(a, b)
  {
    PairLeExact(a.0, b.0);
    PairLeExact(a.1, b.1);
    NotBeforeItself(a.0.0);
    NotBeforeItself(a.0.1);
  }

  /** Python's order of the references: by profile id, then by version. */
  lemma CompositionAscending(profiles: seq<ProfileRef>, i: nat, j: nat)
    requires i < j < |profiles|
    ensures multiset(CanonicalComposition(profiles)) == multiset(profiles)
    ensures var a, b := RefKey(CanonicalComposition(profiles)[i]), RefKey(CanonicalComposition(profiles)[j]);
      a == b || PairPrecedes(a, b)
  {
    RefOrder();
    SortSorts(RefLe, profiles);
    var c := CanonicalComposition(profiles);
    assert RefLe(c[i], c[j]);
    PairLeExact(RefKey(c[i]), RefKey(c[j]));
  }

  /** What a reference is sorted by. */
  lemma RefKeyExact(p: ProfileRef)
    ensures p.NotAnObject? ==> RefKey(p) == ("", "")
    ensures p.Ref? && "profile_id" in p.fields ==> RefKey(p).0 == p.fields["profile_id"].text
    ensures p.Ref? && "profile_version" in p.fields ==> RefKey(p).1 == p.fields["profile_version"].text
    ensures p.Ref? && "profile_id" !in p.fields ==> RefKey(p).0 == ""
    ensures p.Ref? && "profile_version" !in p.fields ==> RefKey(p).1 == ""
  {
  }

  ghost predicate DistinctKeys(profiles: seq<Record>) {
    forall i, j :: 0 <= i < j < |profiles| ==> profiles[i].key != profiles[j].key
  }

  /** The emitted relation is exactly strict inclusion of the suite sets. */
  lemma RelationExact(profiles: seq<Record>, i: nat, j: nat)
    requires DistinctKeys(profiles) && i < |profiles| && j < |profiles|
    ensures (profiles[i].key, profiles[j].key) in Relations(profiles) <==> SuiteSet(profiles[i]) < SuiteSet(profiles[j])
  {
    var p := (profiles[i].key, profiles[j].key);
    RelationItems(profiles, p);
    AllPairsMember(profiles, p);
    if p in AllPairs(profiles) {
      var x, y :| 0 <= x < |profiles| && 0 <= y < |profiles| && p == (profiles[x].key, profiles[y].key)
        && Covered(profiles[x], profiles[y]);
      SameIndex(profiles, x, i);
      SameIndex(profiles, y, j);
    }
  }

  lemma SameIndex(profiles: seq<Record>, i: nat, j: nat)
    requires DistinctKeys(profiles) && i < |profiles| && j < |profiles| && profiles[i].key == profiles[j].key
    ensures i == j
  {
  }

  lemma {:induction false} RelationItems(profiles: seq<Record>, p: (Key, Key))
    ensures p in Relations(profiles) <==> p in AllPairs(profiles)
  {
    RelationOrder();
    SortSorts(RelationLe, AllPairs(profiles));
    SameItems(AllPairs(profiles), Relations(profiles), p);
  }

  /** So it is a strict partial order. */
  lemma RelationStrictOrder(profiles: seq<Record>, i: nat, j: nat, k: nat)
    requires DistinctKeys(profiles) && i < |profiles| && j < |profiles| && k < |profiles|
    ensures (profiles[i].key, profiles[i].key) !in Relations(profiles)
    ensures (profiles[i].key, profiles[j].key) in Relations(profiles)
            && (profiles[j].key, profiles[k].key) in Relations(profiles)
        ==> (profiles[i].key, profiles[k].key) in Relations(profiles)
  {
    RelationExact(profiles, i, i);
    RelationExact(profiles, i, j);
    RelationExact(profiles, j, k);
    RelationExact(profiles, i, k);
  }

  // ---- what redundancy is for

  /** The selected profiles that no other selected one covers. */
  function Reduced(selection: set<Record>): set<Record> {
    set r | r in selection && forall q :: q in selection ==> !Covered(r, q)
  }

  ghost predicate Requires(selection: set<Record>, suite: string) {
    exists r :: r in selection && suite in SuiteSet(r)
  }

  /** Every selected profile is kept or covered by a kept one. */
  lemma KeptAbove(selection: set<Record>, r: Record, rest: set<Record>) returns (top: Record)
    requires r in selection && rest <= selection && forall q :: q in selection && Covered(r, q) ==> q in rest
    ensures top in Reduced(selection) && SuiteSet(r) <= SuiteSet(top)
    decreases rest
  {
    if q :| q in selection && Covered(r, q) {
      top := KeptAbove(selection, q, rest - {q});
    } else {
      top := r;
    }
  }

  /** Dropping the covered profiles of any selection leaves the required suites the same and nothing redundant. */
  lemma ReductionSound(selection: set<Record>)
    ensures forall suite :: Requires(Reduced(selection), suite) <==> Requires(selection, suite)
    ensures forall a, b :: a in Reduced(selection) && b in Reduced(selection) ==> !Covered(a, b)
  {
    forall suite | Requires(selection, suite) ensures Requires(Reduced(selection), suite) {
      var r :| r in selection && suite in SuiteSet(r);
      var top := KeptAbove(selection, r, selection);
      assert suite in SuiteSet(top);
    }
  }
}
