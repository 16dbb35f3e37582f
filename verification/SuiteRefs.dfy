/** `_profile_suite_ref_errors`: a submission's suite references against the suites its claimed profiles require. */
module SuiteRefs {
  import opened Wrappers
  import opened Sorting
  import opened Reports

  type Claim = (string, string)

  /** The catalogs on file and each suite's own id, if it has one.  A required suite that is not a string is None. */
  datatype Catalogs = Catalogs(required: map<Claim, seq<Option<string>>>, suiteId: string -> Option<string>)

  datatype Fault = NoCatalog(claim: Claim) | RefsNotAList | UnknownRef(index: nat) | DuplicateSuite | NotTheUnion

  type Aliases = map<string, string>

  /** The alias table after one more required suite: its path and its id both stand for its path. */
  function Register(c: Catalogs, aliases: Aliases, path: string): Aliases {
    if c.suiteId(path).Some? then aliases[path := path][c.suiteId(path).value := path] else aliases[path := path]
  }

  /** The required suites of the claims, in the order they are read. */
  function Required(c: Catalogs, claims: seq<Claim>): seq<string> {
    if claims == [] then []
    else
      var n := |claims| - 1;
      Required(c, claims[..n]) + (if claims[n] in c.required then Paths(c.required[claims[n]]) else [])
  }

  function Paths(suites: seq<Option<string>>): seq<string> {
    if suites == [] then []
    else Paths(suites[..|suites| - 1]) + (if suites[|suites| - 1].Some? then [suites[|suites| - 1].value] else [])
  }

  /** The place of a suite: which claim, and which of the suites it requires. */
  datatype Place = Place(claim: nat, suite: nat)

  ghost predicate IsPlace(c: Catalogs, claims: seq<Claim>, p: Place) {
    && p.claim < |claims| && claims[p.claim] in c.required
    && p.suite < |c.required[claims[p.claim]]| && c.required[claims[p.claim]][p.suite].Some?
  }

  ghost predicate PlaceBefore(p: Place, q: Place) { p.claim < q.claim || (p.claim == q.claim && p.suite < q.suite) }

  /** All places, claim by claim and suite by suite. */
  ghost predicate AllPlaces(c: Catalogs, claims: seq<Claim>, f: seq<Place>) {
    && (forall k, l :: 0 <= k < l < |f| ==> PlaceBefore(f[k], f[l]))
    && forall p :: p in f <==> IsPlace(c, claims, p)
  }

  /** The required suites are what stands at the places, in order. */
  lemma {:induction false} RequiredExact(c: Catalogs, claims: seq<Claim>) returns (f: seq<Place>)
    ensures AllPlaces(c, claims, f) && |f| == |Required(c, claims)|
    ensures forall k :: 0 <= k < |f| ==>
              IsPlace(c, claims, f[k]) && Some(Required(c, claims)[k]) == c.required[claims[f[k].claim]][f[k].suite]
  {
    if claims == [] {
      f := [];
    } else {
      var n := |claims| - 1;
      f := RequiredExact(c, claims[..n]);
      forall p ensures IsPlace(c, claims[..n], p) <==> IsPlace(c, claims, p) && p.claim < n {
      }
      if claims[n] in c.required {
        var g := PathsExact(c.required[claims[n]]);
        PlacesAppend(c, claims, f, g);
        f := f + Row(n, g);
      }
    }
  }

  function Row(claim: nat, suites: seq<nat>): (f: seq<Place>)
    ensures |f| == |suites|
  {
    seq(|suites|, k requires 0 <= k < |suites| => Place(claim, suites[k]))
  }

  ghost function Stated(suites: seq<Option<string>>): set<nat> { set j: nat | j < |suites| && suites[j].Some? }

  lemma PlacesAppend(c: Catalogs, claims: seq<Claim>, front: seq<Place>, g: seq<nat>)
    requires claims != [] && AllPlaces(c, claims[..|claims| - 1], front) && claims[|claims| - 1] in c.required
    requires Enumerates(g, Stated(c.required[claims[|claims| - 1]]))
    ensures AllPlaces(c, claims, front + Row(|claims| - 1, g))
  {
    var n := |claims| - 1;
    var last := Row(n, g);
    forall p ensures p in last <==> IsPlace(c, claims, p) && p.claim == n {
      if IsPlace(c, claims, p) && p.claim == n {
        assert p.suite in g;
        var k :| 0 <= k < |g| && g[k] == p.suite;
        assert last[k] == p;
      }
      if p in last {
        var k :| 0 <= k < |g| && last[k] == p;
        assert g[k] in g;
      }
    }
    forall p ensures p in front <==> IsPlace(c, claims, p) && p.claim < n {
      assert IsPlace(c, claims[..n], p) <==> IsPlace(c, claims, p) && p.claim < n;
    }
    forall k | 0 <= k < |front| ensures front[k].claim < n {
      assert front[k] in front;
    }
  }

  lemma {:induction false} PathsExact(suites: seq<Option<string>>) returns (g: seq<nat>)
    ensures Enumerates(g, Stated(suites)) && |g| == |Paths(suites)|
    ensures forall k :: 0 <= k < |g| ==> g[k] < |suites| && Some(Paths(suites)[k]) == suites[g[k]]
  {
    if suites == [] {
      g := [];
    } else {
      var n := |suites| - 1;
      g := PathsExact(suites[..n]);
      assert Stated(suites) == Stated(suites[..n]) + (if suites[n].Some? then {n} else {});
      if suites[n].Some? {
        EnumeratesNext(g, Stated(suites[..n]), n);
        g := g + [n];
      }
    }
  }

  function AliasTable(c: Catalogs, paths: seq<string>): Aliases {
    if paths == [] then map[] else Register(c, AliasTable(c, paths[..|paths| - 1]), paths[|paths| - 1])
  }

  function Members(s: seq<string>): set<string> { set p | p in s }

  function Expected(c: Catalogs, claims: seq<Claim>): set<string> { Members(Required(c, claims)) }

  ghost predicate Known(aliases: Aliases, ref: Option<string>) { ref.Some? && ref.value in aliases }

  /** The references that are known, read through the table. */
  function Read(aliases: Aliases, refs: seq<Option<string>>): seq<string> {
    if refs == [] then []
    else
      var n := |refs| - 1;
      Read(aliases, refs[..n]) + (if refs[n].Some? && refs[n].value in aliases then [aliases[refs[n].value]] else [])
  }

  // ---- what the references mean

  predicate Names(c: Catalogs, path: string, name: string) { path == name || c.suiteId(path) == Some(name) }

  /** The last of the suites whose path or id is spelled so. */
  function StandsFor(c: Catalogs, paths: seq<string>, name: string): Option<string> {
    if paths == [] then None
    else if Names(c, paths[|paths| - 1], name) then Some(paths[|paths| - 1])
    else StandsFor(c, paths[..|paths| - 1], name)
  }

  function Meaning(c: Catalogs, paths: seq<string>, ref: Option<string>): Option<string> {
    if ref.None? then None else StandsFor(c, paths, ref.value)
  }

  /** Each reference means a required suite, no two the same, and every required suite is meant. */
  ghost predicate Covers(c: Catalogs, claims: seq<Claim>, refs: seq<Option<string>>) {
    var paths := Required(c, claims);
    && (forall i :: 0 <= i < |refs| ==> Meaning(c, paths, refs[i]).Some?)
    && !MeantTwice(c, paths, refs) && AllMeant(c, paths, refs)
  }

  /** Two references mean the same suite. */
  ghost predicate MeantTwice(c: Catalogs, paths: seq<string>, refs: seq<Option<string>>) {
    exists i, j :: 0 <= i < j < |refs| && Meaning(c, paths, refs[i]).Some?
                   && Meaning(c, paths, refs[i]) == Meaning(c, paths, refs[j])
  }

  ghost predicate AllMeant(c: Catalogs, paths: seq<string>, refs: seq<Option<string>>) {
    forall p :: p in paths ==> IsMeant(c, paths, refs, p)
  }

  ghost predicate IsMeant(c: Catalogs, paths: seq<string>, refs: seq<Option<string>>, p: string) {
    exists i :: 0 <= i < |refs| && Meaning(c, paths, refs[i]) == Some(p)
  }

  // ---- the loops

  method SuiteRefErrors(c: Catalogs, claims: seq<Claim>, refs: Option<seq<Option<string>>>) returns (errors: seq<Fault>)
    ensures errors == []
            <==> (forall k :: k in claims ==> k in c.required) && refs.Some? && Covers(c, claims, refs.value)
    ensures forall k :: NoCatalog(k) in errors <==> k in claims && k !in c.required
    ensures RefsNotAList in errors <==> refs.None?
    ensures forall i: nat :: UnknownRef(i) in errors <==>
              refs.Some? && i < |refs.value| && Meaning(c, Required(c, claims), refs.value[i]).None?
    ensures DuplicateSuite in errors <==> refs.Some? && MeantTwice(c, Required(c, claims), refs.value)
    ensures NotTheUnion in errors <==>
            refs.Some? && (MeantTwice(c, Required(c, claims), refs.value)
                           || !AllMeant(c, Required(c, claims), refs.value))
  {
    var expected, aliases;
    errors, expected, aliases := ReadClaims(c, claims);
    if refs.None? {
      return errors + [RefsNotAList];
    }
    var unknown, normalized := ReadRefs(aliases, refs.value);
    errors := errors + unknown;
    var repeated := HasRepeat(normalized);
    if repeated {
      errors := errors + [DuplicateSuite];
    }
    CountDistinct(normalized);
    if Members(normalized) != expected || |normalized| != |expected| {
      errors := errors + [NotTheUnion];
    }
    TableMeaning(c, Required(c, claims), refs.value);
  }

  /** The first loop: what the claims require, and the alias table. */
  method ReadClaims(c: Catalogs, claims: seq<Claim>)
      returns (errors: seq<Fault>, expected: set<string>, aliases: Aliases)
    ensures errors == [] <==> forall k :: k in claims ==> k in c.required
    ensures forall f :: f in errors <==> f.NoCatalog? && f.claim in claims && f.claim !in c.required
    ensures expected == Expected(c, claims) && aliases == AliasTable(c, Required(c, claims))
  {
    errors, expected, aliases := [], {}, map[];
    for n := 0 to |claims|
      invariant errors == [] <==> forall k :: k in claims[..n] ==> k in c.required
      invariant forall f :: f in errors <==> f.NoCatalog? && f.claim in claims[..n] && f.claim !in c.required
      invariant expected == Expected(c, claims[..n])
      invariant aliases == AliasTable(c, Required(c, claims[..n]))
    {
      assert claims[..n + 1] == claims[..n] + [claims[n]] && claims[..n + 1][..n] == claims[..n];
      ghost var before := Required(c, claims[..n]);
      if claims[n] !in c.required {
        errors := errors + [NoCatalog(claims[n])];
        assert before + [] == before;
        assert claims[n] in claims[..n + 1];
      } else {
        assert Required(c, claims[..n + 1]) == before + Paths(c.required[claims[n]]);
        expected, aliases := ReadSuites(c, c.required[claims[n]], before, expected, aliases);
      }
    }
    assert claims[..|claims|] == claims;
  }

  /** The second loop: unknown references, and the known ones read through the table. */
  method ReadRefs(aliases: Aliases, refs: seq<Option<string>>) returns (unknown: seq<Fault>, normalized: seq<string>)
    ensures normalized == Read(aliases, refs)
    ensures unknown == [] <==> forall i :: 0 <= i < |refs| ==> Known(aliases, refs[i])
    ensures forall f :: f in unknown <==> f.UnknownRef? && f.index < |refs| && !Known(aliases, refs[f.index])
  {
    unknown, normalized := [], [];
    for n := 0 to |refs|
      invariant normalized == Read(aliases, refs[..n])
      invariant unknown == [] <==> forall i :: 0 <= i < n ==> Known(aliases, refs[i])
      invariant forall f :: f in unknown <==> f.UnknownRef? && f.index < n && !Known(aliases, refs[f.index])
    {
      assert refs[..n + 1][..n] == refs[..n];
      if refs[n].None? || refs[n].value !in aliases {
        unknown := unknown + [UnknownRef(n)];
        assert !Known(aliases, refs[n]);
      } else {
        normalized := normalized + [aliases[refs[n].value]];
      }
    }
    assert refs[..|refs|] == refs;
  }

  /** The inner loop: one profile's required suites. */
  method ReadSuites(c: Catalogs, suites: seq<Option<string>>, ghost before: seq<string>, expected0: set<string>,
                    aliases0: Aliases)
      returns (expected: set<string>, aliases: Aliases)
    requires expected0 == Members(before) && aliases0 == AliasTable(c, before)
    ensures expected == Members(before + Paths(suites))
    ensures aliases == AliasTable(c, before + Paths(suites))
  {
    expected, aliases := expected0, aliases0;
    assert before + Paths([]) == before;
    for n := 0 to |suites|
      invariant expected == Members(before + Paths(suites[..n]))
      invariant aliases == AliasTable(c, before + Paths(suites[..n]))
    {
      NextSuite(c, before, suites, n);
      if suites[n].Some? {
        var path := suites[n].value;
        expected := expected + {path};
        aliases := Register(c, aliases, path);
      }
    }
    assert suites[..|suites|] == suites;
  }

  lemma NextSuite(c: Catalogs, before: seq<string>, suites: seq<Option<string>>, n: nat)
    requires n < |suites|
    ensures var (all, next) := (before + Paths(suites[..n]), before + Paths(suites[..n + 1]));
      && (suites[n].None? ==> next == all)
      && (suites[n].Some? ==>
            Members(next) == Members(all) + {suites[n].value}
            && AliasTable(c, next) == Register(c, AliasTable(c, all), suites[n].value))
  {
    assert suites[..n + 1][..n] == suites[..n];
    var all := before + Paths(suites[..n]);
    if suites[n].Some? {
      assert before + Paths(suites[..n + 1]) == all + [suites[n].value];
      assert (all + [suites[n].value])[..|all|] == all;
    } else {
      assert Paths(suites[..n]) + [] == Paths(suites[..n]);
    }
  }

  /** `any(count != 1 for count in Counter(normalized).values())`. */
  method HasRepeat(s: seq<string>) returns (r: bool)
    ensures r <==> !NoRepeats(s)
  {
    var seen: set<string> := {};
    for n := 0 to |s|
      invariant NoRepeats(s[..n]) && seen == Members(s[..n])
    {
      if s[n] in seen {
        var i :| 0 <= i < n && s[..n][i] == s[n];
        assert s[i] == s[n];
        return true;
      }
      seen := seen + {s[n]};
      assert s[..n + 1] == s[..n] + [s[n]];
    }
    assert s[..|s|] == s;
    return false;
  }

  // ---- the alias table

  /** The table maps a name to the last required suite whose path or id is spelled so, and has no entry if there is
      none. */
  lemma {:induction false} AliasesExact(c: Catalogs, paths: seq<string>, name: string)
    ensures name in AliasTable(c, paths) <==> exists i :: 0 <= i < |paths| && Names(c, paths[i], name)
    ensures name in AliasTable(c, paths) ==>
      exists i :: 0 <= i < |paths| && Names(c, paths[i], name) && AliasTable(c, paths)[name] == paths[i]
                  && forall j :: i < j < |paths| ==> !Names(c, paths[j], name)
  {
    TableIsStandsFor(c, paths, name);
    LastNamed(c, paths, name);
  }

  lemma {:induction false} TableIsStandsFor(c: Catalogs, paths: seq<string>, name: string)
    ensures StandsFor(c, paths, name)
         == if name in AliasTable(c, paths) then Some(AliasTable(c, paths)[name]) else None
  {
    if paths == [] {
    } else {
      TableIsStandsFor(c, paths[..|paths| - 1], name);
    }
  }

  lemma {:induction false} LastNamed(c: Catalogs, paths: seq<string>, name: string)
    ensures match StandsFor(c, paths, name)
            case None => forall i :: 0 <= i < |paths| ==> !Names(c, paths[i], name)
            case Some(path) =>
              exists i :: 0 <= i < |paths| && Names(c, paths[i], name) && path == paths[i]
                          && forall j :: i < j < |paths| ==> !Names(c, paths[j], name)
  {
    if paths == [] {
    } else {
      var n := |paths| - 1;
      LastNamed(c, paths[..n], name);
      if Names(c, paths[n], name) {
        assert paths[n] == paths[n];
      } else if StandsFor(c, paths, name).Some? {
        var i :| 0 <= i < n && Names(c, paths[..n][i], name) && StandsFor(c, paths, name).value == paths[..n][i]
                 && forall j :: i < j < n ==> !Names(c, paths[..n][j], name);
        assert Names(c, paths[i], name);
        forall j | i < j < |paths| ensures !Names(c, paths[j], name) {
          if j < n {
            assert !Names(c, paths[..n][j], name);
          }
        }
      } else {
        forall i | 0 <= i < |paths| ensures !Names(c, paths[i], name) {
          if i < n {
            assert !Names(c, paths[..n][i], name);
          }
        }
      }
    }
  }

  /** A path stands for itself unless a later required suite has an id that spells the same. */
  lemma {:induction false} PathsStandForThemselves(c: Catalogs, paths: seq<string>, i: nat)
    requires i < |paths|
    requires forall j :: i < j < |paths| && c.suiteId(paths[j]) == Some(paths[i]) ==> paths[j] == paths[i]
    ensures paths[i] in AliasTable(c, paths) && AliasTable(c, paths)[paths[i]] == paths[i]
  {
    AliasesExact(c, paths, paths[i]);
    assert Names(c, paths[i], paths[i]);
  }

  // ---- reading references through the table

  lemma {:induction false} KnownMeans(c: Catalogs, paths: seq<string>, ref: Option<string>)
    ensures Known(AliasTable(c, paths), ref) <==> Meaning(c, paths, ref).Some?
    ensures Known(AliasTable(c, paths), ref) ==> Meaning(c, paths, ref) == Some(AliasTable(c, paths)[ref.value])
    ensures Known(AliasTable(c, paths), ref) ==> AliasTable(c, paths)[ref.value] in paths
  {
    if ref.Some? {
      TableIsStandsFor(c, paths, ref.value);
      LastNamed(c, paths, ref.value);
    }
  }

  /** The references that are known, whatever the others: what the loops see of them is what they mean. */
  lemma {:induction false} TableMeaning(c: Catalogs, paths: seq<string>, refs: seq<Option<string>>)
    ensures var aliases := AliasTable(c, paths);
            var read := Read(aliases, refs);
      && (forall i :: 0 <= i < |refs| ==> (Known(aliases, refs[i]) <==> Meaning(c, paths, refs[i]).Some?))
      && (NoRepeats(read) <==> !MeantTwice(c, paths, refs))
      && (Members(read) == Members(paths) <==> AllMeant(c, paths, refs))
  {
    var read := Read(AliasTable(c, paths), refs);
    forall i | 0 <= i < |refs| ensures Known(AliasTable(c, paths), refs[i]) <==> Meaning(c, paths, refs[i]).Some? {
      KnownMeans(c, paths, refs[i]);
    }
    ReadOnce(c, paths, refs);
    forall p ensures (p in read <==> IsMeant(c, paths, refs, p)) && (p in read ==> p in paths) {
      ReadMember(c, paths, refs, p);
    }
    assert Members(read) <= Members(paths);
    assert Members(paths) <= Members(read) <==> forall p :: p in paths ==> p in read by {
      if Members(paths) <= Members(read) {
        forall p | p in paths ensures p in read {
          assert p in Members(paths);
        }
      }
    }
  }

  lemma {:induction false} ReadMember(c: Catalogs, paths: seq<string>, refs: seq<Option<string>>, p: string)
    ensures p in Read(AliasTable(c, paths), refs) <==> IsMeant(c, paths, refs, p)
    ensures p in Read(AliasTable(c, paths), refs) ==> p in paths
  {
    if refs == [] {
    } else {
      var n := |refs| - 1;
      ReadMember(c, paths, refs[..n], p);
      KnownMeans(c, paths, refs[n]);
      LastMeant(c, paths, refs, p);
    }
  }

  lemma LastMeant(c: Catalogs, paths: seq<string>, refs: seq<Option<string>>, p: string)
    requires refs != []
    ensures var n := |refs| - 1;
      IsMeant(c, paths, refs, p) <==> IsMeant(c, paths, refs[..n], p) || Meaning(c, paths, refs[n]) == Some(p)
  {
    var n := |refs| - 1;
    if i :| 0 <= i < |refs| && Meaning(c, paths, refs[i]) == Some(p) {
      assert i < n ==> refs[..n][i] == refs[i];
    }
    if i :| 0 <= i < n && Meaning(c, paths, refs[..n][i]) == Some(p) {
      assert refs[..n][i] == refs[i];
    }
  }

  lemma {:induction false} ReadOnce(c: Catalogs, paths: seq<string>, refs: seq<Option<string>>)
    ensures NoRepeats(Read(AliasTable(c, paths), refs)) <==> !MeantTwice(c, paths, refs)
  {
    if refs == [] {
    } else {
      var n := |refs| - 1;
      ReadOnce(c, paths, refs[..n]);
      KnownMeans(c, paths, refs[n]);
      ReadLast(AliasTable(c, paths), refs);
      LastTwice(c, paths, refs);
      if Meaning(c, paths, refs[n]).Some? {
        var p := Meaning(c, paths, refs[n]).value;
        ReadMember(c, paths, refs[..n], p);
        OnceMore(Read(AliasTable(c, paths), refs[..n]), p);
      }
    }
  }

  lemma {:induction false} ReadLast(aliases: Aliases, refs: seq<Option<string>>)
    requires refs != []
    ensures var n := |refs| - 1;
      Read(aliases, refs)
      == if Known(aliases, refs[n]) then Read(aliases, refs[..n]) + [aliases[refs[n].value]]
         else Read(aliases, refs[..n])
  {
  }

  lemma OnceMore(s: seq<string>, p: string)
    ensures NoRepeats(s + [p]) <==> NoRepeats(s) && p !in s
  {
    if NoRepeats(s + [p]) {
      forall i, j | 0 <= i < j < |s| ensures s[i] != s[j] {
        assert (s + [p])[i] == s[i] && (s + [p])[j] == s[j];
      }
      forall i | 0 <= i < |s| ensures s[i] != p {
        assert (s + [p])[i] == s[i] && (s + [p])[|s|] == p;
      }
    }
  }

  lemma LastTwice(c: Catalogs, paths: seq<string>, refs: seq<Option<string>>)
    requires refs != []
    ensures var n := |refs| - 1;
      MeantTwice(c, paths, refs)
      <==> MeantTwice(c, paths, refs[..n])
           || (Meaning(c, paths, refs[n]).Some? && IsMeant(c, paths, refs[..n], Meaning(c, paths, refs[n]).value))
  {
    var n := |refs| - 1;
    if i, j :| 0 <= i < j < |refs| && Meaning(c, paths, refs[i]).Some?
               && Meaning(c, paths, refs[i]) == Meaning(c, paths, refs[j]) {
      assert refs[..n][i] == refs[i] && (j < n ==> refs[..n][j] == refs[j]);
    }
    if i, j :| 0 <= i < j < n && Meaning(c, paths, refs[..n][i]).Some?
               && Meaning(c, paths, refs[..n][i]) == Meaning(c, paths, refs[..n][j]) {
      assert refs[..n][i] == refs[i] && refs[..n][j] == refs[j];
    }
    if i :| 0 <= i < n && Meaning(c, paths, refs[n]).Some?
            && Meaning(c, paths, refs[..n][i]) == Meaning(c, paths, refs[n]) {
      assert refs[..n][i] == refs[i];
    }
  }

}
