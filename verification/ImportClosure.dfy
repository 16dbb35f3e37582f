/** The import-closure worklist of generate_pairwise_tck.py. */
module ImportClosure {
  import opened Wrappers
  import opened Sorting

  /** The files inside the repository root, and what each path imports once resolved to a file. */
  datatype Repo = Repo(files: set<string>, imports: string -> set<string>)

  /** A chain of imports: starts at a seed, and goes on only from files inside the root. */
  ghost predicate IsTrail(r: Repo, seeds: set<string>, trail: seq<string>) {
    && trail != [] && trail[0] in seeds
    && forall i :: 0 <= i < |trail| - 1 ==> trail[i] in r.files && trail[i + 1] in r.imports(trail[i])
  }

  ghost predicate Reachable(r: Repo, seeds: set<string>, path: string) {
    exists trail :: IsTrail(r, seeds, trail) && trail[|trail| - 1] == path
  }

  ghost predicate Closed(r: Repo, s: set<string>) {
    forall p :: p in s ==> p in r.files && r.imports(p) <= s
  }

  function Elements(s: seq<string>): set<string> { set p | p in s }

  /** Some way to list a set, each element once. */
  ghost predicate Lists(order: set<string> -> seq<string>) {
    forall s :: Elements(order(s)) == s && NoRepeats(order(s))
  }

  /** Everything seen was reachable, and everything reachable from what has been expanded is on the stack or expanded.
      */
  ghost predicate Exploring(r: Repo, start: set<string>, pending: seq<string>, discovered: set<string>) {
    && discovered <= r.files
    && (forall p :: p in pending || p in discovered ==> Reachable(r, start, p))
    && (forall p :: p in start ==> p in discovered || p in pending)
    && (forall p, q :: p in discovered && q in r.imports(p) ==> q in discovered || q in pending)
  }

  /** Depth first with a stack that may hold a path several times; Err: a path that is not a file inside the root.
      `order` is the order in which one file's imports are pushed. */
  method DiscoverImportClosure(r: Repo, seeds: seq<string>, order: set<string> -> seq<string>)
      returns (result: Result<seq<string>, string>)
    requires Lists(order)
    ensures result.Ok? <==> forall p :: Reachable(r, Elements(seeds), p) ==> p in r.files
    ensures result.Ok? ==> forall p :: p in result.value <==> Reachable(r, Elements(seeds), p)
    ensures result.Ok? ==> Ascending(result.value)
    ensures result.Err? ==> result.error !in r.files && Reachable(r, Elements(seeds), result.error)
  {
    ghost var start := Elements(seeds);
    var pending := seeds;
    var discovered: set<string> := {};
    SeedsReachable(r, start);
    while pending != []
      invariant Exploring(r, start, pending, discovered)
      decreases |r.files - discovered|, |pending|
    {
      var current := pending[|pending| - 1];
      ghost var before, known := pending, discovered;
      pending := pending[..|pending| - 1];
      if current in discovered {
        Skipped(r, start, before, known);
        continue;
      }
      if current !in r.files {
        return Err(current);
      }
      discovered := discovered + {current};
      FewerLeft(r.files, known, current);
      var found := order(r.imports(current) - discovered);
      Expanded(r, start, before, known, current, found);
      pending := pending + found;
    }
    AllExplored(r, start, discovered);
    result := Ok(Sort(StringLe, order(discovered)));
    SortedListing(order, discovered);
  }

  lemma SeedsReachable(r: Repo, start: set<string>)
    ensures forall p :: p in start ==> Reachable(r, start, p)
  {
    forall p | p in start ensures Reachable(r, start, p) {
      assert IsTrail(r, start, [p]);
    }
  }

  lemma SortedListing(order: set<string> -> seq<string>, s: set<string>)
    requires Lists(order)
    ensures var listed := Sort(StringLe, order(s));
            Ascending(listed) && forall p :: p in listed <==> p in s
  {
    var listed := Sort(StringLe, order(s));
    StringOrder();
    SortSorts(StringLe, order(s));
    RearrangedOnce(order(s), listed);
    SortedAscending(listed);
    forall p ensures p in listed <==> p in s {
      SameItems(order(s), listed, p);
      assert p in order(s) <==> p in Elements(order(s));
    }
  }

  lemma FewerLeft(files: set<string>, known: set<string>, current: string)
    requires current in files && current !in known
    ensures |files - (known + {current})| < |files - known|
  {
    assert files - (known + {current}) == (files - known) - {current};
  }

  lemma Skipped(r: Repo, start: set<string>, before: seq<string>, known: set<string>)
    requires Exploring(r, start, before, known) && before != [] && before[|before| - 1] in known
    ensures Exploring(r, start, before[..|before| - 1], known)
  {
    PoppedOne(before);
  }

  lemma PoppedOne(s: seq<string>)
    requires s != []
    ensures forall p :: p in s <==> p in s[..|s| - 1] || p == s[|s| - 1]
  {
    assert s == s[..|s| - 1] + [s[|s| - 1]];
  }

  lemma Expanded(r: Repo, start: set<string>, before: seq<string>, known: set<string>, current: string,
                 found: seq<string>)
    requires Exploring(r, start, before, known) && before != [] && current == before[|before| - 1] && current in r.files
    requires Elements(found) == r.imports(current) - (known + {current})
    ensures Exploring(r, start, before[..|before| - 1] + found, known + {current})
  {
    PoppedOne(before);
    var pending, discovered := before[..|before| - 1] + found, known + {current};
    forall p ensures p in found <==> p in r.imports(current) && p !in discovered {
      assert p in found <==> p in Elements(found);
    }
    forall p | p in found ensures Reachable(r, start, p) {
      OneMoreImport(r, start, current, p);
    }
  }

  lemma AllExplored(r: Repo, start: set<string>, discovered: set<string>)
    requires Exploring(r, start, [], discovered)
    ensures forall p :: p in discovered <==> Reachable(r, start, p)
  {
    ClosedHoldsReachable(r, start, discovered);
  }

  lemma OneMoreImport(r: Repo, seeds: set<string>, p: string, q: string)
    requires Reachable(r, seeds, p) && p in r.files && q in r.imports(p)
    ensures Reachable(r, seeds, q)
  {
    var trail :| IsTrail(r, seeds, trail) && trail[|trail| - 1] == p;
    assert IsTrail(r, seeds, trail + [q]);
  }

  lemma ClosedHoldsReachable(r: Repo, seeds: set<string>, s: set<string>)
    requires seeds <= s && Closed(r, s)
    ensures forall p :: Reachable(r, seeds, p) ==> p in s
  {
    forall p | Reachable(r, seeds, p) ensures p in s {
      var trail :| IsTrail(r, seeds, trail) && trail[|trail| - 1] == p;
      TrailStaysIn(r, seeds, s, trail, |trail| - 1);
    }
  }

  lemma TrailStaysIn(r: Repo, seeds: set<string>, s: set<string>, trail: seq<string>, i: nat)
    requires seeds <= s && Closed(r, s) && IsTrail(r, seeds, trail) && i < |trail|
    ensures trail[i] in s
  {
    if i == 0 {
    } else {
      TrailStaysIn(r, seeds, s, trail, i - 1);
    }
  }

  // ---- consequences of the characterisation

  /** Reachability is the union over single seeds, so the closure of a list of seeds is that of its members. */
  lemma ReachableUnion(r: Repo, seeds: set<string>, p: string)
    ensures Reachable(r, seeds, p) <==> exists s :: s in seeds && Reachable(r, {s}, p)
  {
    if Reachable(r, seeds, p) {
      var trail :| IsTrail(r, seeds, trail) && trail[|trail| - 1] == p;
      assert IsTrail(r, {trail[0]}, trail);
    }
    if s :| s in seeds && Reachable(r, {s}, p) {
      var trail :| IsTrail(r, {s}, trail) && trail[|trail| - 1] == p;
      assert IsTrail(r, seeds, trail);
    }
  }

  /** A successful closure is closed, and the smallest closed set with the seeds in it; taking it as seeds adds
      nothing. */
  lemma ClosureLeast(r: Repo, seeds: set<string>, c: set<string>)
    requires forall p :: p in c <==> Reachable(r, seeds, p)
    requires c <= r.files
    ensures Closed(r, c) && seeds <= c
    ensures forall s :: seeds <= s && Closed(r, s) ==> c <= s
    ensures forall p :: Reachable(r, c, p) <==> p in c
  {
    forall p | p in seeds ensures p in c {
      assert IsTrail(r, seeds, [p]);
    }
    forall p, q | p in c && q in r.imports(p) ensures q in c {
      OneMoreImport(r, seeds, p, q);
    }
    assert Closed(r, c);
    forall s | seeds <= s && Closed(r, s) ensures c <= s {
      ClosedHoldsReachable(r, seeds, s);
    }
    ClosedHoldsReachable(r, c, c);
    forall p | p in c ensures Reachable(r, c, p) {
      assert IsTrail(r, c, [p]);
    }
  }

  /** Two sorted listings of the same paths are the same list: the result does not depend on how it was explored. */
  lemma ResultUnique(a: seq<string>, b: seq<string>)
    requires Ascending(a) && Ascending(b)
    requires forall p :: p in a <==> p in b
    ensures a == b
  {
    StringOrder();
    SortedAscending(a);
    SortedAscending(b);
    SortedOnceUnique(StringLe, a, b);
  }
}
