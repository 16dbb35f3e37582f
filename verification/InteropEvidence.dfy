/** `derive_interop_evidence`: which profiles, capabilities and bindings the submissions on file demonstrate. */
module InteropEvidence {
  import opened Wrappers
  import opened Sorting

  /** A field that should be a list; an item of another type is None. */
  datatype Field<T> = Missing | NotAList | Items(items: seq<Option<T>>)

  datatype Target = Target(kind: string, id: string, version: string)

  datatype Row =
    | NotAnObject
    | Submission(kind: string, valid: bool, status: string, pairwiseStatus: string,
                 profileMarks: Field<string>, marks: Field<string>, targets: Field<Target>, relations: Field<string>)

  datatype Profile = Profile(id: string, mark: Option<string>)

  type Pair = (string, string)

  datatype Evidence = Evidence(packages: nat, eligible: nat, rejected: nat, profiles: seq<string>,
                               capabilities: seq<Pair>, bindings: seq<Pair>, relations: nat, pairwiseDemonstrated: bool)

  // ---- the `_eligible_*` helpers

  function ItemsOf<T>(f: Field<T>): set<T> {
    if f.Items? then set i | 0 <= i < |f.items| && f.items[i].Some? :: f.items[i].value else {}
  }

  predicate ValidSubmission(r: Row) { r.Submission? && r.kind == "submission" && r.valid }

  function EligibleMarks(r: Row, expected: set<string>): set<string> {
    if ValidSubmission(r) && r.status == "eligible" then
      ItemsOf(if r.profileMarks.Missing? then r.marks else r.profileMarks) * expected
    else {}
  }

  function EligibleTargets(r: Row, kind: string, expected: set<Pair>): set<Pair> {
    if ValidSubmission(r) && r.status == "eligible" then
      set t | t in ItemsOf(r.targets) && t.kind == kind && (t.id, t.version) in expected :: (t.id, t.version)
    else {}
  }

  function EligibleRelations(r: Row): set<string> {
    if ValidSubmission(r) && r.pairwiseStatus == "eligible" then ItemsOf(r.relations) else {}
  }

  /** A mark stands for the last profile that carries it. */
  function MarkTable(profiles: seq<Profile>): map<string, string> {
    if profiles == [] then map[]
    else
      var front, last := MarkTable(profiles[..|profiles| - 1]), profiles[|profiles| - 1];
      if last.mark.Some? then front[last.mark.value := last.id] else front
  }

  datatype Registry = Registry(profiles: seq<Profile>, capabilities: set<Pair>, bindings: set<Pair>)
  {
    function Marks(): set<string> { MarkTable(profiles).Keys }

    predicate Counts(r: Row) {
      EligibleMarks(r, Marks()) != {} || EligibleTargets(r, "capability", capabilities) != {}
      || EligibleTargets(r, "binding", bindings) != {} || EligibleRelations(r) != {}
    }
  }

  // ---- what a row shows

  ghost predicate ListHolds<T>(f: Field<T>, x: T) {
    f.Items? && exists i :: 0 <= i < |f.items| && f.items[i] == Some(x)
  }

  ghost predicate AcceptedSubmission(r: Row) { r.Submission? && r.kind == "submission" && r.valid }

  /** A valid, eligible submission computed the mark; its profile marks count if it has any such field. */
  ghost predicate ShowsMark(r: Row, m: string) {
    && AcceptedSubmission(r) && r.status == "eligible"
    && ListHolds(if r.profileMarks == Missing then r.marks else r.profileMarks, m)
  }

  ghost predicate ShowsTarget(r: Row, kind: string, t: Pair) {
    AcceptedSubmission(r) && r.status == "eligible" && ListHolds(r.targets, Target(kind, t.0, t.1))
  }

  /** Relations have a verdict of their own. */
  ghost predicate ShowsRelation(r: Row, relation: string) {
    AcceptedSubmission(r) && r.pairwiseStatus == "eligible" && ListHolds(r.relations, relation)
  }

  ghost predicate ShowsSomething(g: Registry, r: Row) {
    || (exists m :: ShowsMark(r, m) && exists i :: 0 <= i < |g.profiles| && g.profiles[i].mark == Some(m))
    || (exists t :: ShowsTarget(r, "capability", t) && t in g.capabilities)
    || (exists t :: ShowsTarget(r, "binding", t) && t in g.bindings)
    || (exists x :: ShowsRelation(r, x))
  }

  lemma HelpersExact(r: Row, marks: set<string>, kind: string, pairs: set<Pair>)
    ensures forall m :: m in EligibleMarks(r, marks) <==> m in marks && ShowsMark(r, m)
    ensures forall t :: t in EligibleTargets(r, kind, pairs) <==> t in pairs && ShowsTarget(r, kind, t)
    ensures forall x :: x in EligibleRelations(r) <==> ShowsRelation(r, x)
  {
    if r.Submission? {
      ItemsExact(r.marks);
      ItemsExact(r.profileMarks);
      ItemsExact(r.targets);
      ItemsExact(r.relations);
      forall t ensures t in EligibleTargets(r, kind, pairs) <==> t in pairs && ShowsTarget(r, kind, t) {
        assert ListHolds(r.targets, Target(kind, t.0, t.1)) <==> Target(kind, t.0, t.1) in ItemsOf(r.targets);
        if t in EligibleTargets(r, kind, pairs) {
          var x :| x in ItemsOf(r.targets) && x.kind == kind && (x.id, x.version) == t;
          assert x == Target(kind, t.0, t.1);
        }
      }
    }
  }

  lemma ItemsExact<T(!new)>(f: Field<T>)
    ensures forall x :: x in ItemsOf(f) <==> ListHolds(f, x)
  {
    forall x ensures x in ItemsOf(f) <==> ListHolds(f, x) {
      if ListHolds(f, x) {
        var i :| 0 <= i < |f.items| && f.items[i] == Some(x);
        assert f.items[i].Some? && f.items[i].value == x;
      }
    }
  }

  lemma CountsExact(g: Registry, r: Row)
    ensures g.Counts(r) <==> ShowsSomething(g, r)
  {
    HelpersExact(r, g.Marks(), "capability", g.capabilities);
    HelpersExact(r, g.Marks(), "binding", g.bindings);
    forall m ensures m in g.Marks() <==> exists i :: 0 <= i < |g.profiles| && g.profiles[i].mark == Some(m) {
      var last := MarkTableLast(g.profiles, m);
    }
    if g.Counts(r) {
      if m :| m in EligibleMarks(r, g.Marks()) {
        assert ShowsMark(r, m);
      } else if t :| t in EligibleTargets(r, "capability", g.capabilities) {
        assert ShowsTarget(r, "capability", t);
      } else if t :| t in EligibleTargets(r, "binding", g.bindings) {
        assert ShowsTarget(r, "binding", t);
      } else if x :| x in EligibleRelations(r) {
        assert ShowsRelation(r, x);
      }
    }
    if ShowsSomething(g, r) {
      if m :| ShowsMark(r, m) && exists i :: 0 <= i < |g.profiles| && g.profiles[i].mark == Some(m) {
        assert m in EligibleMarks(r, g.Marks());
      } else if t :| ShowsTarget(r, "capability", t) && t in g.capabilities {
        assert t in EligibleTargets(r, "capability", g.capabilities);
      } else if t :| ShowsTarget(r, "binding", t) && t in g.bindings {
        assert t in EligibleTargets(r, "binding", g.bindings);
      } else if x :| ShowsRelation(r, x) {
        assert x in EligibleRelations(r);
      }
    }
  }

  // ---- the loop

  function CountOf(g: Registry, rows: seq<Row>): (n: nat)
    ensures n <= |rows|
  {
    if rows == [] then 0 else CountOf(g, rows[..|rows| - 1]) + if g.Counts(rows[|rows| - 1]) then 1 else 0
  }

  /** The different relations on file. */
  function RelationsOf(rows: seq<Row>): set<string> {
    if rows == [] then {} else RelationsOf(rows[..|rows| - 1]) + EligibleRelations(rows[|rows| - 1])
  }

  ghost predicate ListsExactly<T(!new)>(le: (T, T) -> bool, list: seq<T>, items: set<T>) {
    Sorted(le, list) && NoRepeats(list) && forall x :: x in list <==> x in items
  }

  /** `sorted(items)`: a set is read in no particular order. */
  method SortedList<T(!new, ==)>(le: (T, T) -> bool, items: set<T>) returns (list: seq<T>)
    requires TotalPreorder(le)
    ensures ListsExactly(le, list, items)
  {
    list := [];
    var rest := items;
    while rest != {}
      invariant rest <= items && ListsExactly(le, list, items - rest)
    {
      var x :| x in rest;
      InsertNew(le, x, list, items - rest);
      assert items - (rest - {x}) == (items - rest) + {x};
      list, rest := Insert(le, x, list), rest - {x};
    }
    assert items - {} == items;
  }

  lemma {:induction false} InsertNew<T(!new)>(le: (T, T) -> bool, x: T, list: seq<T>, items: set<T>)
    requires TotalPreorder(le) && ListsExactly(le, list, items) && x !in items
    ensures ListsExactly(le, Insert(le, x, list), items + {x})
  {
    var r := Insert(le, x, list);
    InsertSorted(le, x, list);
    assert multiset(r) == multiset(list + [x]);
    assert NoRepeats(list + [x]);
    RearrangedOnce(list + [x], r);
    forall y ensures y in r <==> y in items + {x} {
      SameItems(list + [x], r, y);
    }
  }

  /** Some row on file shows mark `m`, target `t`. */
  ghost predicate MarkShown(g: Registry, rows: seq<Row>, m: string) {
    exists k :: 0 <= k < |rows| && m in EligibleMarks(rows[k], g.Marks())
  }

  ghost predicate TargetShown(rows: seq<Row>, kind: string, expected: set<Pair>, t: Pair) {
    exists k :: 0 <= k < |rows| && t in EligibleTargets(rows[k], kind, expected)
  }

  ghost predicate ProfileShown(g: Registry, rows: seq<Row>, id: string) {
    exists m :: m in MarkTable(g.profiles) && MarkShown(g, rows, m) && MarkTable(g.profiles)[m] == id
  }

  method DeriveInteropEvidence(g: Registry, rows: seq<Row>, available: bool)
      returns (e: Evidence, flags: map<string, bool>)
    ensures e.packages == |rows| == e.eligible + e.rejected
    ensures e.eligible == |ShowingRows(g, rows)|
    ensures Ascending(e.profiles) && forall id :: id in e.profiles <==> Demonstrated(g, rows, id)
    ensures AscendingPairs(e.capabilities)
    ensures forall t :: t in e.capabilities <==> t in g.capabilities && TargetDemonstrated(rows, "capability", t)
    ensures AscendingPairs(e.bindings)
    ensures forall t :: t in e.bindings <==> t in g.bindings && TargetDemonstrated(rows, "binding", t)
    ensures exists s: set<string> :: e.relations == |s| && forall x :: x in s <==> RelationDemonstrated(rows, x)
    ensures e.pairwiseDemonstrated <==> available && exists x :: RelationDemonstrated(rows, x)
    ensures flags.Keys == set p | p in g.profiles :: p.id
    ensures forall id :: id in flags ==> (flags[id] <==> Demonstrated(g, rows, id))
  {
    var eligible, demonstrated, capabilities, bindings, relations := ReadRows(g, rows);
    StringOrder();
    PairOrder();
    var profileList := SortedList(StringLe, demonstrated);
    var capabilityList := SortedList(PairLe, capabilities);
    var bindingList := SortedList(PairLe, bindings);
    CountExact(g, rows);
    SortedAscending(profileList);
    SortedAscendingPairs(capabilityList);
    SortedAscendingPairs(bindingList);
    forall id ensures ProfileShown(g, rows, id) <==> Demonstrated(g, rows, id) { ProfileExact(g, rows, id); }
    forall t ensures t in capabilities <==> t in g.capabilities && TargetDemonstrated(rows, "capability", t) {
      TargetExact(rows, "capability", g.capabilities, t);
    }
    forall t ensures t in bindings <==> t in g.bindings && TargetDemonstrated(rows, "binding", t) {
      TargetExact(rows, "binding", g.bindings, t);
    }
    forall x ensures x in relations <==> RelationDemonstrated(rows, x) { RelationExact(rows, x); }
    e := Evidence(|rows|, eligible, |rows| - eligible, profileList, capabilityList, bindingList, |relations|,
                  available && relations != {});
    flags := map p | p in (set q | q in g.profiles :: q.id) :: p in demonstrated;
  }

  /** Some row shows a mark that the profile called `id` is the last to carry. */
  ghost predicate Demonstrated(g: Registry, rows: seq<Row>, id: string) {
    exists k: nat, m, i: nat ::
      k < |rows| && ShowsMark(rows[k], m) && LastWith(g.profiles, i, m) && g.profiles[i].id == id
  }

  ghost predicate LastWith(profiles: seq<Profile>, i: nat, m: string) {
    i < |profiles| && profiles[i].mark == Some(m) && forall j :: i < j < |profiles| ==> profiles[j].mark != Some(m)
  }

  ghost predicate TargetDemonstrated(rows: seq<Row>, kind: string, t: Pair) {
    exists k :: 0 <= k < |rows| && ShowsTarget(rows[k], kind, t)
  }

  ghost predicate RelationDemonstrated(rows: seq<Row>, relation: string) {
    exists k :: 0 <= k < |rows| && ShowsRelation(rows[k], relation)
  }

  lemma ProfileExact(g: Registry, rows: seq<Row>, id: string)
    ensures ProfileShown(g, rows, id) <==> Demonstrated(g, rows, id)
  {
    if ProfileShown(g, rows, id) {
      var m :| m in MarkTable(g.profiles) && MarkShown(g, rows, m) && MarkTable(g.profiles)[m] == id;
      var k :| 0 <= k < |rows| && m in EligibleMarks(rows[k], g.Marks());
      HelpersExact(rows[k], g.Marks(), "", {});
      var last := MarkTableLast(g.profiles, m);
      assert LastWith(g.profiles, last, m);
    }
    if Demonstrated(g, rows, id) {
      var k: nat, m, i: nat :|
        k < |rows| && ShowsMark(rows[k], m) && LastWith(g.profiles, i, m) && g.profiles[i].id == id;
      var last := MarkTableLast(g.profiles, m);
      HelpersExact(rows[k], g.Marks(), "", {});
      assert last == i && m in EligibleMarks(rows[k], g.Marks());
    }
  }

  lemma TargetExact(rows: seq<Row>, kind: string, expected: set<Pair>, t: Pair)
    ensures TargetShown(rows, kind, expected, t) <==> t in expected && TargetDemonstrated(rows, kind, t)
  {
    forall k | 0 <= k < |rows|
      ensures t in EligibleTargets(rows[k], kind, expected) <==> t in expected && ShowsTarget(rows[k], kind, t)
    {
      HelpersExact(rows[k], {}, kind, expected);
    }
  }

  lemma {:induction false} RelationExact(rows: seq<Row>, x: string)
    ensures x in RelationsOf(rows) <==> RelationDemonstrated(rows, x)
  {
    if rows == [] {
    } else {
      var n := |rows| - 1;
      RelationExact(rows[..n], x);
      HelpersExact(rows[n], {}, "", {});
      if k :| 0 <= k < |rows| && ShowsRelation(rows[k], x) {
        assert k < n ==> ShowsRelation(rows[..n][k], x);
      }
    }
  }

  lemma {:induction false} CountExact(g: Registry, rows: seq<Row>)
    ensures CountOf(g, rows) == |ShowingRows(g, rows)|
  {
    if rows == [] {
    } else {
      var n := |rows| - 1;
      CountExact(g, rows[..n]);
      CountsExact(g, rows[n]);
      LastRowShows(g, rows);
    }
  }

  /** Positions of the rows that show something. */
  ghost function ShowingRows(g: Registry, rows: seq<Row>): (s: set<int>)
    ensures forall k :: k in s ==> 0 <= k < |rows|
  {
    set k | 0 <= k < |rows| && ShowsSomething(g, rows[k])
  }

  lemma LastRowShows(g: Registry, rows: seq<Row>)
    requires rows != []
    ensures ShowingRows(g, rows)
         == ShowingRows(g, rows[..|rows| - 1])
            + if ShowsSomething(g, rows[|rows| - 1]) then {|rows| - 1} else {}
  {
    var front := rows[..|rows| - 1];
    forall k | 0 <= k < |front| ensures ShowsSomething(g, front[k]) <==> ShowsSomething(g, rows[k]) {
    }
  }

  /** What the loop has gathered from `rows`. */
  ghost predicate Gathered(g: Registry, rows: seq<Row>, eligible: nat, demonstrated: set<string>,
                           capabilities: set<Pair>, bindings: set<Pair>, relations: set<string>) {
    && eligible == CountOf(g, rows) && relations == RelationsOf(rows)
    && (forall id :: id in demonstrated <==> ProfileShown(g, rows, id))
    && (forall t :: t in capabilities <==> TargetShown(rows, "capability", g.capabilities, t))
    && (forall t :: t in bindings <==> TargetShown(rows, "binding", g.bindings, t))
  }

  method ReadRows(g: Registry, rows: seq<Row>)
      returns (eligible: nat, demonstrated: set<string>, capabilities: set<Pair>, bindings: set<Pair>,
               relations: set<string>)
    ensures Gathered(g, rows, eligible, demonstrated, capabilities, bindings, relations)
  {
    var table := MarkTable(g.profiles);
    eligible, demonstrated, capabilities, bindings, relations := 0, {}, {}, {}, {};
    for n := 0 to |rows|
      invariant Gathered(g, rows[..n], eligible, demonstrated, capabilities, bindings, relations)
    {
      var row := rows[n];
      assert rows[..n + 1] == rows[..n] + [row];
      var marks := EligibleMarks(row, g.Marks());
      var rowCapabilities := EligibleTargets(row, "capability", g.capabilities);
      var rowBindings := EligibleTargets(row, "binding", g.bindings);
      var rowRelations := EligibleRelations(row);
      OneMore(g, rows[..n], row, eligible, demonstrated, capabilities, bindings, relations);
      if marks == {} && rowCapabilities == {} && rowBindings == {} && rowRelations == {} {
        continue;
      }
      eligible := eligible + 1;
      demonstrated := demonstrated + set m | m in marks :: table[m];
      capabilities, bindings, relations :=
        capabilities + rowCapabilities, bindings + rowBindings, relations + rowRelations;
    }
    assert rows[..|rows|] == rows;
  }

  lemma OneMore(g: Registry, rows: seq<Row>, row: Row, eligible: nat, demonstrated: set<string>,
                capabilities: set<Pair>, bindings: set<Pair>, relations: set<string>)
    requires Gathered(g, rows, eligible, demonstrated, capabilities, bindings, relations)
    ensures Gathered(g, rows + [row], eligible + if g.Counts(row) then 1 else 0,
                     demonstrated + (set m | m in EligibleMarks(row, g.Marks()) :: MarkTable(g.profiles)[m]),
                     capabilities + EligibleTargets(row, "capability", g.capabilities),
                     bindings + EligibleTargets(row, "binding", g.bindings), relations + EligibleRelations(row))
  {
    assert (rows + [row])[..|rows|] == rows;
    OneMoreRow(g, rows, row);
  }

  lemma OneMoreRow(g: Registry, rows: seq<Row>, row: Row)
    ensures forall id :: ProfileShown(g, rows + [row], id) <==>
              ProfileShown(g, rows, id)
                || exists m :: m in EligibleMarks(row, g.Marks()) && MarkTable(g.profiles)[m] == id
    ensures forall t :: TargetShown(rows + [row], "capability", g.capabilities, t)
              <==> TargetShown(rows, "capability", g.capabilities, t)
                   || t in EligibleTargets(row, "capability", g.capabilities)
    ensures forall t :: TargetShown(rows + [row], "binding", g.bindings, t)
              <==> TargetShown(rows, "binding", g.bindings, t) || t in EligibleTargets(row, "binding", g.bindings)
  {
    var longer := rows + [row];
    assert longer[|rows|] == row && forall k :: 0 <= k < |rows| ==> longer[k] == rows[k];
    forall m ensures MarkShown(g, longer, m) <==> MarkShown(g, rows, m) || m in EligibleMarks(row, g.Marks()) {
      assert m in EligibleMarks(longer[|rows|], g.Marks()) <==> m in EligibleMarks(row, g.Marks());
    }
    forall kind, expected, t
      ensures TargetShown(longer, kind, expected, t)
              <==> TargetShown(rows, kind, expected, t) || t in EligibleTargets(row, kind, expected)
    {
      assert t in EligibleTargets(longer[|rows|], kind, expected) <==> t in EligibleTargets(row, kind, expected);
    }
  }

  // ---- what it means for a profile

  lemma MarkTableLast(profiles: seq<Profile>, m: string) returns (last: int)
    ensures m in MarkTable(profiles) <==> last >= 0
    ensures -1 <= last < |profiles|
    ensures last >= 0 ==> profiles[last].mark == Some(m) && MarkTable(profiles)[m] == profiles[last].id
    ensures forall j :: last < j < |profiles| ==> profiles[j].mark != Some(m)
  {
    if profiles == [] {
      last := -1;
    } else if profiles[|profiles| - 1].mark == Some(m) {
      last := |profiles| - 1;
    } else {
      last := MarkTableLast(profiles[..|profiles| - 1], m);
    }
  }

  ghost predicate IdsOnce(profiles: seq<Profile>) {
    forall i, j :: 0 <= i < j < |profiles| ==> profiles[i].id != profiles[j].id
  }

  /** A profile counts as demonstrated exactly when a valid, eligible submission computed its mark and no later profile
      carries the same mark. */
  lemma ProfileShownExactly(g: Registry, rows: seq<Row>, i: nat)
    requires IdsOnce(g.profiles) && i < |g.profiles|
    ensures Demonstrated(g, rows, g.profiles[i].id) <==>
      && g.profiles[i].mark.Some?
      && (exists k :: 0 <= k < |rows| && ShowsMark(rows[k], g.profiles[i].mark.value))
      && (forall j :: i < j < |g.profiles| ==> g.profiles[j].mark != g.profiles[i].mark)
  {
    var id := g.profiles[i].id;
    if Demonstrated(g, rows, id) {
      var k: nat, m, j: nat :|
        k < |rows| && ShowsMark(rows[k], m) && LastWith(g.profiles, j, m) && g.profiles[j].id == id;
      assert j == i;
    }
    if g.profiles[i].mark.Some? && forall j :: i < j < |g.profiles| ==> g.profiles[j].mark != g.profiles[i].mark {
      assert LastWith(g.profiles, i, g.profiles[i].mark.value);
    }
  }
}
