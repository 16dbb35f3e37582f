/** Patch and refinalize: builders finalize a draft, copy some of its hashes into later rows and finalize again.

    `links[i]` maps each reference slot of row `i` to the row whose hash belongs there.  `Solve` is the transcript
    content in which every reference is right; the passes are proved to reach it, and nothing else is right. */
module Patching {
  import opened Wrappers
  import opened Chains

  /** A payload: its text, and the places in it that hold hashes of other messages. */
  datatype Slots = Slots(text: string, refs: map<string, Option<Digest>>)

  type Row = Content<Slots>
  type Links = seq<map<string, nat>>

  ghost predicate Backward(links: Links) {
    forall i, s :: 0 <= i < |links| && s in links[i] ==> links[i][s] < i
  }

  /** Row `c` with its linked slots holding the hashes of `t`. */
  function Fill(c: Row, link: map<string, nat>, t: seq<Msg<Slots>>): Row
    requires forall s :: s in link ==> link[s] < |t|
  {
    c.(payload := c.payload.(refs := c.payload.refs + map s | s in link :: t[link[s]].hash))
  }

  /** Row `c` without what is in its linked slots. */
  function Strip(c: Row, link: map<string, nat>): Row {
    c.(payload := c.payload.(refs := c.payload.refs - link.Keys))
  }

  ghost predicate SameElsewhere(cs: seq<Row>, ds: seq<Row>, links: Links)
    requires |links| == |cs|
  {
    && |ds| == |cs|
    && forall i :: 0 <= i < |cs| ==> Strip(cs[i], links[i]) == Strip(ds[i], links[i])
  }

  /** Every linked slot holds the hash its row has in this very transcript. */
  ghost predicate Resolved(h: Body<Slots> -> Digest, ds: seq<Row>, links: Links)
    requires |links| == |ds| && Backward(links)
  {
    forall i, s :: 0 <= i < |ds| && s in links[i] ==>
      s in ds[i].payload.refs && ds[i].payload.refs[s] == HashAt(h, ds, links[i][s])
  }

  /** The solution, row by row: each row is filled from the final rows before it. */
  ghost function Solve(h: Body<Slots> -> Digest, cs: seq<Row>, links: Links): (ds: seq<Row>)
    requires |links| == |cs| && Backward(links)
    ensures |ds| == |cs|
  {
    if cs == [] then []
    else
      var n := |cs| - 1;
      var init := Solve(h, cs[..n], links[..n]);
      init + [Fill(cs[n], links[n], Chain(h, init))]
  }

  /** One pass: finalize, then copy the hashes into the rows of `part`. */
  ghost function Pass(h: Body<Slots> -> Digest, cs: seq<Row>, links: Links, part: set<nat>): (ds: seq<Row>)
    requires |links| == |cs| && Backward(links)
    ensures |ds| == |cs|
  {
    var t := Chain(h, cs);
    seq(|cs|, i requires 0 <= i < |cs| => if i in part then Fill(cs[i], links[i], t) else cs[i])
  }

  // ---- the rows before a front

  /** The same first `k` rows. */
  ghost predicate Upto(cs: seq<Row>, ds: seq<Row>, k: nat) {
    k <= |cs| && k <= |ds| && (k == 0 || (cs[k - 1] == ds[k - 1] && Upto(cs, ds, k - 1)))
  }

  lemma {:induction false} UptoPoints(cs: seq<Row>, ds: seq<Row>, k: nat)
    requires k <= |cs| && k <= |ds|
    ensures Upto(cs, ds, k) <==> forall i :: 0 <= i < k ==> cs[i] == ds[i]
  {
    if k == 0 {
    } else {
      UptoPoints(cs, ds, k - 1);
    }
  }

  lemma {:induction false} UptoAll(cs: seq<Row>, ds: seq<Row>)
    requires |cs| == |ds|
    ensures Upto(cs, ds, |cs|) <==> cs == ds
  {
    UptoPoints(cs, ds, |cs|);
  }

  // ---- filling

  lemma FillAgain(c: Row, d: Row, link: map<string, nat>, t: seq<Msg<Slots>>, u: seq<Msg<Slots>>)
    requires forall s :: s in link ==> link[s] < |t| && link[s] < |u| && t[link[s]].hash == u[link[s]].hash
    requires Strip(c, link) == Strip(d, link)
    ensures Fill(c, link, t) == Fill(d, link, u)
    ensures Strip(Fill(c, link, t), link) == Strip(c, link)
  {
    var a, b := Fill(c, link, t).payload.refs, Fill(d, link, u).payload.refs;
    forall s ensures s in a <==> s in b {
      assert s !in link ==> (s in Strip(c, link).payload.refs <==> s in Strip(d, link).payload.refs);
    }
    forall s | s in a ensures a[s] == b[s] {
      if s !in link {
        assert Strip(c, link).payload.refs[s] == Strip(d, link).payload.refs[s];
      }
    }
    assert a == b;
    assert Strip(c, link).payload.text == Strip(d, link).payload.text;
    assert a - link.Keys == c.payload.refs - link.Keys;
  }

  /** A row that already holds these hashes is its own filling. */
  lemma FillFixed(c: Row, link: map<string, nat>, t: seq<Msg<Slots>>)
    requires forall s :: s in link ==> link[s] < |t|
    ensures Fill(c, link, t) == c
            <==> forall s :: s in link ==> s in c.payload.refs && c.payload.refs[s] == t[link[s]].hash
  {
    var filled := Fill(c, link, t).payload.refs;
    if Fill(c, link, t) == c {
      assert filled == c.payload.refs;
      forall s | s in link ensures s in c.payload.refs && c.payload.refs[s] == t[link[s]].hash {
        assert filled[s] == t[link[s]].hash;
      }
    }
    if forall s :: s in link ==> s in c.payload.refs && c.payload.refs[s] == t[link[s]].hash {
      assert filled == c.payload.refs;
    }
  }

  // ---- the solution

  lemma {:induction false} SolvePrefix(h: Body<Slots> -> Digest, cs: seq<Row>, links: Links, k: nat)
    requires |links| == |cs| && Backward(links) && k <= |cs|
    ensures Solve(h, cs, links)[..k] == Solve(h, cs[..k], links[..k])
  {
    if k == |cs| {
      assert cs[..k] == cs && links[..k] == links;
    } else {
      var n := |cs| - 1;
      SolvePrefix(h, cs[..n], links[..n], k);
      TakeTwice(cs, n, k);
      TakeTwice(links, n, k);
      SolveInit(h, cs, links);
      TakeTwice(Solve(h, cs, links), n, k);
    }
  }

  lemma {:induction false} SolveInit(h: Body<Slots> -> Digest, cs: seq<Row>, links: Links)
    requires |links| == |cs| && Backward(links) && cs != []
    ensures Solve(h, cs, links)[..|cs| - 1] == Solve(h, cs[..|cs| - 1], links[..|cs| - 1])
  {
  }

  lemma TakeTwice<T>(s: seq<T>, n: nat, k: nat)
    requires k <= n <= |s|
    ensures s[..n][..k] == s[..k]
  {
  }

  lemma {:induction false} SolveAt(h: Body<Slots> -> Digest, cs: seq<Row>, links: Links, i: nat)
    requires |links| == |cs| && Backward(links) && i < |cs|
    ensures Solve(h, cs, links)[i] == Fill(cs[i], links[i], Chain(h, Solve(h, cs, links)))
    ensures Strip(Solve(h, cs, links)[i], links[i]) == Strip(cs[i], links[i])
  {
    var ds := Solve(h, cs, links);
    SolvePrefix(h, cs, links, i + 1);
    SolvePrefix(h, cs, links, i);
    assert cs[..i + 1][..i] == cs[..i] && links[..i + 1][..i] == links[..i];
    assert ds[i] == ds[..i + 1][i] == Fill(cs[i], links[i], Chain(h, ds[..i]));
    ChainPrefix(h, ds, i);
    FillAgain(cs[i], cs[i], links[i], Chain(h, ds[..i]), Chain(h, ds));
  }

  /** The solution is the only content that differs from `cs` at most in linked slots and has every reference right. */
  lemma {:induction false} SolveUnique(h: Body<Slots> -> Digest, cs: seq<Row>, links: Links, ds: seq<Row>)
    requires |links| == |cs| && Backward(links) && |ds| == |cs|
    ensures Resolved(h, ds, links) && SameElsewhere(cs, ds, links) <==> ds == Solve(h, cs, links)
  {
    var goal := Solve(h, cs, links);
    forall i | 0 <= i < |cs|
      ensures Strip(goal[i], links[i]) == Strip(cs[i], links[i]) && goal[i] == Fill(cs[i], links[i], Chain(h, goal))
    {
      SolveAt(h, cs, links, i);
    }
    assert Resolved(h, goal, links);
    if Resolved(h, ds, links) && SameElsewhere(cs, ds, links) {
      SolveUniqueUpTo(h, cs, links, ds, |cs|);
      UptoAll(ds, goal);
    }
  }

  lemma {:induction false} SolveUniqueUpTo(h: Body<Slots> -> Digest, cs: seq<Row>, links: Links, ds: seq<Row>, k: nat)
    requires |links| == |cs| && Backward(links) && |ds| == |cs| && k <= |cs|
    requires Resolved(h, ds, links) && SameElsewhere(cs, ds, links)
    ensures Upto(ds, Solve(h, cs, links), k)
  {
    if k == 0 {
    } else {
      var i, goal := k - 1, Solve(h, cs, links);
      SolveUniqueUpTo(h, cs, links, ds, i);
      SolveAt(h, cs, links, i);
      FillFixed(ds[i], links[i], Chain(h, ds));
      SamePrefixHashes(h, ds, goal, i);
      FillAgain(ds[i], cs[i], links[i], Chain(h, ds), Chain(h, goal));
    }
  }

  lemma {:induction false} SamePrefixHashes(h: Body<Slots> -> Digest, cs: seq<Row>, ds: seq<Row>, k: nat)
    requires Upto(cs, ds, k)
    ensures forall j :: 0 <= j < k ==> Chain(h, cs)[j] == Chain(h, ds)[j]
  {
    UptoPoints(cs, ds, k);
    assert cs[..k] == ds[..k];
    ChainPrefix(h, cs, k);
    ChainPrefix(h, ds, k);
    forall j | 0 <= j < k ensures Chain(h, cs)[j] == Chain(h, ds)[j] {
      assert Chain(h, cs)[j] == Chain(h, cs)[..k][j] && Chain(h, ds)[j] == Chain(h, ds)[..k][j];
    }
  }

  // ---- what a pass achieves

  lemma PassKeepsElsewhere(h: Body<Slots> -> Digest, cs: seq<Row>, ds: seq<Row>, links: Links, part: set<nat>)
    requires |links| == |cs| && Backward(links) && SameElsewhere(cs, ds, links)
    ensures SameElsewhere(cs, Pass(h, ds, links, part), links)
  {
    forall i | 0 <= i < |cs| ensures Strip(cs[i], links[i]) == Strip(Pass(h, ds, links, part)[i], links[i]) {
      FillAgain(ds[i], ds[i], links[i], Chain(h, ds), Chain(h, ds));
    }
  }

  /** The rows before `f` are final.  A pass over `part` leaves them so, whatever part it takes, and makes final every
      next row up to `g` that refers only to rows before `f` and, if it refers at all, is patched. */
  lemma {:induction false} PassAdvances(h: Body<Slots> -> Digest, cs: seq<Row>, ds: seq<Row>, links: Links,
                                        part: set<nat>, f: nat, g: nat)
    requires |links| == |cs| && Backward(links) && SameElsewhere(cs, ds, links)
    requires f <= g <= |cs| && Upto(ds, Solve(h, cs, links), f)
    requires forall i, s :: f <= i < g && s in links[i] ==> i in part && links[i][s] < f
    ensures Upto(Pass(h, ds, links, part), Solve(h, cs, links), g)
  {
    SamePrefixHashes(h, ds, Solve(h, cs, links), f);
    UptoPoints(ds, Solve(h, cs, links), f);
    forall i | 0 <= i < g ensures Pass(h, ds, links, part)[i] == Solve(h, cs, links)[i] {
      RowAdvances(h, cs, ds, links, part, f, i);
    }
    UptoPoints(Pass(h, ds, links, part), Solve(h, cs, links), g);
  }

  lemma {:induction false} RowAdvances(h: Body<Slots> -> Digest, cs: seq<Row>, ds: seq<Row>, links: Links,
                                       part: set<nat>, f: nat, i: nat)
    requires |links| == |cs| && Backward(links) && SameElsewhere(cs, ds, links) && f <= |cs| && i < |cs|
    requires forall j :: 0 <= j < f ==> Chain(h, ds)[j] == Chain(h, Solve(h, cs, links))[j]
    requires if i < f then ds[i] == Solve(h, cs, links)[i]
             else forall s :: s in links[i] ==> i in part && links[i][s] < f
    ensures Pass(h, ds, links, part)[i] == Solve(h, cs, links)[i]
  {
    SolveAt(h, cs, links, i);
    FillAgain(ds[i], cs[i], links[i], Chain(h, ds), Chain(h, Solve(h, cs, links)));
    if i !in part && i >= f {
      assert links[i].Keys == {};
      FillFixed(ds[i], links[i], Chain(h, ds));
    }
  }

  /** A reference a pass writes is final exactly when everything up to the row it names already was. */
  lemma {:induction false} PassRight(h: Body<Slots> -> Digest, cs: seq<Row>, ds: seq<Row>, links: Links, part: set<nat>,
                                     i: nat, s: string)
    requires Injective(h) && |links| == |cs| && Backward(links) && |ds| == |cs|
    requires i < |cs| && i in part && s in links[i]
    ensures var j := links[i][s];
      Pass(h, ds, links, part)[i].payload.refs[s] == HashAt(h, Solve(h, cs, links), j)
      <==> ds[..j + 1] == Solve(h, cs, links)[..j + 1]
  {
    HashNamesHistory(h, ds, links[i][s], Solve(h, cs, links), links[i][s]);
  }

  /** Rows up to `f` without references are final from the start. */
  lemma {:induction false} UnlinkedFinal(h: Body<Slots> -> Digest, cs: seq<Row>, links: Links, f: nat)
    requires |links| == |cs| && Backward(links) && f <= |cs|
    requires forall i :: 0 <= i < f ==> links[i] == map[]
    ensures Upto(cs, Solve(h, cs, links), f)
  {
    forall i | 0 <= i < f ensures cs[i] == Solve(h, cs, links)[i] {
      SolveAt(h, cs, links, i);
      FillFixed(cs[i], links[i], Chain(h, Solve(h, cs, links)));
    }
    UptoPoints(cs, Solve(h, cs, links), f);
  }

  function AllRows(n: nat): (rows: set<nat>)
    ensures forall i: nat :: i in rows <==> i < n
  {
    if n == 0 then {} else AllRows(n - 1) + {n - 1}
  }

  ghost function Rounds(h: Body<Slots> -> Digest, cs: seq<Row>, links: Links, k: nat): (ds: seq<Row>)
    requires |links| == |cs| && Backward(links)
    ensures |ds| == |cs|
  {
    if k == 0 then cs else Pass(h, Rounds(h, cs, links, k - 1), links, AllRows(|cs|))
  }

  /** Each full round makes one more row permanently final... */
  lemma {:induction false} RoundsAdvance(h: Body<Slots> -> Digest, cs: seq<Row>, links: Links, k: nat)
    requires |links| == |cs| && Backward(links) && k < |cs|
    ensures SameElsewhere(cs, Rounds(h, cs, links, k), links)
    ensures Upto(Rounds(h, cs, links, k), Solve(h, cs, links), k + 1)
  {
    if k == 0 {
      FirstRowFinal(h, cs, links);
    } else {
      RoundsAdvance(h, cs, links, k - 1);
      var before := Rounds(h, cs, links, k - 1);
      FullRound(h, cs, before, links, k);
      assert Rounds(h, cs, links, k) == Pass(h, before, links, AllRows(|cs|));
    }
  }

  lemma {:induction false} FirstRowFinal(h: Body<Slots> -> Digest, cs: seq<Row>, links: Links)
    requires |links| == |cs| && Backward(links) && 0 < |cs|
    ensures Upto(cs, Solve(h, cs, links), 1)
  {
    SolveAt(h, cs, links, 0);
    assert links[0].Keys == {};
    FillFixed(cs[0], links[0], Chain(h, Solve(h, cs, links)));
  }

  lemma FullRound(h: Body<Slots> -> Digest, cs: seq<Row>, ds: seq<Row>, links: Links, k: nat)
    requires |links| == |cs| && Backward(links) && SameElsewhere(cs, ds, links)
    requires k < |cs| && Upto(ds, Solve(h, cs, links), k)
    ensures var next := Pass(h, ds, links, AllRows(|cs|));
      SameElsewhere(cs, next, links) && Upto(next, Solve(h, cs, links), k + 1)
  {
    PassKeepsElsewhere(h, cs, ds, links, AllRows(|cs|));
    forall i, s | k <= i < k + 1 && s in links[i] ensures i in AllRows(|cs|) && links[i][s] < k {
      assert i == k;
    }
    PassAdvances(h, cs, ds, links, AllRows(|cs|), k, k + 1);
  }

  /** ... so, from whatever is in the slots at first, `|cs| - 1` rounds reach the solution, and more change nothing. */
  lemma {:induction false} RoundsConverge(h: Body<Slots> -> Digest, cs: seq<Row>, links: Links, k: nat)
    requires |links| == |cs| && Backward(links) && k + 1 >= |cs|
    ensures Rounds(h, cs, links, k) == Solve(h, cs, links)
  {
    if cs == [] {
    } else if k + 1 == |cs| {
      RoundsAdvance(h, cs, links, k);
      UptoAll(Rounds(h, cs, links, k), Solve(h, cs, links));
    } else {
      RoundsConverge(h, cs, links, k - 1);
      FixedPoint(h, cs, links, Solve(h, cs, links));
    }
  }

  /** A full round changes nothing exactly when every reference is right. */
  lemma {:induction false} FixedPoint(h: Body<Slots> -> Digest, cs: seq<Row>, links: Links, ds: seq<Row>)
    requires |links| == |cs| && Backward(links) && |ds| == |cs|
    ensures Pass(h, ds, links, AllRows(|ds|)) == ds <==> Resolved(h, ds, links)
    ensures ds == Solve(h, cs, links) ==> Pass(h, ds, links, AllRows(|ds|)) == ds
  {
    var next := Pass(h, ds, links, AllRows(|ds|));
    forall i | 0 <= i < |ds|
      ensures next[i] == ds[i] <==> forall s :: s in links[i] ==>
                                     s in ds[i].payload.refs && ds[i].payload.refs[s] == HashAt(h, ds, links[i][s])
    {
      FillFixed(ds[i], links[i], Chain(h, ds));
    }
    if next == ds {
      forall i, s | 0 <= i < |ds| && s in links[i]
        ensures s in ds[i].payload.refs && ds[i].payload.refs[s] == HashAt(h, ds, links[i][s])
      {
        assert next[i] == ds[i];
      }
    }
    SolveUnique(h, cs, links, ds);
  }

  /** Passes that each patch only some rows. */
  ghost function Passes(h: Body<Slots> -> Digest, cs: seq<Row>, links: Links, parts: seq<set<nat>>): (ds: seq<Row>)
    requires |links| == |cs| && Backward(links)
    ensures |ds| == |cs|
  {
    if parts == [] then cs
    else Pass(h, Passes(h, cs, links, parts[..|parts| - 1]), links, parts[|parts| - 1])
  }

  lemma {:induction false} PassesLast(h: Body<Slots> -> Digest, cs: seq<Row>, links: Links, parts: seq<set<nat>>,
                                      last: set<nat>)
    requires |links| == |cs| && Backward(links)
    ensures parts == [] ==> Passes(h, cs, links, parts) == cs
    ensures Passes(h, cs, links, parts + [last]) == Pass(h, Passes(h, cs, links, parts), links, last)
  {
    assert (parts + [last])[..|parts|] == parts;
  }

  /** The first `fronts[k]` rows are final before pass `k`: when every pass takes in the rows whose sources are final by
      then, the last one leaves the solution. */
  lemma {:induction false} ScheduleSolves(h: Body<Slots> -> Digest, cs: seq<Row>, links: Links, parts: seq<set<nat>>,
                                          fronts: seq<nat>)
    requires |links| == |cs| && Backward(links) && |fronts| == |parts| + 1
    requires forall k :: 0 <= k < |parts| ==> fronts[k] <= fronts[k + 1]
    requires forall k :: 0 <= k < |fronts| ==> fronts[k] <= |cs|
    requires forall i :: 0 <= i < fronts[0] ==> links[i] == map[]
    requires forall k, i, s :: 0 <= k < |parts| && fronts[k] <= i < fronts[k + 1] && s in links[i] ==>
               i in parts[k] && links[i][s] < fronts[k]
    ensures SameElsewhere(cs, Passes(h, cs, links, parts), links)
    ensures Upto(Passes(h, cs, links, parts), Solve(h, cs, links), fronts[|parts|])
  {
    if parts == [] {
      UnlinkedFinal(h, cs, links, fronts[0]);
    } else {
      var n := |parts| - 1;
      var ds := Passes(h, cs, links, parts[..n]);
      assert forall k :: 0 <= k <= n ==> fronts[..n + 1][k] == fronts[k];
      assert forall k :: 0 <= k < n ==> parts[..n][k] == parts[k];
      ScheduleSolves(h, cs, links, parts[..n], fronts[..n + 1]);
      PassKeepsElsewhere(h, cs, ds, links, parts[n]);
      PassAdvances(h, cs, ds, links, parts[n], fronts[n], fronts[n + 1]);
    }
  }
}
