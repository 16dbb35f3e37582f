/** The builders that patch and refinalize: for any rows, what they return is the chain of the solution. */
module PatchedBuilders {
  import opened Wrappers
  import opened Chains
  import opened ChainLoops
  import opened Patching

  function SetRef(m: Msg<Slots>, slot: string, value: Option<Digest>): Msg<Slots> {
    m.(content := m.content.(payload := m.content.payload.(refs := m.content.payload.refs[slot := value])))
  }

  /** Rows as they are written down or as a finalized transcript holds them: nothing signed, no link on the first. */
  ghost predicate Plain(t: seq<Msg<Slots>>) {
    AllUnsigned(t) && (t != [] ==> t[0].prev == None)
  }

  /** On plain rows both loops compute the chain, which is plain again and has the same contents. */
  lemma {:induction false} FinalizePlain(h: Body<Slots> -> Digest, t: seq<Msg<Slots>>)
    requires Plain(t)
    ensures RawChain(h, true, t) == RawChain(h, false, t) == Chain(h, Contents(t))
    ensures Plain(Chain(h, Contents(t))) && Contents(Chain(h, Contents(t))) == Contents(t)
    ensures forall i :: 0 <= i < |t| ==> Chain(h, Contents(t))[i].content == t[i].content
  {
    RawChainUnsigned(h, true, t);
    RawChainUnsigned(h, false, t);
    ChainIdempotent(h, Contents(t));
    forall i | 0 <= i < |t|
      ensures Chain(h, Contents(t))[i].signatures == None && Chain(h, Contents(t))[0].prev == None
      ensures Chain(h, Contents(t))[i].content == t[i].content
    {
      ChainAt(h, Contents(t), i);
      ChainAt(h, Contents(t), 0);
    }
  }

  /** Filling a row with a single reference is assigning that slot. */
  lemma FillOne(m: Msg<Slots>, slot: string, j: nat, t: seq<Msg<Slots>>)
    requires j < |t|
    ensures Fill(m.content, map[slot := j], t) == SetRef(m, slot, t[j].hash).content
  {
    var link := map[slot := j];
    assert m.content.payload.refs + (map s | s in link :: t[link[s]].hash) == m.content.payload.refs[slot := t[j].hash];
  }

  lemma FillTwo(m: Msg<Slots>, slot: string, other: string, j: nat, t: seq<Msg<Slots>>)
    requires j < |t|
    ensures Fill(m.content, map[slot := j, other := j], t)
            == SetRef(SetRef(m, slot, t[j].hash), other, t[j].hash).content
  {
    var link := map[slot := j, other := j];
    assert m.content.payload.refs + (map s | s in link :: t[link[s]].hash)
        == m.content.payload.refs[slot := t[j].hash][other := t[j].hash];
  }

  /** Set the linked slots of the rows in `part`, then finalize: the chain of a pass. */
  lemma {:induction false} Patched(h: Body<Slots> -> Digest, cs: seq<Row>, links: Links, part: set<nat>,
                                   after: seq<Msg<Slots>>)
    requires |links| == |cs| == |after| && Backward(links) && Plain(after)
    requires forall i :: 0 <= i < |cs| && i !in part ==> after[i].content == cs[i]
    requires forall i :: 0 <= i < |cs| && i in part ==> after[i].content == Fill(cs[i], links[i], Chain(h, cs))
    ensures Contents(after) == Pass(h, cs, links, part)
    ensures RawChain(h, true, after) == RawChain(h, false, after) == Chain(h, Pass(h, cs, links, part))
  {
    FinalizePlain(h, after);
  }

  /** A single patch of the rows from `f` on, which refer to rows before `f`. */
  lemma {:induction false} OnePass(h: Body<Slots> -> Digest, cs: seq<Row>, links: Links, part: set<nat>, f: nat)
    requires |links| == |cs| && Backward(links) && f <= |cs|
    requires forall i :: 0 <= i < f ==> links[i] == map[]
    requires forall i, s :: f <= i < |cs| && s in links[i] ==> i in part && links[i][s] < f
    ensures Pass(h, cs, links, part) == Solve(h, cs, links)
  {
    ScheduleSolves(h, cs, links, [part], [f, |cs|]);
    PassesLast(h, cs, links, [], part);
    assert [] + [part] == [part];
    UptoAll(Passes(h, cs, links, [part]), Solve(h, cs, links));
  }

  /** Two patches: the rows from `f` to `g` refer to rows before `f`, the rest to rows before `g`. */
  lemma {:induction false} TwoPasses(h: Body<Slots> -> Digest, cs: seq<Row>, links: Links, first: set<nat>,
                                     second: set<nat>, f: nat, g: nat)
    requires |links| == |cs| && Backward(links) && f <= g <= |cs|
    requires forall i :: 0 <= i < f ==> links[i] == map[]
    requires forall i, s :: f <= i < g && s in links[i] ==> i in first && links[i][s] < f
    requires forall i, s :: g <= i < |cs| && s in links[i] ==> i in second && links[i][s] < g
    ensures Pass(h, Pass(h, cs, links, first), links, second) == Solve(h, cs, links)
  {
    ScheduleSolves(h, cs, links, [first, second], [f, g, |cs|]);
    PassesLast(h, cs, links, [], first);
    PassesLast(h, cs, links, [first], second);
    assert [] + [first] == [first] && [first] + [second] == [first, second];
    UptoAll(Passes(h, cs, links, [first, second]), Solve(h, cs, links));
  }

  // ---- tw05: references at depth two, two patches

  const TW05: Links := [map[], map["head_hash" := 0], map["head_hash" := 0], map["head_hash" := 1]]

  lemma {:induction false} Tw05Schedule(h: Body<Slots> -> Digest, cs: seq<Row>)
    requires |cs| == 4
    ensures Backward(TW05) && Pass(h, Pass(h, cs, TW05, {1, 2}), TW05, {3}) == Solve(h, cs, TW05)
    ensures TW05[1] == TW05[2] == map["head_hash" := 0] && TW05[3] == map["head_hash" := 1]
  {
    TwoPasses(h, cs, TW05, {1, 2}, {3}, 1, 3);
  }

  method Tw05(h: Body<Slots> -> Digest, template: seq<Msg<Slots>>) returns (final: seq<Msg<Slots>>)
    requires |template| == 4 && Plain(template)
    ensures Backward(TW05) && final == Chain(h, Solve(h, Contents(template), TW05))
  {
    ghost var cs := Contents(template);
    Tw05Schedule(h, cs);
    var rows := template;
    FinalizePlain(h, rows);
    var draft := Finalize(h, rows);
    var contractHash := draft[0].hash;
    FillOne(rows[1], "head_hash", 0, draft);
    FillOne(rows[2], "head_hash", 0, draft);
    rows := rows[1 := SetRef(rows[1], "head_hash", contractHash)];
    rows := rows[2 := SetRef(rows[2], "head_hash", contractHash)];
    Patched(h, cs, TW05, {1, 2}, rows);
    var midway := Finalize(h, rows);
    var headExchangeHash := midway[1].hash;
    FillOne(rows[3], "head_hash", 1, midway);
    ghost var once := Contents(rows);
    rows := rows[3 := SetRef(rows[3], "head_hash", headExchangeHash)];
    Patched(h, once, TW05, {3}, rows);
    final := Finalize(h, rows);
  }

  // ---- tw01: a head captured before the rows that need it exist, then one patch on finalized rows

  const TW01: Links := [map[], map[], map[], map["head_hash" := 2], map["submit_message_hash" := 3]]

  lemma {:induction false} Tw01Schedule(h: Body<Slots> -> Digest, cs: seq<Row>)
    requires |cs| == 5
    ensures Backward(TW01) && Pass(h, Pass(h, cs, TW01, {3}), TW01, {4}) == Solve(h, cs, TW01)
    ensures TW01[3] == map["head_hash" := 2] && TW01[4] == map["submit_message_hash" := 3]
  {
    TwoPasses(h, cs, TW01, {3}, {4}, 3, 4);
  }

  method Tw01(h: Body<Slots> -> Digest, base: seq<Msg<Slots>>, submit: Msg<Slots>, receipt: Msg<Slots>)
      returns (result: seq<Msg<Slots>>)
    requires |base| == 3 && Plain(base + [submit, receipt])
    ensures Backward(TW01) && result == Chain(h, Solve(h, Contents(base + [submit, receipt]), TW01))
  {
    ghost var cs := Contents(base + [submit, receipt]);
    CaptureEarly(h, base, [submit, receipt]);
    var head := Finalize(h, base);
    var rows := base + [SetRef(submit, "head_hash", head[2].hash), receipt];
    Tw01Captured(h, base, submit, receipt, rows);
    var final := Finalize(h, rows);
    FillOne(final[4], "submit_message_hash", 3, final);
    final := final[4 := SetRef(final[4], "submit_message_hash", final[3].hash)];
    Tw01Schedule(h, cs);
    Patched(h, Contents(rows), TW01, {4}, final);
    result := Finalize(h, final);
  }

  /** The head was captured from the first rows alone. */
  lemma {:induction false} Tw01Captured(h: Body<Slots> -> Digest, base: seq<Msg<Slots>>, submit: Msg<Slots>,
                                        receipt: Msg<Slots>, rows: seq<Msg<Slots>>)
    requires |base| == 3 && Plain(base + [submit, receipt])
    requires rows == base + [SetRef(submit, "head_hash", Chain(h, Contents(base + [submit, receipt]))[2].hash), receipt]
    ensures Backward(TW01) && Contents(rows) == Pass(h, Contents(base + [submit, receipt]), TW01, {3})
    ensures RawChain(h, true, rows) == Chain(h, Contents(rows)) && Plain(Chain(h, Contents(rows)))
    ensures forall i :: 0 <= i < 5 ==> Chain(h, Contents(rows))[i].content == rows[i].content
  {
    var template := base + [submit, receipt];
    assert template[3] == submit && template[4] == receipt && forall i :: 0 <= i < 3 ==> template[i] == base[i];
    FillOne(submit, "head_hash", 2, Chain(h, Contents(template)));
    assert TW01[3] == map["head_hash" := 2];
    Patched(h, Contents(template), TW01, {3}, rows);
    FinalizePlain(h, rows);
  }

  /** Finalizing only the first rows already gives them their final hashes. */
  lemma {:induction false} CaptureEarly(h: Body<Slots> -> Digest, base: seq<Msg<Slots>>, more: seq<Msg<Slots>>)
    requires Plain(base + more) && base != []
    ensures Plain(base) && RawChain(h, true, base) == RawChain(h, false, base) == Chain(h, Contents(base))
    ensures forall i :: 0 <= i < |base| ==> Chain(h, Contents(base))[i] == Chain(h, Contents(base + more))[i]
  {
    forall i | 0 <= i < |base| ensures base[i].signatures == None && (i == 0 ==> base[i].prev == None) {
      assert (base + more)[i] == base[i];
    }
    FinalizePlain(h, base);
    assert Contents(base + more)[..|base|] == Contents(base);
    ChainPrefix(h, Contents(base + more), |base|);
    forall i | 0 <= i < |base| ensures Chain(h, Contents(base))[i] == Chain(h, Contents(base + more))[i] {
      assert Chain(h, Contents(base + more))[..|base|][i] == Chain(h, Contents(base + more))[i];
    }
  }

  // ---- _finalize_reception: one verdict and one delivery refer to the content message

  const VERDICT_SLOT := "target_message_hash"
  const DELIVERY_SLOT := "original_message_hash"
  const NESTED_SLOT := "original_message/message_hash"

  const RECEPTION: Links := [map[], map[], map[], map[], map[], map[], map[], map[], map[],
                             map[VERDICT_SLOT := 8], map[DELIVERY_SLOT := 8, NESTED_SLOT := 8]]

  lemma {:induction false} ReceptionSchedule(h: Body<Slots> -> Digest, cs: seq<Row>)
    requires |cs| == 11
    ensures Backward(RECEPTION) && Pass(h, cs, RECEPTION, {9, 10}) == Solve(h, cs, RECEPTION)
    ensures RECEPTION[9] == map[VERDICT_SLOT := 8] && RECEPTION[10] == map[DELIVERY_SLOT := 8, NESTED_SLOT := 8]
  {
    OnePass(h, cs, RECEPTION, {9, 10}, 9);
  }

  method FinalizeReception(h: Body<Slots> -> Digest, rows: seq<Msg<Slots>>) returns (result: seq<Msg<Slots>>)
    requires |rows| == 11 && Plain(rows)
    ensures Backward(RECEPTION) && result == Chain(h, Solve(h, Contents(rows), RECEPTION))
  {
    ReceptionSchedule(h, Contents(rows));
    FinalizePlain(h, rows);
    var interim := Finalize(h, rows);
    var targetHash := interim[8].hash;
    FillOne(interim[9], VERDICT_SLOT, 8, interim);
    FillTwo(interim[10], DELIVERY_SLOT, NESTED_SLOT, 8, interim);
    interim := interim[9 := SetRef(interim[9], VERDICT_SLOT, targetHash)];
    interim := interim[10 := SetRef(interim[10], DELIVERY_SLOT, targetHash)];
    interim := interim[10 := SetRef(interim[10], NESTED_SLOT, targetHash)];
    Patched(h, Contents(rows), RECEPTION, {9, 10}, interim);
    result := Finalize(h, interim);
  }

  // ---- the M30 sequences, in place

  const REQUEST_SLOT := "target_request_hash"

  const M30A: Links := [map[], map[], map[], map[REQUEST_SLOT := 2], map[REQUEST_SLOT := 2]]

  /** The last rehash: the request's hash stands in both rows. */
  lemma {:induction false} M30BaselineSolved(h: Body<Slots> -> Digest, cs: seq<Row>, t: seq<Msg<Slots>>,
                                             d: seq<Msg<Slots>>)
    requires |cs| == |t| == 5 && Plain(t) && t == Chain(h, cs) && Contents(t) == cs
    requires d == t[3 := SetRef(t[3], REQUEST_SLOT, t[2].hash)][4 := SetRef(t[4], REQUEST_SLOT, t[2].hash)]
    ensures Backward(M30A) && RawChain(h, false, d) == Chain(h, Solve(h, cs, M30A))
  {
    FillOne(t[3], REQUEST_SLOT, 2, t);
    FillOne(t[4], REQUEST_SLOT, 2, t);
    assert M30A[3] == M30A[4] == map[REQUEST_SLOT := 2];
    Patched(h, cs, M30A, {3, 4}, d);
    OnePass(h, cs, M30A, {3, 4}, 3);
  }

  method Assign(row: Message<Slots>, slot: string, value: Option<Digest>)
    modifies row
    ensures row.View() == SetRef(old(row.View()), slot, value)
  {
    row.content := row.content.(payload := row.content.payload.(refs := row.content.payload.refs[slot := value]));
  }

  method M30Baseline(h: Body<Slots> -> Digest, a: seq<Message<Slots>>)
    requires |a| == 5 && Distinct(a) && Plain(Views(a))
    modifies a
    ensures Backward(M30A) && Views(a) == Chain(h, Solve(h, Contents(old(Views(a))), M30A))
  {
    ghost var cs := Contents(Views(a));
    FinalizePlain(h, Views(a));
    AddHashes(h, a);
    ghost var t := Views(a);
    var reqHash := a[2].hash;
    assert t[2] == a[2].View() && t[3] == a[3].View() && t[4] == a[4].View();
    Assign(a[3], REQUEST_SLOT, reqHash);
    Assign(a[4], REQUEST_SLOT, reqHash);
    assert Views(a) == t[3 := SetRef(t[3], REQUEST_SLOT, t[2].hash)][4 := SetRef(t[4], REQUEST_SLOT, t[2].hash)];
    M30BaselineSolved(h, cs, t, Views(a));
    AddHashes(h, a);
  }

  const M30D: Links := [map[], map[], map[], map[], map[REQUEST_SLOT := 3], map[REQUEST_SLOT := 3]]

  /** The last rehash: the captured hash stands in both rows. */
  lemma {:induction false} M30UpgradeSolved(h: Body<Slots> -> Digest, rows: seq<Msg<Slots>>, d: seq<Msg<Slots>>)
    requires |rows| == 6 && Plain(d)
    requires var hash := Chain(h, Contents(rows))[3].hash;
      Contents(d) == Contents(rows)[..4] + [SetRef(rows[4], REQUEST_SLOT, hash).content]
        + [SetRef(rows[5], REQUEST_SLOT, hash).content]
    ensures Backward(M30D) && RawChain(h, false, d) == Chain(h, Solve(h, Contents(rows), M30D))
  {
    var cs := Contents(rows);
    FillOne(rows[4], REQUEST_SLOT, 3, Chain(h, cs));
    FillOne(rows[5], REQUEST_SLOT, 3, Chain(h, cs));
    assert M30D[4] == M30D[5] == map[REQUEST_SLOT := 3];
    forall i | 0 <= i < 6
      ensures d[i].content == if i in {4, 5} then Fill(cs[i], M30D[i], Chain(h, cs)) else cs[i]
    {
      assert Contents(d)[i] == d[i].content;
    }
    Patched(h, cs, M30D, {4, 5}, d);
    OnePass(h, cs, M30D, {4, 5}, 4);
  }

  /** `rows.append(...)`, then `add_hashes`. */
  method AppendHashed(h: Body<Slots> -> Digest, rows: seq<Message<Slots>>, m: Msg<Slots>)
      returns (longer: seq<Message<Slots>>)
    requires Distinct(rows) && Plain(Views(rows) + [m])
    modifies rows
    ensures Distinct(longer) && |longer| == |rows| + 1 && longer[..|rows|] == rows && fresh(longer[|rows|])
    ensures Plain(Views(longer)) && Contents(Views(longer)) == Contents(old(Views(rows))) + [m.content]
  {
    var row := new Message(m);
    longer := rows + [row];
    assert Views(longer) == Views(rows) + [m];
    FinalizePlain(h, Views(longer));
    AddHashes(h, longer);
  }

  method AppendBoth(h: Body<Slots> -> Digest, rows: seq<Message<Slots>>, m: Msg<Slots>, n: Msg<Slots>)
      returns (longer: seq<Message<Slots>>)
    requires rows != [] && Distinct(rows) && Plain(Views(rows)) && m.signatures == n.signatures == None
    modifies rows
    ensures Distinct(longer) && Plain(Views(longer))
    ensures |longer| == |rows| + 2 && longer[..|rows|] == rows && fresh(longer[|rows|]) && fresh(longer[|rows| + 1])
    ensures Contents(Views(longer)) == Contents(old(Views(rows))) + [m.content] + [n.content]
  {
    longer := AppendHashed(h, rows, m);
    longer := AppendHashed(h, longer, n);
  }

  /** The request's hash is captured once and written into two rows appended later, with a rehash after each append. */
  method M30Upgrade(h: Body<Slots> -> Digest, base: seq<Message<Slots>>, verdict: Msg<Slots>, outcome: Msg<Slots>)
      returns (d: seq<Message<Slots>>)
    requires |base| == 4 && Distinct(base) && Plain(Views(base) + [verdict, outcome])
    modifies base
    ensures Backward(M30D) && Views(d) == Chain(h, Solve(h, Contents(old(Views(base)) + [verdict, outcome]), M30D))
  {
    ghost var rows := Views(base) + [verdict, outcome];
    assert Contents(Views(base)) == Contents(rows)[..4] && rows[4] == verdict && rows[5] == outcome;
    CaptureEarly(h, Views(base), [verdict, outcome]);
    FinalizePlain(h, Views(base));
    AddHashes(h, base);
    var reqHash := base[3].hash;
    assert Views(base)[3] == base[3].View();
    d := AppendBoth(h, base, SetRef(verdict, REQUEST_SLOT, reqHash), SetRef(outcome, REQUEST_SLOT, reqHash));
    M30UpgradeSolved(h, rows, Views(d));
    AddHashes(h, d);
  }
}
