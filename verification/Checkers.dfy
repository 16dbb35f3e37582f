/** The two loops that check a finished transcript, what they accept, and which corruption they report where. */
module Checkers {
  import opened Wrappers
  import opened Chains
  import opened ChainLoops
  import opened Reports

  datatype Failure =
    | SessionChanged(index: nat) | DuplicateId(index: nat) | LinkMismatch(index: nat) | HashMismatch(index: nat)

  // ---- what each loop reports about one message

  ghost predicate BadHash<P>(h: Body<P> -> Digest, t: seq<Msg<P>>, i: nat)
    requires i < |t|
  {
    t[i].hash != Some(h(t[i].Unsigned()))
  }

  ghost predicate BadLink<P>(t: seq<Msg<P>>, i: nat)
    requires i < |t|
  {
    i > 0 && t[i].prev != t[i - 1].hash
  }

  ghost predicate SeenId<P>(t: seq<Msg<P>>, i: nat)
    requires i < |t|
  {
    exists j :: 0 <= j < i && t[j].content.id == t[i].content.id
  }

  ghost function IdsBefore<P>(t: seq<Msg<P>>, n: nat): set<Option<string>>
    requires n <= |t|
  {
    if n == 0 then {} else IdsBefore(t, n - 1) + {t[n - 1].content.id}
  }

  lemma {:induction false} IdsBeforeMember<P>(t: seq<Msg<P>>, n: nat, id: Option<string>)
    requires n <= |t|
    ensures id in IdsBefore(t, n) <==> exists j :: 0 <= j < n && t[j].content.id == id
  {
    if n == 0 {
    } else {
      IdsBeforeMember(t, n - 1, id);
    }
  }

  /** sandbox/run.py compares a link only when the message before carried a hash. */
  ghost function SandboxAt<P>(h: Body<P> -> Digest, t: seq<Msg<P>>, i: nat): seq<Failure>
    requires i < |t|
  {
    IdentityAt(t, i) + GuardedChainAt(h, t, i)
  }

  ghost function GuardedChainAt<P>(h: Body<P> -> Digest, t: seq<Msg<P>>, i: nat): seq<Failure>
    requires i < |t|
  {
    When(BadLink(t, i) && t[i - 1].hash.Some?, LinkMismatch(i)) + When(BadHash(h, t, i), HashMismatch(i))
  }

  ghost function IdentityAt<P>(t: seq<Msg<P>>, i: nat): seq<Failure>
    requires i < |t|
  {
    When(t[i].content.session != t[0].content.session, SessionChanged(i)) + When(SeenId(t, i), DuplicateId(i))
  }

  /** scripts/validate_core_v02_transcript.py compares every link but the first. */
  ghost function CoreAt<P>(h: Body<P> -> Digest, t: seq<Msg<P>>, i: nat): seq<Failure>
    requires i < |t|
  {
    When(BadLink(t, i), LinkMismatch(i)) + When(BadHash(h, t, i), HashMismatch(i))
  }

  ghost function SandboxRows<P>(h: Body<P> -> Digest, t: seq<Msg<P>>): (r: seq<seq<Failure>>)
    ensures |r| == |t|
  {
    seq(|t|, i requires 0 <= i < |t| => SandboxAt(h, t, i))
  }

  ghost function CoreRows<P>(h: Body<P> -> Digest, t: seq<Msg<P>>): (r: seq<seq<Failure>>)
    ensures |r| == |t|
  {
    seq(|t|, i requires 0 <= i < |t| => CoreAt(h, t, i))
  }

  ghost function SandboxFailures<P>(h: Body<P> -> Digest, t: seq<Msg<P>>): seq<Failure> { Flatten(SandboxRows(h, t)) }

  ghost function CoreFailures<P>(h: Body<P> -> Digest, t: seq<Msg<P>>): seq<Failure> { Flatten(CoreRows(h, t)) }

  // ---- the loops

  method SandboxCheck<P>(h: Body<P> -> Digest, rows: seq<Msg<P>>) returns (failures: seq<Failure>)
    ensures failures == SandboxFailures(h, rows)
  {
    failures := [];
    if |rows| > 0 {
      var session := rows[0].content.session;
      var seenIds: set<Option<string>> := {};
      var prevHash: Option<Digest> := None;
      for n := 0 to |rows|
        invariant seenIds == IdsBefore(rows, n)
        invariant prevHash == if n == 0 then None else rows[n - 1].hash
        invariant failures == SandboxUpTo(h, rows, n)
      {
        var msg := rows[n];
        ghost var s0 := failures;
        if msg.content.session != session {
          failures := failures + [SessionChanged(n)];
        }
        ghost var s1 := failures;
        var mid := msg.content.id;
        if mid in seenIds {
          failures := failures + [DuplicateId(n)];
        }
        ghost var s2 := failures;
        seenIds := seenIds + {mid};
        if prevHash.Some? && msg.prev != prevHash {
          failures := failures + [LinkMismatch(n)];
        }
        ghost var s3 := failures;
        if Some(h(msg.Unsigned())) != msg.hash {
          failures := failures + [HashMismatch(n)];
        }
        SandboxStep(h, rows, n, s0, s1, s2, s3, failures);
        prevHash := msg.hash;
      }
    }
  }

  method CoreCheck<P>(h: Body<P> -> Digest, messages: seq<Msg<P>>) returns (errors: seq<Failure>)
    ensures errors == CoreFailures(h, messages)
  {
    errors := [];
    var previous: Option<Digest> := None;
    for index := 0 to |messages|
      invariant previous == if index == 0 then None else messages[index - 1].hash
      invariant errors == FlattenUpTo(CoreRows(h, messages), index)
    {
      var message := messages[index];
      ghost var before := errors;
      if index > 0 && message.prev != previous {
        errors := errors + [LinkMismatch(index)];
      }
      var computed := h(message.Unsigned());
      if message.hash != Some(computed) {
        errors := errors + [HashMismatch(index)];
      }
      TwoAppends(before, index > 0 && message.prev != previous, LinkMismatch(index), message.hash != Some(computed),
                 HashMismatch(index));
      CoreNext(h, messages, index);
      previous := message.hash;
    }
  }

  lemma {:induction false} IdentityRead<P>(t: seq<Msg<P>>, n: nat)
    requires n < |t|
    ensures IdentityAt(t, n)
         == When(t[n].content.session != t[0].content.session, SessionChanged(n))
            + When(t[n].content.id in IdsBefore(t, n), DuplicateId(n))
  {
    IdsBeforeMember(t, n, t[n].content.id);
  }

  lemma SandboxStep<P>(h: Body<P> -> Digest, t: seq<Msg<P>>, n: nat, s0: seq<Failure>, s1: seq<Failure>,
                       s2: seq<Failure>, s3: seq<Failure>, s4: seq<Failure>)
    requires n < |t| && s0 == SandboxUpTo(h, t, n)
    requires s1 == Appended(s0, t[n].content.session != t[0].content.session, SessionChanged(n))
    requires s2 == Appended(s1, t[n].content.id in IdsBefore(t, n), DuplicateId(n))
    requires s3 == Appended(s2, n > 0 && t[n - 1].hash.Some? && t[n].prev != t[n - 1].hash, LinkMismatch(n))
    requires s4 == Appended(s3, Some(h(t[n].Unsigned())) != t[n].hash, HashMismatch(n))
    ensures s4 == SandboxUpTo(h, t, n + 1)
  {
    IdentityRead(t, n);
    FourAppends(s0, t[n].content.session != t[0].content.session, SessionChanged(n),
                t[n].content.id in IdsBefore(t, n), DuplicateId(n),
                n > 0 && t[n - 1].hash.Some? && t[n].prev != t[n - 1].hash, LinkMismatch(n),
                Some(h(t[n].Unsigned())) != t[n].hash, HashMismatch(n));
  }

  /** The report on the first `n` messages. */
  ghost function SandboxUpTo<P>(h: Body<P> -> Digest, t: seq<Msg<P>>, n: nat): seq<Failure>
    requires n <= |t|
  {
    FlattenUpTo(SandboxRows(h, t), n)
  }

  lemma CoreNext<P>(h: Body<P> -> Digest, t: seq<Msg<P>>, n: nat)
    requires n < |t|
    ensures FlattenUpTo(CoreRows(h, t), n + 1)
         == FlattenUpTo(CoreRows(h, t), n)
           + (When(BadLink(t, n), LinkMismatch(n)) + When(BadHash(h, t, n), HashMismatch(n)))
  {
  }

  // ---- the reports, failure by failure

  /** Of one message: its session, its id, its link, its hash. */
  function Rank(f: Failure): nat {
    match f
    case SessionChanged(_) => 0
    case DuplicateId(_) => 1
    case LinkMismatch(_) => 2
    case HashMismatch(_) => 3
  }

  ghost predicate Earlier(f: Failure, g: Failure) { f.index < g.index || (f.index == g.index && Rank(f) < Rank(g)) }

  /** Message by message and, of one message, in that order; nothing twice. */
  ghost predicate InTurn(s: seq<Failure>) { forall a, b :: 0 <= a < b < |s| ==> Earlier(s[a], s[b]) }

  /** What the sandbox loop finds wrong. */
  ghost predicate SandboxFault<P>(h: Body<P> -> Digest, t: seq<Msg<P>>, f: Failure) {
    && f.index < |t|
    && match f
       case SessionChanged(i) => t[i].content.session != t[0].content.session
       case DuplicateId(i) => exists j :: 0 <= j < i && t[j].content.id == t[i].content.id
       case LinkMismatch(i) => i > 0 && t[i - 1].hash.Some? && t[i].prev != t[i - 1].hash
       case HashMismatch(i) => t[i].hash != Some(h(Body(t[i].content, t[i].prev, None)))
  }

  ghost predicate CoreFault<P>(h: Body<P> -> Digest, t: seq<Msg<P>>, f: Failure) {
    && f.index < |t|
    && match f
       case LinkMismatch(i) => i > 0 && t[i].prev != t[i - 1].hash
       case HashMismatch(i) => t[i].hash != Some(h(Body(t[i].content, t[i].prev, None)))
       case _ => false
  }

  /** Exactly the faults are reported, in turn: that determines the report. */
  lemma SandboxExact<P>(h: Body<P> -> Digest, t: seq<Msg<P>>)
    ensures InTurn(SandboxFailures(h, t))
    ensures forall f :: f in SandboxFailures(h, t) <==> SandboxFault(h, t, f)
  {
    forall i | 0 <= i < |t| ensures RowInTurn(SandboxRows(h, t)[i], i) {
      SandboxRowExact(h, t, i);
    }
    RowsInTurn(SandboxRows(h, t), |t|);
    forall f ensures f in SandboxFailures(h, t) <==> SandboxFault(h, t, f) {
      SandboxMember(h, t, f);
    }
  }

  lemma SandboxMember<P>(h: Body<P> -> Digest, t: seq<Msg<P>>, f: Failure)
    ensures f in SandboxFailures(h, t) <==> SandboxFault(h, t, f)
  {
    FlattenMember(SandboxRows(h, t), |t|, f);
    if f in SandboxFailures(h, t) {
      var i :| 0 <= i < |t| && f in SandboxRows(h, t)[i];
      SandboxRowExact(h, t, i);
    }
    if SandboxFault(h, t, f) {
      SandboxRowExact(h, t, f.index);
    }
  }

  lemma CoreExact<P>(h: Body<P> -> Digest, t: seq<Msg<P>>)
    ensures InTurn(CoreFailures(h, t))
    ensures forall f :: f in CoreFailures(h, t) <==> CoreFault(h, t, f)
  {
    forall i | 0 <= i < |t| ensures RowInTurn(CoreRows(h, t)[i], i) {
      CoreRowExact(h, t, i);
    }
    RowsInTurn(CoreRows(h, t), |t|);
    forall f ensures f in CoreFailures(h, t) <==> CoreFault(h, t, f) {
      CoreMember(h, t, f);
    }
  }

  lemma CoreMember<P>(h: Body<P> -> Digest, t: seq<Msg<P>>, f: Failure)
    ensures f in CoreFailures(h, t) <==> CoreFault(h, t, f)
  {
    FlattenMember(CoreRows(h, t), |t|, f);
    if f in CoreFailures(h, t) {
      var i :| 0 <= i < |t| && f in CoreRows(h, t)[i];
      CoreRowExact(h, t, i);
    }
    if CoreFault(h, t, f) {
      CoreRowExact(h, t, f.index);
    }
  }

  ghost predicate RowInTurn(row: seq<Failure>, i: nat) {
    InTurn(row) && forall a :: 0 <= a < |row| ==> row[a].index == i
  }

  lemma SandboxRowExact<P>(h: Body<P> -> Digest, t: seq<Msg<P>>, i: nat)
    requires i < |t|
    ensures RowInTurn(SandboxRows(h, t)[i], i)
    ensures forall f :: f in SandboxRows(h, t)[i] <==> f.index == i && SandboxFault(h, t, f)
  {
    FourInTurn(i, t[i].content.session != t[0].content.session, SeenId(t, i),
               BadLink(t, i) && t[i - 1].hash.Some?, BadHash(h, t, i));
    forall f ensures f in SandboxRows(h, t)[i] <==> f.index == i && SandboxFault(h, t, f) {
      SandboxFaultCases(h, t, i, f);
    }
  }

  lemma SandboxFaultCases<P>(h: Body<P> -> Digest, t: seq<Msg<P>>, i: nat, f: Failure)
    requires i < |t|
    ensures f.index == i && SandboxFault(h, t, f) <==>
            (t[i].content.session != t[0].content.session && f == SessionChanged(i))
            || (SeenId(t, i) && f == DuplicateId(i))
            || (BadLink(t, i) && t[i - 1].hash.Some? && f == LinkMismatch(i))
            || (BadHash(h, t, i) && f == HashMismatch(i))
  {
  }

  lemma CoreRowExact<P>(h: Body<P> -> Digest, t: seq<Msg<P>>, i: nat)
    requires i < |t|
    ensures RowInTurn(CoreRows(h, t)[i], i)
    ensures forall f :: f in CoreRows(h, t)[i] <==> f.index == i && CoreFault(h, t, f)
  {
  }

  lemma FourInTurn(i: nat, moved: bool, seen: bool, link: bool, hash: bool)
    ensures var row := (When(moved, SessionChanged(i)) + When(seen, DuplicateId(i)))
                       + (When(link, LinkMismatch(i)) + When(hash, HashMismatch(i)));
      && RowInTurn(row, i)
      && forall f :: f in row <==>
           (moved && f == SessionChanged(i)) || (seen && f == DuplicateId(i))
           || (link && f == LinkMismatch(i)) || (hash && f == HashMismatch(i))
  {
  }

  lemma {:induction false} RowsInTurn(rows: seq<seq<Failure>>, n: nat)
    requires n <= |rows| && forall i :: 0 <= i < n ==> RowInTurn(rows[i], i)
    ensures InTurn(FlattenUpTo(rows, n))
    ensures forall a :: 0 <= a < |FlattenUpTo(rows, n)| ==> FlattenUpTo(rows, n)[a].index < n
  {
    if n == 0 {
    } else {
      RowsInTurn(rows, n - 1);
      assert RowInTurn(rows[n - 1], n - 1);
    }
  }

  // ---- what acceptance means

  /** Every stored hash is the message's own and every link but the first is the hash before it. */
  ghost predicate Linked<P>(h: Body<P> -> Digest, t: seq<Msg<P>>) {
    && (forall i :: 0 <= i < |t| ==> t[i].hash == Some(h(t[i].Unsigned())))
    && (forall i :: 0 < i < |t| ==> t[i].prev == t[i - 1].hash)
  }

  ghost predicate OneSession<P>(t: seq<Msg<P>>) {
    forall i :: 0 <= i < |t| ==> t[i].content.session == t[0].content.session
  }

  ghost predicate UniqueIds<P>(t: seq<Msg<P>>) {
    forall i, j :: 0 <= i < j < |t| ==> t[i].content.id != t[j].content.id
  }

  lemma CoreAccepts<P>(h: Body<P> -> Digest, t: seq<Msg<P>>)
    ensures CoreFailures(h, t) == [] <==> Linked(h, t)
  {
    FlattenEmpty(CoreRows(h, t));
    if CoreFailures(h, t) == [] {
      forall i | 0 <= i < |t| ensures t[i].hash == Some(h(t[i].Unsigned())) && (i > 0 ==> t[i].prev == t[i - 1].hash) {
        CoreQuiet(h, t, i);
      }
    } else if Linked(h, t) {
      forall i | 0 <= i < |t| ensures CoreRows(h, t)[i] == [] {
        CoreQuiet(h, t, i);
      }
    }
  }

  lemma CoreQuiet<P>(h: Body<P> -> Digest, t: seq<Msg<P>>, i: nat)
    requires i < |t|
    ensures CoreRows(h, t)[i] == [] <==> !BadHash(h, t, i) && !BadLink(t, i)
  {
  }

  lemma SandboxQuiet<P>(h: Body<P> -> Digest, t: seq<Msg<P>>, i: nat)
    requires i < |t|
    ensures SandboxRows(h, t)[i] == [] <==>
      !BadHash(h, t, i) && !(BadLink(t, i) && t[i - 1].hash.Some?) && !SeenId(t, i)
        && t[i].content.session == t[0].content.session
  {
  }

  lemma SandboxAccepts<P>(h: Body<P> -> Digest, t: seq<Msg<P>>)
    ensures SandboxFailures(h, t) == [] <==> Linked(h, t) && OneSession(t) && UniqueIds(t)
  {
    FlattenEmpty(SandboxRows(h, t));
    if SandboxFailures(h, t) == [] {
      forall i | 0 <= i < |t|
        ensures t[i].hash == Some(h(t[i].Unsigned())) && t[i].content.session == t[0].content.session
      {
        SandboxQuiet(h, t, i);
      }
      forall i | 0 < i < |t| ensures t[i].prev == t[i - 1].hash {
        SandboxQuiet(h, t, i);
      }
      forall i, j | 0 <= i < j < |t| ensures t[i].content.id != t[j].content.id {
        SandboxQuiet(h, t, j);
      }
    } else if Linked(h, t) && OneSession(t) && UniqueIds(t) {
      forall i | 0 <= i < |t| ensures SandboxRows(h, t)[i] == [] {
        SandboxQuiet(h, t, i);
      }
    }
  }

  /** The two checkers report the same hash failures; they differ in links exactly where the message before has
      lost its hash and this one still carries a link, which only the core checker then reports... */
  lemma CheckersDiffer<P>(h: Body<P> -> Digest, t: seq<Msg<P>>, i: nat)
    requires i < |t|
    ensures HashMismatch(i) in SandboxFailures(h, t) <==> HashMismatch(i) in CoreFailures(h, t)
    ensures LinkMismatch(i) in SandboxFailures(h, t) ==> LinkMismatch(i) in CoreFailures(h, t)
    ensures LinkMismatch(i) in CoreFailures(h, t) && LinkMismatch(i) !in SandboxFailures(h, t)
       <==> i > 0 && t[i - 1].hash.None? && t[i].prev.Some?
  {
    FailureAt(h, t, i, HashMismatch(i));
    FailureAt(h, t, i, LinkMismatch(i));
  }

  lemma FailureAt<P>(h: Body<P> -> Digest, t: seq<Msg<P>>, i: nat, f: Failure)
    requires i < |t| && f.index == i
    ensures f in SandboxFailures(h, t) <==> f in SandboxAt(h, t, i)
    ensures f in CoreFailures(h, t) <==> f in CoreAt(h, t, i)
  {
    var s, c := SandboxRows(h, t), CoreRows(h, t);
    FlattenMember(s, |s|, f);
    FlattenMember(c, |c|, f);
    assert s[i] == SandboxAt(h, t, i) && c[i] == CoreAt(h, t, i);
    if f in SandboxFailures(h, t) {
      var j :| 0 <= j < |s| && f in s[j];
      RowsIndexed(h, t, j, f);
    }
    if f in CoreFailures(h, t) {
      var j :| 0 <= j < |c| && f in c[j];
      RowsIndexed(h, t, j, f);
    }
  }

  lemma RowsIndexed<P>(h: Body<P> -> Digest, t: seq<Msg<P>>, i: nat, f: Failure)
    requires i < |t|
    requires f in SandboxRows(h, t)[i] || f in CoreRows(h, t)[i]
    ensures f.index == i
  {
  }

  /** ... so on their hash and chain parts they accept the same transcripts. */
  lemma CheckersAgree<P>(h: Body<P> -> Digest, t: seq<Msg<P>>)
    ensures CoreFailures(h, t) == [] <==>
            forall i :: 0 <= i < |t|
              ==> LinkMismatch(i) !in SandboxFailures(h, t) && HashMismatch(i) !in SandboxFailures(h, t)
  {
    CoreAccepts(h, t);
    if Linked(h, t) {
      forall i | 0 <= i < |t|
        ensures LinkMismatch(i) !in SandboxFailures(h, t) && HashMismatch(i) !in SandboxFailures(h, t) {
        FailureAt(h, t, i, HashMismatch(i));
        FailureAt(h, t, i, LinkMismatch(i));
      }
    } else if forall i :: 0 <= i < |t| ==>
               LinkMismatch(i) !in SandboxFailures(h, t) && HashMismatch(i) !in SandboxFailures(h, t) {
      forall i | 0 <= i < |t| ensures t[i].hash == Some(h(t[i].Unsigned())) {
        FailureAt(h, t, i, HashMismatch(i));
      }
      forall i | 0 < i < |t| ensures t[i].prev == t[i - 1].hash {
        FailureAt(h, t, i, LinkMismatch(i));
      }
      assert false;
    }
  }

  /** What the builders produce passes. */
  lemma {:induction false} ChainPasses<P>(h: Body<P> -> Digest, sign: (Digest, Option<string>) -> Signature,
                                          ids: set<Option<string>>, cs: seq<Content<P>>)
    ensures Linked(h, Chain(h, cs)) && Linked(h, Sealed(h, sign, ids, cs)) && Linked(h, SignAll(h, sign, cs))
  {
    var c := Chain(h, cs);
    ChainLinked(h, cs);
    SealedLinked(h, sign, c, Sealed(h, sign, ids, cs));
    SealedLinked(h, sign, c, SignAll(h, sign, cs));
  }

  lemma {:induction false} ChainLinked<P>(h: Body<P> -> Digest, cs: seq<Content<P>>)
    ensures Linked(h, Chain(h, cs))
  {
    var c := Chain(h, cs);
    forall i | 0 <= i < |cs| ensures c[i].hash == Some(h(c[i].Unsigned())) && (i > 0 ==> c[i].prev == c[i - 1].hash) {
      ChainAt(h, cs, i);
    }
  }

  lemma SealedLinked<P>(h: Body<P> -> Digest, sign: (Digest, Option<string>) -> Signature, c: seq<Msg<P>>,
                        t: seq<Msg<P>>)
    requires Linked(h, c) && |t| == |c|
    requires forall i :: 0 <= i < |c| ==> t[i] == Seal(sign, true, c[i]) || t[i] == Seal(sign, false, c[i])
    ensures Linked(h, t)
  {
  }

  /** A loop that hashes the signatures in is caught exactly at the rows that carry some. */
  lemma {:induction false} RawChainChecked<P(!new)>(h: Body<P> -> Digest, keepFirst: bool, t: seq<Msg<P>>, i: nat)
    requires Injective(h) && i < |t|
    ensures HashMismatch(i) in CoreFailures(h, RawChain(h, keepFirst, t)) <==> t[i].signatures.Some?
    ensures LinkMismatch(i) !in CoreFailures(h, RawChain(h, keepFirst, t))
  {
    var r := RawChain(h, keepFirst, t);
    FailureAt(h, r, i, HashMismatch(i));
    FailureAt(h, r, i, LinkMismatch(i));
    RawChainAt(h, keepFirst, t, i);
  }

  // ---- the last hash fixes the transcript

  function Bodies<P>(t: seq<Msg<P>>): (b: seq<Body<P>>)
    ensures |b| == |t|
  {
    seq(|t|, i requires 0 <= i < |t| => t[i].Unsigned())
  }

  /** Two accepted transcripts with the same last hash: the bodies of one are a suffix of those of the other... */
  lemma SameHeadSuffix<P(!new)>(h: Body<P> -> Digest, t: seq<Msg<P>>, u: seq<Msg<P>>)
    requires Injective(h) && Linked(h, t) && Linked(h, u)
    requires 0 < |t| <= |u| && Head(t) == Head(u)
    ensures Bodies(t) == Bodies(u)[|u| - |t|..]
  {
    assert t[|t| - 1].Unsigned() == u[|u| - 1].Unsigned();
    if |t| <= 1 {
    } else {
      var t', u' := t[..|t| - 1], u[..|u| - 1];
      assert Head(t') == t[|t| - 1].prev == u[|u| - 1].prev == Head(u');
      SameHeadSuffix(h, t', u');
      assert forall i :: 0 <= i < |t'| ==> Bodies(t')[i] == Bodies(t)[i];
      assert forall i :: 0 <= i < |u'| ==> Bodies(u')[i] == Bodies(u)[i];
    }
  }

  /** ... and they are equal, signatures aside, when neither first message carries a link. */
  lemma SameHeadEqual<P(!new)>(h: Body<P> -> Digest, t: seq<Msg<P>>, u: seq<Msg<P>>)
    requires Injective(h) && Linked(h, t) && Linked(h, u)
    requires t != [] && u != [] && t[0].prev == None && u[0].prev == None
    ensures Head(t) == Head(u) <==> Unsealed(t) == Unsealed(u)
  {
    if Head(t) == Head(u) {
      if |t| < |u| {
        FirstLinkInside(h, t, u);
      } else if |u| < |t| {
        FirstLinkInside(h, u, t);
      }
      SameHeadBodies(h, t, u);
      forall i | 0 <= i < |t| ensures Unsealed(t)[i] == Unsealed(u)[i] {
        assert Bodies(t)[i] == Bodies(u)[i];
      }
    }
    if Unsealed(t) == Unsealed(u) {
      assert Unsealed(t)[|t| - 1].hash == Head(t) && |t| == |u| && Unsealed(u)[|u| - 1].hash == Head(u);
    }
  }

  /** The longer one would carry a link where the shorter one starts. */
  lemma FirstLinkInside<P(!new)>(h: Body<P> -> Digest, t: seq<Msg<P>>, u: seq<Msg<P>>)
    requires Injective(h) && Linked(h, t) && Linked(h, u)
    requires 0 < |t| < |u| && Head(t) == Head(u)
    ensures t[0].prev.Some?
  {
    SameHeadSuffix(h, t, u);
    var d := |u| - |t|;
    assert Bodies(t)[0] == Bodies(u)[d..][0] == Bodies(u)[d] == u[d].Unsigned();
    assert u[d].prev == u[d - 1].hash;
  }

  lemma SameHeadBodies<P(!new)>(h: Body<P> -> Digest, t: seq<Msg<P>>, u: seq<Msg<P>>)
    requires Injective(h) && Linked(h, t) && Linked(h, u)
    requires 0 < |t| == |u| && Head(t) == Head(u)
    ensures Bodies(t) == Bodies(u)
  {
    SameHeadSuffix(h, t, u);
    assert Bodies(u)[0..] == Bodies(u);
  }

  // ---- which corruption is reported where

  ghost predicate Passes<P>(h: Body<P> -> Digest, t: seq<Msg<P>>) { SandboxFailures(h, t) == [] }

  /** A transcript out of order at most in the hash of message `k` and the links of `k` and `k + 1`. */
  lemma LocalFailures<P>(h: Body<P> -> Digest, u: seq<Msg<P>>, k: nat)
    requires k < |u| && OneSession(u) && UniqueIds(u)
    requires forall i :: 0 <= i < |u| && i != k ==> u[i].hash == Some(h(u[i].Unsigned()))
    requires forall i :: 0 < i < |u| && i != k && i != k + 1 ==> u[i].prev == u[i - 1].hash
    ensures SandboxFailures(h, u) ==
            When(BadLink(u, k) && u[k - 1].hash.Some?, LinkMismatch(k)) + When(BadHash(h, u, k), HashMismatch(k))
            + When(k + 1 < |u| && BadLink(u, k + 1) && u[k].hash.Some?, LinkMismatch(k + 1))
    ensures CoreFailures(h, u) ==
            When(BadLink(u, k), LinkMismatch(k)) + When(BadHash(h, u, k), HashMismatch(k))
            + When(k + 1 < |u| && BadLink(u, k + 1), LinkMismatch(k + 1))
  {
    LocalSandbox(h, u, k);
    LocalCore(h, u, k);
  }

  lemma LocalSandbox<P>(h: Body<P> -> Digest, u: seq<Msg<P>>, k: nat)
    requires k < |u| && OneSession(u) && UniqueIds(u)
    requires forall i :: 0 <= i < |u| && i != k ==> u[i].hash == Some(h(u[i].Unsigned()))
    requires forall i :: 0 < i < |u| && i != k && i != k + 1 ==> u[i].prev == u[i - 1].hash
    ensures SandboxFailures(h, u) ==
            When(BadLink(u, k) && u[k - 1].hash.Some?, LinkMismatch(k)) + When(BadHash(h, u, k), HashMismatch(k))
            + When(k + 1 < |u| && BadLink(u, k + 1) && u[k].hash.Some?, LinkMismatch(k + 1))
  {
    QuietElsewhere(h, u, k);
    SandboxReport(h, u, k);
    NextReport(h, u, k);
    FlattenPair(SandboxRows(h, u), k, GuardedChainAt(h, u, k),
                When(k + 1 < |u| && BadLink(u, k + 1) && u[k].hash.Some?, LinkMismatch(k + 1)));
  }

  lemma NextReport<P>(h: Body<P> -> Digest, u: seq<Msg<P>>, k: nat)
    requires k < |u| && OneSession(u) && UniqueIds(u)
    requires k + 1 < |u| ==> !BadHash(h, u, k + 1)
    ensures (if k + 1 < |u| then SandboxRows(h, u)[k + 1] else [])
         == When(k + 1 < |u| && BadLink(u, k + 1) && u[k].hash.Some?, LinkMismatch(k + 1))
  {
    if k + 1 < |u| {
      SandboxReport(h, u, k + 1);
      LinkOnly(h, u, k + 1);
    }
  }

  lemma LinkOnly<P>(h: Body<P> -> Digest, u: seq<Msg<P>>, i: nat)
    requires i < |u| && !BadHash(h, u, i)
    ensures GuardedChainAt(h, u, i) == When(BadLink(u, i) && u[i - 1].hash.Some?, LinkMismatch(i))
  {
  }

  lemma QuietElsewhere<P>(h: Body<P> -> Digest, u: seq<Msg<P>>, k: nat)
    requires k < |u| && OneSession(u) && UniqueIds(u)
    requires forall i :: 0 <= i < |u| && i != k ==> u[i].hash == Some(h(u[i].Unsigned()))
    requires forall i :: 0 < i < |u| && i != k && i != k + 1 ==> u[i].prev == u[i - 1].hash
    ensures forall i :: 0 <= i < |u| && i != k && i != k + 1 ==> SandboxRows(h, u)[i] == []
  {
    forall i | 0 <= i < |u| && i != k && i != k + 1 ensures SandboxRows(h, u)[i] == [] {
      SandboxQuiet(h, u, i);
    }
  }

  lemma LocalCore<P>(h: Body<P> -> Digest, u: seq<Msg<P>>, k: nat)
    requires k < |u|
    requires forall i :: 0 <= i < |u| && i != k ==> u[i].hash == Some(h(u[i].Unsigned()))
    requires forall i :: 0 < i < |u| && i != k && i != k + 1 ==> u[i].prev == u[i - 1].hash
    ensures CoreFailures(h, u) ==
            When(BadLink(u, k), LinkMismatch(k)) + When(BadHash(h, u, k), HashMismatch(k))
            + When(k + 1 < |u| && BadLink(u, k + 1), LinkMismatch(k + 1))
  {
    var c := CoreRows(h, u);
    forall i | 0 <= i < |u| && i != k && i != k + 1 ensures c[i] == [] {
      CoreQuiet(h, u, i);
    }
    FlattenTwo(c, k, |c|);
    CoreReport(h, u, k);
    if k + 1 < |u| {
      CoreReport(h, u, k + 1);
      assert !BadHash(h, u, k + 1);
    }
  }

  lemma SandboxReport<P>(h: Body<P> -> Digest, u: seq<Msg<P>>, i: nat)
    requires i < |u| && OneSession(u) && UniqueIds(u)
    ensures SandboxRows(h, u)[i] == GuardedChainAt(h, u, i)
  {
    assert !SeenId(u, i);
  }

  lemma CoreReport<P>(h: Body<P> -> Digest, u: seq<Msg<P>>, i: nat)
    requires i < |u|
    ensures CoreRows(h, u)[i] == When(BadLink(u, i), LinkMismatch(i)) + When(BadHash(h, u, i), HashMismatch(i))
  {
  }

  /** One message of an accepted transcript exchanged for one of the same session and id. */
  lemma Exchanged<P>(h: Body<P> -> Digest, t: seq<Msg<P>>, k: nat, m: Msg<P>)
    requires Passes(h, t) && k < |t|
    requires m.content.session == t[k].content.session && m.content.id == t[k].content.id
    ensures var link := k > 0 && m.prev != t[k - 1].hash;
            var hash := m.hash != Some(h(m.Unsigned()));
            var next := k + 1 < |t| && m.hash != t[k].hash;
      && SandboxFailures(h, t[k := m])
         == When(link, LinkMismatch(k)) + When(hash, HashMismatch(k)) + When(next && m.hash.Some?, LinkMismatch(k + 1))
      && CoreFailures(h, t[k := m])
         == When(link, LinkMismatch(k)) + When(hash, HashMismatch(k)) + When(next, LinkMismatch(k + 1))
  {
    SandboxAccepts(h, t);
    var u := t[k := m];
    ExchangeKeepsIdentity(t, k, m);
    assert k > 0 ==> u[k - 1] == t[k - 1] && u[k - 1].hash.Some?;
    assert k + 1 < |t| ==> u[k + 1] == t[k + 1] && t[k + 1].prev == t[k].hash;
    LocalFailures(h, u, k);
  }

  /** Exchanged for one with the same link. */
  lemma ExchangedSameLink<P>(h: Body<P> -> Digest, t: seq<Msg<P>>, k: nat, m: Msg<P>)
    requires Passes(h, t) && k < |t| && m.prev == t[k].prev
    requires m.content.session == t[k].content.session && m.content.id == t[k].content.id
    ensures var hash, next := m.hash != Some(h(m.Unsigned())), k + 1 < |t| && m.hash != t[k].hash;
      && SandboxFailures(h, t[k := m]) == When(hash, HashMismatch(k)) + When(next && m.hash.Some?, LinkMismatch(k + 1))
      && CoreFailures(h, t[k := m]) == When(hash, HashMismatch(k)) + When(next, LinkMismatch(k + 1))
  {
    SandboxAccepts(h, t);
    Exchanged(h, t, k, m);
  }

  lemma ExchangeKeepsIdentity<P>(t: seq<Msg<P>>, k: nat, m: Msg<P>)
    requires OneSession(t) && UniqueIds(t) && k < |t|
    requires m.content.session == t[k].content.session && m.content.id == t[k].content.id
    ensures OneSession(t[k := m]) && UniqueIds(t[k := m])
  {
  }

  /** A stored hash overwritten (N32): a hash failure there and a link failure at the next message, if there is one. */
  lemma OverwrittenHash<P>(h: Body<P> -> Digest, t: seq<Msg<P>>, k: nat, d: Digest)
    requires Passes(h, t) && k < |t| && t[k].hash != Some(d)
    ensures SandboxFailures(h, t[k := t[k].(hash := Some(d))])
         == [HashMismatch(k)] + When(k + 1 < |t|, LinkMismatch(k + 1))
  {
    SandboxAccepts(h, t);
    ExchangedSameLink(h, t, k, t[k].(hash := Some(d)));
  }

  /** A stored hash removed: here the sandbox loop no longer looks at the next link. */
  lemma RemovedHash<P>(h: Body<P> -> Digest, t: seq<Msg<P>>, k: nat)
    requires Passes(h, t) && k < |t|
    ensures SandboxFailures(h, t[k := t[k].(hash := None)]) == [HashMismatch(k)]
    ensures CoreFailures(h, t[k := t[k].(hash := None)]) == [HashMismatch(k)] + When(k + 1 < |t|, LinkMismatch(k + 1))
  {
    SandboxAccepts(h, t);
    ExchangedSameLink(h, t, k, t[k].(hash := None));
  }

  /** Content changed without rehashing (session and id kept): one hash failure and nothing else. */
  lemma ChangedContent<P(!new)>(h: Body<P> -> Digest, t: seq<Msg<P>>, k: nat, c: Content<P>)
    requires Injective(h) && Passes(h, t) && k < |t| && c != t[k].content
    requires c.session == t[k].content.session && c.id == t[k].content.id
    ensures SandboxFailures(h, t[k := t[k].(content := c)]) == [HashMismatch(k)]
  {
    SandboxAccepts(h, t);
    assert t[k].(content := c).Unsigned() != t[k].Unsigned();
    ExchangedSameLink(h, t, k, t[k].(content := c));
  }

  /** A link overwritten and that one message rehashed (N33): a link failure there and, its hash having changed,
      at the next message. */
  lemma OverwrittenLink<P(!new)>(h: Body<P> -> Digest, t: seq<Msg<P>>, k: nat, d: Digest)
    requires Injective(h) && Passes(h, t) && 0 < k < |t| && t[k].prev != Some(d)
    ensures var broken := Msg(t[k].content, Some(d), t[k].signatures, Some(h(Body(t[k].content, Some(d), None))));
      SandboxFailures(h, t[k := broken]) == [LinkMismatch(k)] + When(k + 1 < |t|, LinkMismatch(k + 1))
  {
    SandboxAccepts(h, t);
    RelinkedHash(h, t[k], d);
    Exchanged(h, t, k, Msg(t[k].content, Some(d), t[k].signatures, Some(h(Body(t[k].content, Some(d), None)))));
  }

  lemma RelinkedHash<P(!new)>(h: Body<P> -> Digest, m: Msg<P>, d: Digest)
    requires Injective(h) && m.hash == Some(h(m.Unsigned())) && m.prev != Some(d)
    ensures m.hash != Some(h(Body(m.content, Some(d), None)))
  {
    assert m.Unsigned() != Body(m.content, Some(d), None);
  }

  /** A message cut out of the middle is reported once, where the gap is... */
  lemma DroppedMessage<P(!new)>(h: Body<P> -> Digest, t: seq<Msg<P>>, k: nat)
    requires Injective(h) && Passes(h, t) && 0 < k < |t| - 1
    ensures SandboxFailures(h, t[..k] + t[k + 1..]) == [LinkMismatch(k)]
  {
    SandboxAccepts(h, t);
    var u := t[..k] + t[k + 1..];
    GapShows(h, t, k);
    DropKeepsIdentity(t, k);
    LocalFailures(h, u, k);
  }

  lemma GapShows<P(!new)>(h: Body<P> -> Digest, t: seq<Msg<P>>, k: nat)
    requires Injective(h) && Linked(h, t) && UniqueIds(t) && 0 < k < |t| - 1
    ensures var u := t[..k] + t[k + 1..];
      && u[k] == t[k + 1] && u[k - 1] == t[k - 1] && BadLink(u, k) && u[k - 1].hash.Some? && !BadHash(h, u, k)
  {
    assert t[k].content.id != t[k - 1].content.id;
    assert t[k].Unsigned() != t[k - 1].Unsigned();
  }

  lemma DropKeepsIdentity<P>(t: seq<Msg<P>>, k: nat)
    requires OneSession(t) && UniqueIds(t) && 0 < k < |t|
    ensures OneSession(t[..k] + t[k + 1..]) && UniqueIds(t[..k] + t[k + 1..])
  {
    var u := t[..k] + t[k + 1..];
    forall i, j | 0 <= i < j < |u| ensures u[i].content.id != u[j].content.id {
      assert u[i] == (if i < k then t[i] else t[i + 1]) && u[j] == (if j < k then t[j] else t[j + 1]);
    }
  }

  /** ... while any stretch of an accepted transcript is: nothing is checked about the first link or the end. */
  lemma StretchPasses<P>(h: Body<P> -> Digest, t: seq<Msg<P>>, a: nat, b: nat)
    requires Passes(h, t) && a <= b <= |t|
    ensures Passes(h, t[a..b])
  {
    SandboxAccepts(h, t);
    SandboxAccepts(h, t[a..b]);
  }

  // ---- case 09 of generate_authenticated_base_fixtures.py

  /** Removes the link of message 1, then rehashes and re-signs from there on.  The source indexes `rows[1]`. */
  method RepairCase09<P>(h: Body<P> -> Digest, sign: (Digest, Option<string>) -> Signature, source: seq<Msg<P>>)
      returns (rows: seq<Msg<P>>)
    requires |source| >= 2
    ensures Contents(rows) == Contents(source)
    ensures forall i :: 0 <= i < |rows| ==> rows[i].hash == Some(h(rows[i].Unsigned()))
    ensures forall i :: 0 <= i < |rows| ==>
             rows[i].signatures == Some([sign(h(rows[i].Unsigned()), rows[i].content.sender)])
    ensures rows[0].prev == None && rows[1].prev == None
    ensures forall i :: 1 < i < |rows| ==> rows[i].prev == rows[i - 1].hash
    ensures CoreFailures(h, rows) == [LinkMismatch(1)]
    ensures OneSession(source) && UniqueIds(source) ==> SandboxFailures(h, rows) == [LinkMismatch(1)]
  {
    rows := RehashAndSign(h, sign, source);
    ghost var cs := Contents(source);
    SignAllIdempotent(h, sign, cs);
    ChainAt(h, cs, 0);
    ghost var first := rows[0];
    rows := rows[1 := rows[1].(prev := None)];
    for index := 1 to |rows|
      invariant |rows| == |source| && rows[0] == first && rows[1].prev == None
      invariant Contents(rows) == cs
      invariant Repaired(h, sign, rows, index)
    {
      var body := rows[index].Unsigned();
      if index > 1 {
        body := body.(prev := rows[index - 1].hash);
      }
      var digest := h(body);
      RepairedNext(h, sign, rows, index);
      rows := rows[index := Msg(body.content, body.prev, Some([sign(digest, body.content.sender)]), Some(digest))];
    }
    SameIdentity(source, rows);
    Case09Failures(h, rows);
  }

  ghost predicate Repaired<P>(h: Body<P> -> Digest, sign: (Digest, Option<string>) -> Signature, rows: seq<Msg<P>>,
                              n: nat)
    requires n <= |rows|
  {
    && (forall i :: 0 <= i < n ==> rows[i].hash == Some(h(rows[i].Unsigned())))
    && (forall i :: 0 <= i < n ==>
          rows[i].signatures == Some([sign(h(rows[i].Unsigned()), rows[i].content.sender)]))
    && (forall i :: 1 < i < n ==> rows[i].prev == rows[i - 1].hash)
  }

  lemma RepairedNext<P>(h: Body<P> -> Digest, sign: (Digest, Option<string>) -> Signature, rows: seq<Msg<P>>, n: nat)
    requires 0 < n < |rows| && Repaired(h, sign, rows, n)
    ensures var body := Body(rows[n].content, if n > 1 then rows[n - 1].hash else rows[n].prev, None);
            var m := Msg(body.content, body.prev, Some([sign(h(body), body.content.sender)]), Some(h(body)));
      Repaired(h, sign, rows[n := m], n + 1) && Contents(rows[n := m]) == Contents(rows)
  {
  }

  lemma SameIdentity<P>(t: seq<Msg<P>>, u: seq<Msg<P>>)
    requires Contents(t) == Contents(u)
    ensures OneSession(t) <==> OneSession(u)
    ensures UniqueIds(t) <==> UniqueIds(u)
  {
    assert |t| == |u|;
    assert forall i :: 0 <= i < |t| ==> Contents(t)[i] == t[i].content;
    assert forall i :: 0 <= i < |t| ==> Contents(u)[i] == u[i].content;
  }

  lemma Case09Failures<P>(h: Body<P> -> Digest, t: seq<Msg<P>>)
    requires |t| >= 2 && t[1].prev == None
    requires forall i :: 0 <= i < |t| ==> t[i].hash == Some(h(t[i].Unsigned()))
    requires forall i :: 1 < i < |t| ==> t[i].prev == t[i - 1].hash
    ensures CoreFailures(h, t) == [LinkMismatch(1)]
    ensures OneSession(t) && UniqueIds(t) ==> SandboxFailures(h, t) == [LinkMismatch(1)]
  {
    LocalCore(h, t, 1);
    if OneSession(t) && UniqueIds(t) {
      LocalSandbox(h, t, 1);
    }
  }
}
