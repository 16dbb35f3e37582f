/** The rehashing loops of the fixture builders.  Each is written as the source writes it, in place or
    copying, and is proved to compute `Chain` (or to say how it departs from it). */
module ChainLoops {
  import opened Wrappers
  import opened Chains

  /** A message object; the loops overwrite its three chain fields. */
  class Message<P> {
    var content: Content<P>
    var prev: Option<Digest>
    var signatures: Option<seq<Signature>>
    var hash: Option<Digest>

    constructor (m: Msg<P>)
      ensures View() == m
    {
      content, prev, signatures, hash := m.content, m.prev, m.signatures, m.hash;
    }

    function View(): Msg<P>
      reads this
    {
      Msg(content, prev, signatures, hash)
    }
  }

  ghost predicate Distinct<P>(ms: seq<Message<P>>) {
    forall i, j :: 0 <= i < j < |ms| ==> ms[i] != ms[j]
  }

  function Views<P>(ms: seq<Message<P>>): (t: seq<Msg<P>>)
    reads ms
    ensures |t| == |ms|
  {
    seq(|ms|, i requires 0 <= i < |ms| reads ms => ms[i].View())
  }

  ghost predicate AllUnsigned<P>(t: seq<Msg<P>>) {
    forall i :: 0 <= i < |t| ==> t[i].signatures == None
  }

  /** The loop of generate_capneg_v02_fixtures.py: clears each message, refills it and signs the chosen ones. */
  method Rehash<P>(h: Body<P> -> Digest, sign: (Digest, Option<string>) -> Signature,
                   messages: seq<Message<P>>, signedIds: set<Option<string>>)
    requires Distinct(messages)
    modifies messages
    ensures Views(messages) == Sealed(h, sign, signedIds, Contents(old(Views(messages))))
  {
    ghost var cs := Contents(Views(messages));
    ghost var goal := Sealed(h, sign, signedIds, cs);
    var previous: Option<Digest> := None;
    for n := 0 to |messages|
      invariant previous == Head(Chain(h, cs)[..n])
      invariant forall k :: 0 <= k < n ==> messages[k].View() == goal[k]
      invariant forall k :: n <= k < |messages| ==> messages[k].View() == old(messages[k].View())
    {
      ChainAt(h, cs, n);
      var message := messages[n];
      var body := Body(message.content, previous, None);
      var digest := h(body);
      message.content, message.prev, message.signatures, message.hash := body.content, body.prev, None, Some(digest);
      if message.content.id in signedIds {
        message.signatures := Some([sign(digest, message.content.sender)]);
      }
      previous := Some(digest);
    }
  }

  /** The chain fields replaced by those of `Chain`, the signatures kept as they are. */
  function Relinked<P>(h: Body<P> -> Digest, t: seq<Msg<P>>): (r: seq<Msg<P>>)
    ensures |r| == |t|
  {
    var c := Chain(h, Contents(t));
    seq(|t|, i requires 0 <= i < |t| => c[i].(signatures := t[i].signatures))
  }

  /** The only chain with the contents and the signatures of `t`. */
  lemma RelinkedExact<P>(h: Body<P> -> Digest, t: seq<Msg<P>>, r: seq<Msg<P>>)
    ensures r == Relinked(h, t) <==>
      && IsChain(h, r) && Contents(r) == Contents(t)
      && forall i :: 0 <= i < |r| && i < |t| ==> r[i].signatures == t[i].signatures
  {
    var c, goal := Chain(h, Contents(t)), Relinked(h, t);
    forall i | 0 <= i < |t|
      ensures goal[i].(signatures := None) == c[i] && c[i].content == t[i].content
      ensures c[i].hash == Some(h(c[i].Unsigned())) && c[i].prev == Head(c[..i])
    {
      ChainAt(h, Contents(t), i);
    }
    BareIsChain(h, goal, c);
    assert Contents(goal) == Contents(t);
    if IsChain(h, r) && Contents(r) == Contents(t) {
      assert |r| == |Contents(r)| == |t|;
      forall i | 0 <= i < |r| ensures r[i].(signatures := None) == c[i] {
        BareChain(h, r, i);
      }
    }
  }

  /** The loop of generate_core_v02_fixtures.py: leaves the signatures on the message but not in the hashed body. */
  method RehashInPlace<P>(h: Body<P> -> Digest, messages: seq<Message<P>>)
    requires Distinct(messages)
    modifies messages
    ensures Views(messages) == Relinked(h, old(Views(messages)))
  {
    ghost var t := Views(messages);
    ghost var cs := Contents(t);
    var previous: Option<Digest> := None;
    for n := 0 to |messages|
      invariant previous == Head(Chain(h, cs)[..n])
      invariant forall k :: 0 <= k < n ==> messages[k].View() == Relinked(h, t)[k]
      invariant forall k :: n <= k < |messages| ==> messages[k].View() == t[k]
    {
      ChainAt(h, cs, n);
      var message := messages[n];
      message.hash, message.prev := None, None;
      if previous.Some? {
        message.prev := previous;
      }
      message.hash := Some(h(message.View().Unsigned()));
      previous := message.hash;
    }
  }

  function RawLink<P>(h: Body<P> -> Digest, prev: Option<Digest>, m: Msg<P>): Msg<P> {
    Msg(m.content, prev, m.signatures, Some(h(Body(m.content, prev, m.signatures))))
  }

  /** What the loops compute that forget to take the signatures out of the hashed body, and, with
      `keepFirst`, also leave the first row's own `prev_msg_hash` in place. */
  function RawChain<P>(h: Body<P> -> Digest, keepFirst: bool, t: seq<Msg<P>>): (r: seq<Msg<P>>)
    ensures |r| == |t|
  {
    if t == [] then []
    else
      var init := RawChain(h, keepFirst, t[..|t| - 1]);
      var prev := if init == [] then (if keepFirst then t[0].prev else None) else Head(init);
      init + [RawLink(h, prev, t[|t| - 1])]
  }

  /** The loop of generate_m30_supply_chain_fixtures.py, in place. */
  method AddHashes<P>(h: Body<P> -> Digest, rows: seq<Message<P>>)
    requires Distinct(rows)
    modifies rows
    ensures Views(rows) == RawChain(h, false, old(Views(rows)))
  {
    ghost var t := Views(rows);
    ghost var goal := RawChain(h, false, t);
    var prev: Option<Digest> := None;
    for n := 0 to |rows|
      invariant prev == if n == 0 then None else goal[n - 1].hash
      invariant n == 0 || prev.Some?
      invariant forall k :: 0 <= k < n ==> rows[k].View() == goal[k]
      invariant forall k :: n <= k < |rows| ==> rows[k].View() == t[k]
    {
      RawChainAt(h, false, t, n);
      var row := rows[n];
      row.hash := None;
      if prev.None? {
        row.prev := None;
      } else {
        row.prev := prev;
      }
      row.hash := Some(h(row.View().WithoutHash()));
      prev := row.hash;
    }
  }

  lemma {:induction false} RawChainAt<P>(h: Body<P> -> Digest, keepFirst: bool, t: seq<Msg<P>>, i: nat)
    requires i < |t|
    ensures var r := RawChain(h, keepFirst, t);
      r[i] == RawLink(h, if i > 0 then r[i - 1].hash else if keepFirst then t[0].prev else None, t[i])
  {
    if i == |t| - 1 {
    } else {
      RawChainAt(h, keepFirst, t[..|t| - 1], i);
    }
  }

  /** Content and signatures stay; the hash is over content, link and signatures; the link is the hash before, and the
      first row has none, or its own. */
  ghost predicate RawLinked<P>(h: Body<P> -> Digest, keepFirst: bool, t: seq<Msg<P>>, r: seq<Msg<P>>, i: nat)
    requires |r| == |t| && i < |r|
  {
    && r[i].content == t[i].content && r[i].signatures == t[i].signatures
    && r[i].prev == (if i > 0 then r[i - 1].hash else if keepFirst then t[i].prev else None)
    && r[i].hash == Some(h(Body(r[i].content, r[i].prev, r[i].signatures)))
  }

  /** These loops compute exactly that. */
  lemma {:induction false} RawChainExact<P>(h: Body<P> -> Digest, keepFirst: bool, t: seq<Msg<P>>, r: seq<Msg<P>>)
    ensures r == RawChain(h, keepFirst, t)
       <==> |r| == |t| && forall i :: 0 <= i < |r| ==> RawLinked(h, keepFirst, t, r, i)
  {
    var goal := RawChain(h, keepFirst, t);
    forall i | 0 <= i < |t| ensures RawLinked(h, keepFirst, t, goal, i) {
      RawChainAt(h, keepFirst, t, i);
    }
    if |r| == |t| && forall i :: 0 <= i < |r| ==> RawLinked(h, keepFirst, t, r, i) {
      forall i | 0 <= i < |r| ensures r[i] == goal[i] {
        RawUnique(h, keepFirst, t, r, goal, i);
      }
    }
  }

  lemma {:induction false} RawUnique<P>(h: Body<P> -> Digest, keepFirst: bool, t: seq<Msg<P>>, r: seq<Msg<P>>,
                                        q: seq<Msg<P>>, i: nat)
    requires |r| == |t| == |q| && i < |r|
    requires forall k :: 0 <= k < |r| ==> RawLinked(h, keepFirst, t, r, k) && RawLinked(h, keepFirst, t, q, k)
    ensures r[i] == q[i]
  {
    assert RawLinked(h, keepFirst, t, r, i) && RawLinked(h, keepFirst, t, q, i);
    if i == 0 {
    } else {
      RawUnique(h, keepFirst, t, r, q, i - 1);
    }
  }

  /** `finalize` of the transcript-witness and reception-chat generators: copies every row. */
  method Finalize<P>(h: Body<P> -> Digest, rows: seq<Msg<P>>) returns (out: seq<Msg<P>>)
    ensures out == RawChain(h, true, rows)
  {
    var prev: Option<Digest> := None;
    out := [];
    for n := 0 to |rows|
      invariant out == RawChain(h, true, rows[..n])
      invariant prev == Head(out) && (n == 0 || prev.Some?)
    {
      assert rows[..n + 1][..n] == rows[..n];
      var msg := rows[n].(hash := None);
      if prev.Some? {
        msg := msg.(prev := prev);
      }
      msg := msg.(hash := Some(h(msg.WithoutHash())));
      prev := msg.hash;
      out := out + [msg];
    }
    assert rows[..|rows|] == rows;
  }

  /** Exactly when those loops compute the chain: no row signed and, for `finalize`, no link on the first row. */
  lemma {:induction false} RawChainIsChain<P>(h: Body<P> -> Digest, keepFirst: bool, t: seq<Msg<P>>)
    ensures RawChain(h, keepFirst, t) == Chain(h, Contents(t))
       <==> AllUnsigned(t) && (keepFirst && t != [] ==> t[0].prev == None)
  {
    forall i | 0 <= i < |t|
      ensures Chain(h, Contents(t))[i].signatures == None && RawChain(h, keepFirst, t)[i].signatures == t[i].signatures
    {
      ChainAt(h, Contents(t), i);
      RawChainAt(h, keepFirst, t, i);
    }
    if t != [] {
      ChainAt(h, Contents(t), 0);
      RawChainAt(h, keepFirst, t, 0);
    }
    if AllUnsigned(t) && (keepFirst && t != [] ==> t[0].prev == None) {
      RawChainUnsigned(h, keepFirst, t);
    }
  }

  lemma {:induction false} RawChainUnsigned<P>(h: Body<P> -> Digest, keepFirst: bool, t: seq<Msg<P>>)
    requires AllUnsigned(t) && (keepFirst && t != [] ==> t[0].prev == None)
    ensures RawChain(h, keepFirst, t) == Chain(h, Contents(t))
  {
    if t == [] {
    } else {
      RawChainUnsigned(h, keepFirst, t[..|t| - 1]);
      assert Contents(t)[..|t| - 1] == Contents(t[..|t| - 1]);
    }
  }

  // ---- signing loops

  datatype Key = Key(kid: Option<string>, secret: Option<string>)

  datatype SigningError = MissingSender(index: nat) | NoKey(index: nat) | BadKey(index: nat)

  /** Ed25519 signing is a deterministic function `ed` of the key and the signed hash (RFC 8032, section 5.1.6). */
  function SignWith(ed: (string, Digest) -> string, keys: map<string, Key>): (Digest, Option<string>) -> Signature {
    (digest: Digest, sender: Option<string>) =>
      if sender.Some? && sender.value in keys && keys[sender.value].kid.Some? && keys[sender.value].secret.Some? then
        Signature(sender, keys[sender.value].kid.value, digest, ed(keys[sender.value].secret.value, digest))
      else Signature(sender, "", digest, "")
  }

  /** The chain with every message signed by its sender over its own hash. */
  function SignAll<P>(h: Body<P> -> Digest, sign: (Digest, Option<string>) -> Signature,
                      cs: seq<Content<P>>): (t: seq<Msg<P>>)
    ensures |t| == |cs|
  {
    var c := Chain(h, cs);
    seq(|cs|, i requires 0 <= i < |cs| => Seal(sign, true, c[i]))
  }

  predicate KnownSender<P>(keys: map<string, Key>, m: Msg<P>) {
    m.content.sender.Some? && m.content.sender.value in keys
  }

  /** There is a sender, and complete key data for it. */
  predicate HasKey<P>(keys: map<string, Key>, m: Msg<P>) {
    && KnownSender(keys, m)
    && keys[m.content.sender.value].kid.Some? && keys[m.content.sender.value].secret.Some?
  }

  /** One signature: by the sender, under its key id, over the message's own hash, made with its secret. */
  ghost predicate SignedWith<P>(ed: (string, Digest) -> string, keys: map<string, Key>, m: Msg<P>) {
    && HasKey(keys, m) && m.hash.Some?
    && var key := keys[m.content.sender.value];
       m.signatures == Some([Signature(m.content.sender, key.kid.value, m.hash.value,
                                       ed(key.secret.value, m.hash.value))])
  }

  ghost predicate FailsWith<P>(keys: map<string, Key>, m: Msg<P>, i: nat, error: SigningError) {
    match error
    case MissingSender(n) => n == i && m.content.sender == None
    case NoKey(n) => n == i && m.content.sender.Some? && m.content.sender.value !in keys
    case BadKey(n) => n == i && KnownSender(keys, m) && !HasKey(keys, m)
  }

  ghost predicate KeysUpTo<P>(keys: map<string, Key>, rows: seq<Msg<P>>, n: nat)
    requires n <= |rows|
  {
    forall i :: 0 <= i < n ==> HasKey(keys, rows[i])
  }

  /** The first row that cannot be signed, and why. */
  ghost predicate FirstFault<P>(keys: map<string, Key>, rows: seq<Msg<P>>, error: SigningError) {
    exists i: nat :: i < |rows| && KeysUpTo(keys, rows, i) && FailsWith(keys, rows[i], i, error)
  }

  lemma Stops<P>(keys: map<string, Key>, rows: seq<Msg<P>>, n: nat, error: SigningError)
    requires n < |rows| && KeysUpTo(keys, rows, n) && FailsWith(keys, rows[n], n, error)
    ensures FirstFault(keys, rows, error) && !KeysUpTo(keys, rows, |rows|)
  {
    assert !HasKey(keys, rows[n]);
  }

  lemma SignAllExact<P>(h: Body<P> -> Digest, sign: (Digest, Option<string>) -> Signature, cs: seq<Content<P>>,
                        t: seq<Msg<P>>)
    ensures t == SignAll(h, sign, cs) <==>
      && IsChain(h, t) && Contents(t) == cs
      && forall i :: 0 <= i < |t| ==>
           t[i].hash.Some? && t[i].signatures == Some([sign(t[i].hash.value, t[i].content.sender)])
  {
    var ids := set c | c in cs :: c.id;
    forall i | 0 <= i < |cs| ensures cs[i].id in ids && Chain(h, cs)[i].content == cs[i] {
      assert cs[i] in cs;
      ChainAt(h, cs, i);
    }
    assert SignAll(h, sign, cs) == Sealed(h, sign, ids, cs);
    SealedExact(h, sign, ids, cs, t);
    if Contents(t) == cs {
      forall i | 0 <= i < |t| ensures t[i].content.id in ids {
        assert Contents(t)[i] == cs[i];
      }
    }
  }

  lemma {:induction false} SignedRow<P>(h: Body<P> -> Digest, ed: (string, Digest) -> string, keys: map<string, Key>,
                                        cs: seq<Content<P>>, n: nat, sender: string, kid: string, secret: string,
                                        prev: Option<Digest>, hash: Digest)
    requires n < |cs| && cs[n].sender == Some(sender) && sender in keys && keys[sender] == Key(Some(kid), Some(secret))
    requires prev == (if n == 0 then None else SignAll(h, SignWith(ed, keys), cs)[n - 1].hash)
    requires hash == h(Body(cs[n], prev, None))
    ensures SignAll(h, SignWith(ed, keys), cs)[n]
         == Msg(cs[n], prev, Some([Signature(Some(sender), kid, hash, ed(secret, hash))]), Some(hash))
  {
    ChainAt(h, cs, n);
  }

  lemma AllSignedWith<P>(h: Body<P> -> Digest, ed: (string, Digest) -> string, keys: map<string, Key>,
                         rows: seq<Msg<P>>, t: seq<Msg<P>>)
    requires t == SignAll(h, SignWith(ed, keys), Contents(rows))
    requires KeysUpTo(keys, rows, |rows|)
    ensures IsChain(h, t) && Contents(t) == Contents(rows)
    ensures forall i :: 0 <= i < |rows| ==> SignedWith(ed, keys, t[i])
  {
    SignAllExact(h, SignWith(ed, keys), Contents(rows), t);
    forall i | 0 <= i < |rows| ensures SignedWith(ed, keys, t[i]) {
      assert Contents(t)[i] == Contents(rows)[i];
      SignedAt(ed, keys, t[i]);
    }
  }

  lemma SignedAt<P>(ed: (string, Digest) -> string, keys: map<string, Key>, m: Msg<P>)
    requires HasKey(keys, m) && m.hash.Some?
    requires m.signatures == Some([SignWith(ed, keys)(m.hash.value, m.content.sender)])
    ensures SignedWith(ed, keys, m)
  {
  }

  /** `generate_signed_transcript`: strips, chains and signs every row, or stops at the first row it cannot sign. */
  method GenerateSignedTranscript<P>(h: Body<P> -> Digest, ed: (string, Digest) -> string, keys: map<string, Key>,
                                     rows: seq<Msg<P>>) returns (r: Result<seq<Msg<P>>, SigningError>)
    ensures r.Ok? ==> r.value == SignAll(h, SignWith(ed, keys), Contents(rows))
    ensures r.Ok? <==> KeysUpTo(keys, rows, |rows|)
    ensures r.Ok? ==> IsChain(h, r.value) && Contents(r.value) == Contents(rows)
    ensures r.Ok? ==> forall i :: 0 <= i < |rows| ==> SignedWith(ed, keys, r.value[i])
    ensures r.Err? ==> FirstFault(keys, rows, r.error)
  {
    ghost var cs := Contents(rows);
    ghost var goal := SignAll(h, SignWith(ed, keys), cs);
    var prevHash: Option<Digest> := None;
    var signedRows: seq<Msg<P>> := [];
    for n := 0 to |rows|
      invariant KeysUpTo(keys, rows, n)
      invariant prevHash == if n == 0 then None else goal[n - 1].hash
      invariant n == 0 || prevHash.Some?
      invariant |signedRows| == n && forall i :: 0 <= i < n ==> signedRows[i] == goal[i]
    {
      var row := rows[n].(hash := None, prev := None, signatures := None);
      var sender := row.content.sender;
      if sender.None? {
        Stops(keys, rows, n, MissingSender(n));
        return Err(MissingSender(n));
      }
      if sender.value !in keys {
        Stops(keys, rows, n, NoKey(n));
        return Err(NoKey(n));
      }
      var key := keys[sender.value];
      if prevHash.Some? {
        row := row.(prev := prevHash);
      }
      var messageHash := h(row.WithoutHash());
      row := row.(hash := Some(messageHash));
      if key.secret.None? || key.kid.None? {
        Stops(keys, rows, n, BadKey(n));
        return Err(BadKey(n));
      }
      row := row.(signatures :=
                  Some([Signature(sender, key.kid.value, messageHash, ed(key.secret.value, messageHash))]));
      SignedRow(h, ed, keys, cs, n, sender.value, key.kid.value, key.secret.value, prevHash, messageHash);
      prevHash := Some(messageHash);
      signedRows := signedRows + [row];
    }
    assert signedRows == goal;
    AllSignedWith(h, ed, keys, rows, goal);
    return Ok(signedRows);
  }

  /** `_rehash_and_sign` of generate_authenticated_base_fixtures.py, copying. */
  method RehashAndSign<P>(h: Body<P> -> Digest, sign: (Digest, Option<string>) -> Signature, rows: seq<Msg<P>>)
      returns (out: seq<Msg<P>>)
    ensures out == SignAll(h, sign, Contents(rows))
  {
    ghost var cs := Contents(rows);
    out := [];
    var previous: Option<Digest> := None;
    for n := 0 to |rows|
      invariant previous == Head(Chain(h, cs)[..n])
      invariant out == SignAll(h, sign, cs)[..n]
    {
      ChainAt(h, cs, n);
      var body := Body(rows[n].content, previous, None);
      var digest := h(body);
      var message := Msg(body.content, body.prev, Some([sign(digest, body.content.sender)]), Some(digest));
      out := out + [message];
      previous := Some(digest);
    }
  }

  /** Signing looks only at contents and signing keeps them: a signed transcript is signed to itself. */
  lemma SignAllIdempotent<P>(h: Body<P> -> Digest, sign: (Digest, Option<string>) -> Signature, cs: seq<Content<P>>)
    ensures Contents(SignAll(h, sign, cs)) == cs
    ensures SignAll(h, sign, Contents(SignAll(h, sign, cs))) == SignAll(h, sign, cs)
  {
    ChainIdempotent(h, cs);
    forall i | 0 <= i < |cs| ensures Contents(SignAll(h, sign, cs))[i] == cs[i] {
      assert Contents(Chain(h, cs))[i] == cs[i];
    }
    assert Contents(SignAll(h, sign, cs)) == cs;
  }

  /** With signatures taken off, all the builders agree on rows they are meant for. */
  lemma {:induction false} BuildersAgree<P>(h: Body<P> -> Digest, sign: (Digest, Option<string>) -> Signature,
                                            ids: set<Option<string>>, t: seq<Msg<P>>)
    requires AllUnsigned(t) && (t != [] ==> t[0].prev == None)
    ensures RawChain(h, true, t) == RawChain(h, false, t) == Relinked(h, t) == Chain(h, Contents(t))
    ensures Unsealed(Sealed(h, sign, ids, Contents(t))) == Unsealed(SignAll(h, sign, Contents(t)))
            == Chain(h, Contents(t))
  {
    RawChainUnsigned(h, true, t);
    RawChainUnsigned(h, false, t);
    forall i | 0 <= i < |t| ensures Chain(h, Contents(t))[i].signatures == None {
      ChainAt(h, Contents(t), i);
    }
  }

  function Unsealed<P>(t: seq<Msg<P>>): (r: seq<Msg<P>>)
    ensures |r| == |t|
  {
    seq(|t|, i requires 0 <= i < |t| => t[i].(signatures := None))
  }
}
