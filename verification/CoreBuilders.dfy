/** The message builder of generate_core_v02_fixtures.py: appends, rehashes the whole list, signs single messages. */
module CoreBuilders {
  import opened Wrappers
  import opened Chains
  import opened ChainLoops

  /** Every signature a message carries is over the hash the message has now. */
  ghost predicate SignaturesBound<P>(t: seq<Msg<P>>) {
    forall i, k :: 0 <= i < |t| && t[i].signatures.Some? && 0 <= k < |t[i].signatures.value| ==>
      t[i].hash == Some(t[i].signatures.value[k].objectHash)
  }

  /** Rehashing a chain leaves it alone, signatures included. */
  lemma RelinkedChain<P>(h: Body<P> -> Digest, t: seq<Msg<P>>)
    requires IsChain(h, t)
    ensures Relinked(h, t) == t
  {
    forall i | 0 <= i < |t| ensures Relinked(h, t)[i] == t[i] {
      BareChain(h, t, i);
    }
  }

  lemma RelinkedAppend<P>(h: Body<P> -> Digest, t: seq<Msg<P>>, m: Msg<P>)
    requires IsChain(h, t)
    ensures Relinked(h, t + [m]) == t + [Link(h, Head(t), m.content).(signatures := m.signatures)]
  {
    RelinkedChain(h, t);
    var cs := Contents(t);
    assert Contents(t + [m]) == cs + [m.content];
    ChainAppend(h, cs, m.content);
    if t != [] {
      assert Relinked(h, t)[|t| - 1].hash == Chain(h, cs)[|t| - 1].hash;
    }
    forall i | 0 <= i < |t| ensures Relinked(h, t + [m])[i] == t[i] {
      assert Relinked(h, t)[i] == t[i];
    }
  }

  lemma AppendKeepsChain<P>(h: Body<P> -> Digest, t: seq<Msg<P>>, c: Content<P>)
    requires IsChain(h, t) && SignaturesBound(t)
    ensures IsChain(h, t + [Link(h, Head(t), c)]) && SignaturesBound(t + [Link(h, Head(t), c)])
  {
    var u := t + [Link(h, Head(t), c)];
    assert u[..|t|] == t;
    forall i | 0 <= i < |t| ensures u[..i] == t[..i] {
    }
  }

  class Builder<P> {
    const h: Body<P> -> Digest
    const session: string
    var messages: seq<Message<P>>

    ghost predicate Valid()
      reads this, messages
    {
      Distinct(messages) && IsChain(h, Views(messages)) && SignaturesBound(Views(messages))
    }

    constructor (h: Body<P> -> Digest, session: string)
      ensures Valid() && messages == [] && this.h == h && this.session == session
    {
      this.h, this.session, messages := h, session, [];
    }

    /** An empty sender counts as none, and then senders alternate by position. */
    function Sender(sender: Option<string>): string
      reads this
    {
      if sender.Some? && sender.value != "" then sender.value
      else if |messages| % 2 == 0 then "agent://alice" else "agent://bob"
    }

    /** Nothing that was there changes, signatures included; the new message is linked to the last one. */
    method Add(id: string, payload: P, sender: Option<string>) returns (message: Message<P>)
      requires Valid()
      modifies this, messages
      ensures Valid() && fresh(message) && messages == old(messages) + [message]
      ensures sender.Some? && sender.value != "" ==>
                message.content == Content(Some(session), Some(id), sender, payload)
      ensures (sender.None? || sender.value == "") && |old(messages)| % 2 == 0 ==>
                message.content == Content(Some(session), Some(id), Some("agent://alice"), payload)
      ensures (sender.None? || sender.value == "") && |old(messages)| % 2 == 1 ==>
                message.content == Content(Some(session), Some(id), Some("agent://bob"), payload)
      ensures Views(messages) == old(Views(messages))
              + [Link(h, Head(old(Views(messages))),
                      Content(Some(session), Some(id), Some(old(Sender(sender))), payload))]
    {
      ghost var t := Views(messages);
      var content := Content(Some(session), Some(id), Some(Sender(sender)), payload);
      var bare := Msg(content, None, None, None);
      message := new Message(bare);
      messages := messages + [message];
      assert Views(messages) == t + [bare];
      RehashInPlace(h, messages);
      RelinkedAppend(h, t, bare);
      AppendKeepsChain(h, t, content);
      assert Views(messages)[|t|] == message.View();
      assert message.content == content;
    }

    /** `sign_message`: one more signature, over the hash the message has. */
    method SignMessage(message: Message<P>, sign: Digest -> Signature, ghost i: nat)
      requires Valid() && i < |messages| && messages[i] == message
      requires forall d :: sign(d).objectHash == d
      modifies message
      ensures Valid() && message.hash.Some?
      ensures Views(messages) == old(Views(messages))[i := old(message.View()).(signatures :=
                Some((if old(message.signatures).Some? then old(message.signatures).value else [])
                     + [sign(message.hash.value)]))]
    {
      ghost var t := Views(messages);
      assert t[i] == message.View();
      var item := sign(if message.hash.Some? then message.hash.value else "");
      if message.signatures.None? {
        message.signatures := Some([]);
      }
      message.signatures := Some(message.signatures.value + [item]);
      ghost var u := Views(messages);
      assert u == t[i := message.View()];
      SignedStaysValid(h, t, i, message.View());
    }
  }

  lemma SignedStaysValid<P>(h: Body<P> -> Digest, t: seq<Msg<P>>, i: nat, m: Msg<P>)
    requires IsChain(h, t) && SignaturesBound(t) && i < |t| && m.(signatures := t[i].signatures) == t[i]
    requires m.signatures.Some?
             && forall k :: 0 <= k < |m.signatures.value| ==> m.hash == Some(m.signatures.value[k].objectHash)
    ensures IsChain(h, t[i := m]) && SignaturesBound(t[i := m])
  {
    var u := t[i := m];
    assert m.hash == t[i].hash && m.prev == t[i].prev && m.content == t[i].content;
    forall j | 0 <= j < |t| ensures u[j].hash == Some(h(u[j].Unsigned())) && u[j].prev == Head(u[..j]) {
      assert u[j].Unsigned() == t[j].Unsigned() && u[j].hash == t[j].hash;
      assert Head(u[..j]) == Head(t[..j]);
    }
  }
}
