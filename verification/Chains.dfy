/** Messages as values, and the hash chain every transcript builder computes.

    The hash is a parameter `h` of every definition; only the theorems that need it to be injective ask
    for that (`Injective`).  A message body is whatever `h` is applied to: the content, the previous
    message's hash and, where a loop forgets to remove them, the signatures. */
module Chains {
  import opened Wrappers

  type Digest = string

  datatype Signature = Signature(signer: Option<string>, kid: string, objectHash: Digest, value: string)

  /** The part of a message no rehashing loop touches; everything but the three fields the checkers read is in
      `payload`. */
  datatype Content<P> = Content(session: Option<string>, id: Option<string>, sender: Option<string>, payload: P)

  datatype Body<P> = Body(content: Content<P>, prev: Option<Digest>, signatures: Option<seq<Signature>>)

  datatype Msg<P> = Msg(content: Content<P>, prev: Option<Digest>, signatures: Option<seq<Signature>>,
                        hash: Option<Digest>)
  {
    /** The message without its `message_hash`. */
    function WithoutHash(): Body<P> { Body(content, prev, signatures) }

    /** The message without its `message_hash` and its `signatures`. */
    function Unsigned(): Body<P> { Body(content, prev, None) }
  }

  ghost predicate Injective<P(!new)>(h: Body<P> -> Digest) {
    forall a: Body<P>, b: Body<P> :: h(a) == h(b) ==> a == b
  }

  function Contents<P>(t: seq<Msg<P>>): (cs: seq<Content<P>>)
    ensures |cs| == |t|
  {
    seq(|t|, i requires 0 <= i < |t| => t[i].content)
  }

  /** The running `previous` after a loop has gone through `t`. */
  function Head<P>(t: seq<Msg<P>>): Option<Digest> {
    if t == [] then None else t[|t| - 1].hash
  }

  function Link<P>(h: Body<P> -> Digest, prev: Option<Digest>, c: Content<P>): Msg<P> {
    Msg(c, prev, None, Some(h(Body(c, prev, None))))
  }

  /** The one chain all builders compute: the first message has no `prev_msg_hash`, every later one carries
      the hash of the message before it. */
  function Chain<P>(h: Body<P> -> Digest, cs: seq<Content<P>>): (t: seq<Msg<P>>)
    ensures |t| == |cs|
  {
    if cs == [] then []
    else
      var init := Chain(h, cs[..|cs| - 1]);
      init + [Link(h, Head(init), cs[|cs| - 1])]
  }

  /** What it means, message by message, to be such a chain. */
  ghost predicate IsChain<P>(h: Body<P> -> Digest, t: seq<Msg<P>>) {
    forall i :: 0 <= i < |t| ==>
      t[i].hash == Some(h(t[i].Unsigned())) && t[i].prev == Head(t[..i])
  }

  lemma {:induction false} ChainPrefix<P>(h: Body<P> -> Digest, cs: seq<Content<P>>, k: nat)
    requires k <= |cs|
    ensures Chain(h, cs)[..k] == Chain(h, cs[..k])
  {
    if k == |cs| {
      assert cs[..k] == cs;
    } else {
      var front := cs[..|cs| - 1];
      ChainPrefix(h, front, k);
      assert front[..k] == cs[..k];
      assert Chain(h, cs)[..k] == Chain(h, front)[..k];
    }
  }

  lemma {:induction false} ChainAt<P>(h: Body<P> -> Digest, cs: seq<Content<P>>, i: nat)
    requires i < |cs|
    ensures Chain(h, cs)[i] == Link(h, Head(Chain(h, cs)[..i]), cs[i])
  {
    ChainPrefix(h, cs, i + 1);
    ChainPrefix(h, cs, i);
    assert cs[..i + 1][..i] == cs[..i];
    assert Chain(h, cs)[..i + 1][i] == Chain(h, cs)[i];
  }

  /** The chain of `cs` is the only unsigned transcript with these contents that is a chain. */
  lemma ChainUnique<P>(h: Body<P> -> Digest, t: seq<Msg<P>>)
    ensures (IsChain(h, t) && forall i :: 0 <= i < |t| ==> t[i].signatures == None)
       <==> t == Chain(h, Contents(t))
  {
    var c := Chain(h, Contents(t));
    forall i | 0 <= i < |t| ensures c[i] == Link(h, Head(c[..i]), t[i].content) {
      ChainAt(h, Contents(t), i);
    }
    if IsChain(h, t) && forall i :: 0 <= i < |t| ==> t[i].signatures == None {
      forall i | 0 <= i < |t| ensures t[i] == c[i] {
        ChainUniqueAt(h, t, i);
      }
    }
  }

  lemma ChainUniqueAt<P>(h: Body<P> -> Digest, t: seq<Msg<P>>, i: nat)
    requires i < |t|
    requires IsChain(h, t) && forall i :: 0 <= i < |t| ==> t[i].signatures == None
    ensures t[i] == Chain(h, Contents(t))[i]
  {
    ChainAt(h, Contents(t), i);
    if i == 0 {
    } else {
      ChainUniqueAt(h, t, i - 1);
    }
  }

  /** Signatures aside, a chain is the chain of its contents. */
  lemma BareChain<P>(h: Body<P> -> Digest, t: seq<Msg<P>>, i: nat)
    requires IsChain(h, t) && i < |t|
    ensures t[i].(signatures := None) == Chain(h, Contents(t))[i]
  {
    var bare := seq(|t|, k requires 0 <= k < |t| => t[k].(signatures := None));
    assert Contents(bare) == Contents(t);
    forall k | 0 <= k < |t| ensures bare[k].hash == Some(h(bare[k].Unsigned())) && bare[k].prev == Head(bare[..k]) {
      assert Head(bare[..k]) == Head(t[..k]);
    }
    ChainUnique(h, bare);
  }

  /** Rehashing never changes contents, so rehashing a chain gives it back. */
  lemma {:induction false} ChainIdempotent<P>(h: Body<P> -> Digest, cs: seq<Content<P>>)
    ensures Contents(Chain(h, cs)) == cs
    ensures Chain(h, Contents(Chain(h, cs))) == Chain(h, cs)
  {
    forall i | 0 <= i < |cs| ensures Chain(h, cs)[i].content == cs[i] {
      ChainAt(h, cs, i);
    }
    assert Contents(Chain(h, cs)) == cs;
  }

  /** The hash of message `i`. */
  function HashAt<P>(h: Body<P> -> Digest, cs: seq<Content<P>>, i: nat): Option<Digest>
    requires i < |cs|
  {
    Chain(h, cs)[i].hash
  }

  /** Hash `i` depends only on the contents up to `i`... */
  lemma {:induction false} HashOfPrefix<P>(h: Body<P> -> Digest, cs: seq<Content<P>>, ds: seq<Content<P>>, i: nat)
    requires i < |cs| && i < |ds|
    requires cs[..i + 1] == ds[..i + 1]
    ensures Chain(h, cs)[..i + 1] == Chain(h, ds)[..i + 1]
    ensures HashAt(h, cs, i) == HashAt(h, ds, i)
  {
    ChainPrefix(h, cs, i + 1);
    ChainPrefix(h, ds, i + 1);
    assert Chain(h, cs)[i] == Chain(h, cs)[..i + 1][i];
    assert Chain(h, ds)[i] == Chain(h, ds)[..i + 1][i];
  }

  /** ... and, when the hash is injective, it names that whole history: also at different positions, two hashes are
      equal exactly when everything up to them is. */
  lemma HashNamesHistory<P(!new)>(
                           h: Body<P> -> Digest, cs: seq<Content<P>>, i: nat, ds: seq<Content<P>>, j: nat)
    requires Injective(h)
    requires i < |cs| && j < |ds|
    ensures HashAt(h, cs, i) == HashAt(h, ds, j) <==> cs[..i + 1] == ds[..j + 1]
  {
    if HashAt(h, cs, i) == HashAt(h, ds, j) {
      ChainAt(h, cs, i);
      ChainAt(h, ds, j);
      if i > 0 { ChainAt(h, cs, i - 1); }
      if j > 0 { ChainAt(h, ds, j - 1); }
      assert Body(cs[i], Head(Chain(h, cs)[..i]), None) == Body(ds[j], Head(Chain(h, ds)[..j]), None);
      if i > 0 && j > 0 {
        HashNamesHistory(h, cs, i - 1, ds, j - 1);
      }
      assert cs[..i + 1] == cs[..i] + [cs[i]] && ds[..j + 1] == ds[..j] + [ds[j]];
    }
    if cs[..i + 1] == ds[..j + 1] {
      assert |cs[..i + 1]| == |ds[..j + 1]|;
      HashOfPrefix(h, cs, ds, i);
    }
  }

  /** Appending one message leaves every earlier message as it was. */
  lemma {:induction false} ChainAppend<P>(h: Body<P> -> Digest, cs: seq<Content<P>>, c: Content<P>)
    ensures Chain(h, cs + [c]) == Chain(h, cs) + [Link(h, Head(Chain(h, cs)), c)]
  {
    assert (cs + [c])[..|cs + [c]| - 1] == cs;
  }

  /** The chain with the messages named by `ids` signed by their sender over their own hash. */
  function Sealed<P>(h: Body<P> -> Digest, sign: (Digest, Option<string>) -> Signature,
                     ids: set<Option<string>>, cs: seq<Content<P>>): (t: seq<Msg<P>>)
    ensures |t| == |cs|
  {
    var c := Chain(h, cs);
    seq(|cs|, i requires 0 <= i < |cs| => Seal(sign, c[i].content.id in ids, c[i]))
  }

  function Seal<P>(sign: (Digest, Option<string>) -> Signature, signed: bool, m: Msg<P>): Msg<P> {
    if signed && m.hash.Some? then m.(signatures := Some([sign(m.hash.value, m.content.sender)]))
    else m.(signatures := None)
  }

  /** It is the only chain with these contents on which exactly the named messages carry a signature: one, by their
      sender, over their own hash. */
  lemma SealedExact<P>(h: Body<P> -> Digest, sign: (Digest, Option<string>) -> Signature, ids: set<Option<string>>,
                       cs: seq<Content<P>>, t: seq<Msg<P>>)
    ensures t == Sealed(h, sign, ids, cs) <==>
      && IsChain(h, t) && Contents(t) == cs
      && forall i :: 0 <= i < |t| ==>
           && t[i].hash.Some?
           && t[i].signatures
              == if t[i].content.id in ids then Some([sign(t[i].hash.value, t[i].content.sender)]) else None
  {
    var c, goal := Chain(h, cs), Sealed(h, sign, ids, cs);
    forall i | 0 <= i < |cs|
      ensures goal[i].(signatures := None) == c[i] && c[i].content == cs[i] && c[i].hash.Some?
      ensures c[i].hash == Some(h(c[i].Unsigned())) && c[i].prev == Head(c[..i])
    {
      ChainAt(h, cs, i);
    }
    BareIsChain(h, goal, c);
    assert Contents(goal) == cs;
    if IsChain(h, t) && Contents(t) == cs {
      forall i | 0 <= i < |t| ensures t[i].(signatures := None) == c[i] {
        BareChain(h, t, i);
      }
      assert |t| == |cs|;
    }
  }

  lemma BareIsChain<P>(h: Body<P> -> Digest, t: seq<Msg<P>>, c: seq<Msg<P>>)
    requires |t| == |c| && IsChain(h, c) && forall i :: 0 <= i < |t| ==> t[i].(signatures := None) == c[i]
    ensures IsChain(h, t)
  {
    forall i | 0 <= i < |t| ensures t[i].hash == Some(h(t[i].Unsigned())) && t[i].prev == Head(t[..i]) {
      assert t[i].(signatures := None).Unsigned() == t[i].Unsigned();
      assert t[i].(signatures := None).hash == t[i].hash && t[i].(signatures := None).prev == t[i].prev;
      if i > 0 {
        assert t[i - 1].(signatures := None).hash == t[i - 1].hash;
        assert Head(t[..i]) == t[i - 1].hash && Head(c[..i]) == c[i - 1].hash;
      }
    }
  }
}
