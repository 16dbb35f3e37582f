/** End-of-line normalization of text files before hashing. */
module Newlines {
  import opened ByteStrings

  const CR: byte := 13
  const LF: byte := 10

  /** `replace(b"\r\n", b"\n")`. */
  function CrlfToLf(s: Bytes): Bytes {
    if |s| < 2 then s
    else if s[0] == CR && s[1] == LF then [LF] + CrlfToLf(s[2..])
    else [s[0]] + CrlfToLf(s[1..])
  }

  /** `replace(b"\r", b"\n")`. */
  function CrToLf(s: Bytes): (r: Bytes)
    ensures |r| == |s|
  {
    if s == [] then [] else [if s[0] == CR then LF else s[0]] + CrToLf(s[1..])
  }

  /** The two replacements one after the other, as the source writes them. */
  function Normalize(s: Bytes): Bytes { CrToLf(CrlfToLf(s)) }

  /** One pass: CRLF, CR and LF all end a line. */
  function OnePass(s: Bytes): Bytes {
    if s == [] then []
    else if s[0] == CR then [LF] + OnePass(if |s| > 1 && s[1] == LF then s[2..] else s[1..])
    else [s[0]] + OnePass(s[1..])
  }

  /** How one line end may be written out: as it is, as CRLF or as CR. */
  datatype Ending = Keep | Crlf | Cr

  /** `s` with each LF written as its entry in `e` says; entries of other bytes mean nothing. */
  function Rewritten(s: Bytes, e: seq<Ending>): Bytes
    requires |e| == |s|
  {
    if s == [] then []
    else
      (if s[0] != LF then [s[0]] else match e[0] case Keep => [LF] case Crlf => [CR, LF] case Cr => [CR])
      + Rewritten(s[1..], e[1..])
  }

  /** Somewhere an LF written as CR is directly followed by one that is kept, so that the two read as one CRLF. */
  predicate Merges(s: Bytes, e: seq<Ending>)
    requires |e| == |s|
  {
    |s| > 1 && ((s[0] == LF == s[1] && e[0].Cr? && e[1].Keep?) || Merges(s[1..], e[1..]))
  }

  lemma {:induction false} CrToLfCons(b: byte, s: Bytes)
    ensures CrToLf([b] + s) == [if b == CR then LF else b] + CrToLf(s)
  {
    assert ([b] + s)[1..] == s;
  }

  lemma {:induction false} NormalizeIsOnePass(s: Bytes)
    ensures Normalize(s) == OnePass(s)
  {
    if |s| >= 2 {
      if s[0] == CR && s[1] == LF {
        NormalizeIsOnePass(s[2..]);
        CrToLfCons(LF, CrlfToLf(s[2..]));
      } else {
        NormalizeIsOnePass(s[1..]);
        CrToLfCons(s[0], CrlfToLf(s[1..]));
      }
    } else if |s| == 1 {
      assert s[1..] == [];
      assert CrToLf(s) == [if s[0] == CR then LF else s[0]] + CrToLf([]);
    }
  }

  lemma {:induction false} OnePassNoCr(s: Bytes)
    ensures CR !in OnePass(s)
  {
    if s == [] {
    } else {
      if s[0] == CR {
        OnePassNoCr(if |s| > 1 && s[1] == LF then s[2..] else s[1..]);
      } else {
        OnePassNoCr(s[1..]);
      }
    }
  }

  lemma {:induction false} OnePassKeeps(s: Bytes)
    requires CR !in s
    ensures OnePass(s) == s
  {
    if s == [] {
    } else {
      OnePassKeeps(s[1..]);
      assert s == [s[0]] + s[1..];
    }
  }

  /** Normalized text is exactly text without carriage returns; so normalizing twice is normalizing once. */
  lemma NormalizeFixes(s: Bytes)
    ensures Normalize(s) == s <==> CR !in s
    ensures Normalize(Normalize(s)) == Normalize(s)
  {
    NormalizeIsOnePass(s);
    NormalizeIsOnePass(Normalize(s));
    OnePassNoCr(s);
    OnePassKeeps(Normalize(s));
    if CR !in s {
      OnePassKeeps(s);
    }
  }

  /** Reading back rewritten text gives it back unless two line ends merge, and then something shorter. */
  lemma {:induction false} OnePassOfRewritten(s: Bytes, e: seq<Ending>)
    requires CR !in s && |e| == |s|
    ensures !Merges(s, e) ==> OnePass(Rewritten(s, e)) == s
    ensures Merges(s, e) ==> |OnePass(Rewritten(s, e))| < |s|
  {
    if s == [] {
    } else {
      var rest := Rewritten(s[1..], e[1..]);
      OnePassOfRewritten(s[1..], e[1..]);
      assert s == [s[0]] + s[1..];
      RewrittenStart(s[1..], e[1..]);
      if s[0] != LF || e[0].Keep? {
        assert ([s[0]] + rest)[1..] == rest;
      } else if e[0].Crlf? {
        assert ([CR, LF] + rest)[2..] == rest;
      } else if rest != [] && rest[0] == LF {
        OnePassOfRewritten(s[2..], e[2..]);
        assert s[1..][1..] == s[2..] && e[1..][1..] == e[2..];
        assert ([CR] + rest)[2..] == Rewritten(s[2..], e[2..]);
      } else {
        assert ([CR] + rest)[1..] == rest;
      }
    }
  }

  lemma {:induction false} RewrittenStart(s: Bytes, e: seq<Ending>)
    requires CR !in s && |e| == |s|
    ensures Rewritten(s, e) == [] <==> s == []
    ensures s != [] ==> (Rewritten(s, e)[0] == LF <==> s[0] == LF && e[0].Keep?)
    ensures s != [] && s[0] == LF && e[0].Keep? ==> Rewritten(s, e)[1..] == Rewritten(s[1..], e[1..])
  {
    if s != [] && s[0] == LF && e[0].Keep? {
      assert ([LF] + Rewritten(s[1..], e[1..]))[1..] == Rewritten(s[1..], e[1..]);
    }
  }

  /** Normalized text written out again, each line end as one likes, normalizes to itself exactly when no line end
      written as CR is directly followed by one kept as LF. */
  lemma {:induction false} NormalizeCheckout(s: Bytes, e: seq<Ending>)
    requires |e| == |Normalize(s)|
    ensures Normalize(Rewritten(Normalize(s), e)) == Normalize(s) <==> !Merges(Normalize(s), e)
  {
    NormalizeIsOnePass(s);
    OnePassNoCr(s);
    OnePassOfRewritten(Normalize(s), e);
    NormalizeIsOnePass(Rewritten(Normalize(s), e));
  }

  /** Two line ends merge: the first written as CR, the second kept. */
  lemma MixedEndsMerge()
    ensures Normalize(Rewritten([LF, LF], [Cr, Keep])) != [LF, LF] == Normalize([LF, LF])
  {
    NormalizeFixes([LF, LF]);
    NormalizeCheckout([LF, LF], [Cr, Keep]);
  }

  /** How the line ends of `s` are written. */
  function EndsOf(s: Bytes): seq<Ending> {
    if s == [] then []
    else if s[0] == CR && |s| > 1 && s[1] == LF then [Crlf] + EndsOf(s[2..])
    else [if s[0] == CR then Cr else Keep] + EndsOf(s[1..])
  }

  lemma {:induction false} EndingInFront(c: byte, x: Ending, t: Bytes, e: seq<Ending>)
    requires |e| == |t|
    ensures Rewritten([c] + t, [x] + e)
         == (if c != LF then [c] else match x case Keep => [LF] case Crlf => [CR, LF] case Cr => [CR]) + Rewritten(t, e)
    ensures Merges([c] + t, [x] + e)
       <==> (t != [] && c == LF == t[0] && x.Cr? && e[0].Keep?) || Merges(t, e)
  {
    assert ([c] + t)[1..] == t && ([x] + e)[1..] == e;
  }

  lemma {:induction false} FirstEnding(s: Bytes)
    requires s != []
    ensures OnePass(s) != [] && EndsOf(s) != [] && (EndsOf(s)[0].Keep? <==> s[0] != CR)
    ensures OnePass(s)[0] == if s[0] == CR then LF else s[0]
  {
  }

  /** Every text is its normal form written out so, without merging; so two texts have one normal form exactly when they
      are two such writings of it. */
  lemma {:induction false} EndsRewrite(s: Bytes)
    ensures |EndsOf(s)| == |OnePass(s)| && Rewritten(OnePass(s), EndsOf(s)) == s && !Merges(OnePass(s), EndsOf(s))
  {
    if s == [] {
    } else {
      var crlf := s[0] == CR && |s| > 1 && s[1] == LF;
      var rest := if crlf then s[2..] else s[1..];
      EndsRewrite(rest);
      EndingInFront(if s[0] == CR then LF else s[0], if crlf then Crlf else if s[0] == CR then Cr else Keep,
                    OnePass(rest), EndsOf(rest));
      if rest != [] {
        FirstEnding(rest);
      }
      assert s == (if crlf then [CR, LF] else [s[0]]) + rest;
    }
  }

  lemma SameNormalForm(s: Bytes, t: Bytes)
    ensures Normalize(t) == Normalize(s) <==>
            exists e :: |e| == |Normalize(s)| && !Merges(Normalize(s), e) && t == Rewritten(Normalize(s), e)
  {
    NormalizeIsOnePass(s);
    NormalizeIsOnePass(t);
    EndsRewrite(t);
    forall e | |e| == |Normalize(s)| ensures Normalize(Rewritten(Normalize(s), e)) == Normalize(s)
      <==> !Merges(Normalize(s), e) {
      NormalizeCheckout(s, e);
    }
  }

  /** The other way round the replacements would not do: they make two lines of one. */
  lemma LineEnds()
    ensures Normalize([97, 13, 10, 98, 13, 99, 10]) == [97, 10, 98, 10, 99, 10]
  {
    var s: Bytes := [97, 13, 10, 98, 13, 99, 10];
    NormalizeIsOnePass(s);
    assert s[1..] == [13, 10, 98, 13, 99, 10] && s[1..][2..] == [98, 13, 99, 10];
    assert OnePass([98, 13, 99, 10]) == [98] + OnePass([13, 99, 10]) by {
      assert [98, 13, 99, 10 as byte][1..] == [13, 99, 10];
    }
    assert OnePass([13, 99, 10]) == [10] + OnePass([99, 10]) by {
      assert [13, 99, 10 as byte][1..] == [99, 10];
    }
    assert [99, 10 as byte][1..] == [10] && [10 as byte][1..] == [];
  }

  lemma OrderMatters()
    ensures CrlfToLf(CrToLf([CR, LF])) == [LF, LF] != Normalize([CR, LF])
  {
    assert [CR, LF][1..] == [LF] && [LF][1..] == [] && [CR, LF][2..] == [];
    assert CrToLf([LF]) == [LF] + CrToLf([]);
    assert CrToLf([CR, LF]) == [LF, LF];
    assert CrlfToLf([CR, LF]) == [LF] + CrlfToLf([]) == [LF];
    assert [LF, LF][1..] == [LF];
    assert CrlfToLf([LF, LF]) == [LF] + CrlfToLf([LF]);
  }
}
