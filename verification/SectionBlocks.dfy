/** Several generated sections in one document: they do not disturb each other. */
module SectionBlocks {
  import opened Wrappers
  import opened Sections

  ghost predicate Before(text: string, a: Section, b: Section) {
    && Locate(text, a).Some? && Locate(text, b).Some?
    && Locate(text, a).value.finish + |a.end| <= Locate(text, b).value.start
  }

  ghost predicate Apart(text: string, a: Section, b: Section) {
    Before(text, a, b) || Before(text, b, a)
  }

  lemma PartAgrees(t: string, u: string, i: nat, end: nat, d: int, x: nat, y: nat)
    requires Agree(t, u, i, end, d) && i <= x <= y <= end
    ensures t[x..y] == u[x + d..y + d]
  {
    SamePoints(t, i, u, i + d, end - i);
    SamePoints(t, x, u, x + d, y - x);
    SameSlices(t, x, u, x + d, y - x);
  }

  /** A section before the one written stays where and what it was. */
  lemma EarlierStays(text: string, u: string, a: Section, span: Span, c: string, b: Section)
    requires Before(text, b, a) && Locate(text, a) == Some(span)
    requires Written(text, u, span.start + |a.begin|, c, span.finish)
    ensures Locate(u, b) == Locate(text, b) && Extract(u, b) == Extract(text, b)
  {
    InFront(text, u, b, Locate(text, b).value, span.start + |a.begin|);
  }

  /** A section in a part of the text that did not change. */
  lemma InFront(text: string, u: string, b: Section, other: Span, k: nat)
    requires Agree(text, u, 0, k, 0) && Locate(text, b) == Some(other) && other.finish + |b.end| <= k
    ensures Locate(u, b) == Locate(text, b) && Extract(u, b) == Extract(text, b)
  {
    FindAgrees(text, u, b.begin, 0, k);
    FindAgrees(text, u, b.end, other.start + |b.begin|, k);
    PartAgrees(text, u, 0, k, 0, other.start + |b.begin|, other.finish);
  }

  /** A section after the one written moves with the text exactly when the content written does not hold its begin
      marker; otherwise it now seems to start in that content. */
  lemma LaterMoves(text: string, u: string, a: Section, span: Span, c: string, b: Section)
    requires Proper(b) && Before(text, a, b) && Locate(text, a) == Some(span)
    requires Written(text, u, span.start + |a.begin|, c, span.finish)
    ensures var other, d := Locate(text, b).value, span.start + |a.begin| + |c| + 2 - span.finish;
      && other.start + d >= 0 && Locate(u, b).Some?
      && (Locate(u, b).value == Span(other.start + d, other.finish + d) <==> !Occurs(b.begin, c))
      && (!Occurs(b.begin, c) ==> Extract(u, b) == Extract(text, b))
      && (Occurs(b.begin, c) ==> Locate(u, b).value.start < span.start + |a.begin| + 1 + |c|)
  {
    if Occurs(b.begin, c) {
      LaterHidden(text, u, span.start + |a.begin|, c, span.finish, b, Locate(text, b).value);
    } else {
      BeginMoves(text, u, span.start + |a.begin|, c, span.finish, b.begin);
      Shifted(text, u, b, Locate(text, b).value, span.finish, span.start + |a.begin| + |c| + 2 - span.finish);
    }
  }

  /** A section in a part of the text that moved as a whole. */
  lemma {:induction false} Shifted(text: string, u: string, b: Section, other: Span, f: nat, d: int)
    requires Agree(text, u, f, |text|, d) && |u| == |text| + d
    requires Locate(text, b) == Some(other) && f <= other.start && Find(u, b.begin, 0) == Some(other.start + d)
    ensures Locate(u, b) == Some(Span(other.start + d, other.finish + d)) && Extract(u, b) == Extract(text, b)
  {
    FindMoves(text, u, b.end, f, d, other.start + |b.begin|);
    PartAgrees(text, u, f, |text|, d, other.start + |b.begin|, other.finish);
  }

  /** A section whose begin marker is met earlier, in the content written. */
  lemma LaterHidden(text: string, u: string, k: nat, c: string, f: nat, b: Section, other: Span)
    requires Written(text, u, k, c, f) && OneLine(b.begin) && Occurs(b.begin, c)
    requires Locate(text, b) == Some(other) && f <= other.start
    ensures Locate(u, b).Some? && Locate(u, b).value.start < k + 1 + |c|
  {
    BeginInContent(text, u, k, c, f, b.begin);
    FindFirst(text, b.end, other.start + |b.begin|);
    EndStays(text, u, b.end, other.finish, f, k + |c| + 2 - f, k + 1 + Find(c, b.begin, 0).value + |b.begin|);
  }

  /** An end marker of the old text is still there for a search that starts before it. */
  lemma {:induction false} EndStays(text: string, u: string, pat: string, i: nat, f: nat, d: int, from: nat)
    requires Agree(text, u, f, |text|, d) && f <= i && At(text, pat, i) && from <= i + d
    ensures Find(u, pat, from).Some?
  {
    AtAgrees(text, u, pat, f, |text|, d, i);
    FindFirst(u, pat, from);
  }

  lemma {:induction false} NoneAhead(text: string, u: string, b: nat, c: string, f: nat, pat: string)
    requires Written(text, u, b, c, f) && OneLine(pat) && Find(text, pat, 0).Some? && Find(text, pat, 0).value >= f
    ensures forall i :: 0 <= i < b ==> !At(u, pat, i)
  {
    FindFirst(text, pat, 0);
    forall i | 0 <= i < b ensures !At(u, pat, i) {
      if At(u, pat, i) {
        NotAcross(u, pat, i, b);
        AtAgrees(text, u, pat, 0, b, 0, i);
      }
    }
  }

  /** The first occurrence of a pattern that stands only behind the content written... */
  lemma {:induction false} BeginMoves(text: string, u: string, k: nat, c: string, f: nat, pat: string)
    requires Written(text, u, k, c, f) && OneLine(pat) && !Occurs(pat, c)
    requires Find(text, pat, 0).Some? && Find(text, pat, 0).value >= f
    ensures Find(u, pat, 0) == Some(Find(text, pat, 0).value + (k + |c| + 2 - f))
  {
    NoneAhead(text, u, k, c, f, pat);
    FindSkips(u, pat, 0, k);
    FindFirst(text, pat, 0);
    FindSkips(text, pat, 0, f);
    FindBehind(text, u, k, c, f, pat);
  }

  /** ... and of one that stands in it. */
  lemma {:induction false} BeginInContent(text: string, u: string, k: nat, c: string, f: nat, pat: string)
    requires Written(text, u, k, c, f) && OneLine(pat) && Occurs(pat, c)
    requires Find(text, pat, 0).Some? && Find(text, pat, 0).value >= f
    ensures Find(c, pat, 0).Some? && Find(u, pat, 0) == Some(k + 1 + Find(c, pat, 0).value)
  {
    FoundIffOccurs(c, pat);
    NoneAhead(text, u, k, c, f, pat);
    FindSkips(u, pat, 0, k);
    FindInContent(text, u, k, c, f, pat, Find(c, pat, 0).value);
  }

  // ---- when the order of two writes does not matter

  /** Two contents written in either order, all writes succeeding. */
  predicate SameEitherWay(text: string, a: Section, contentA: string, b: Section, contentB: string) {
    var ta, tb := Replace(text, a, contentA), Replace(text, b, contentB);
    && ta.Ok? && tb.Ok?
    && Replace(ta.value, b, contentB).Ok? && Replace(ta.value, b, contentB) == Replace(tb.value, a, contentA)
  }

  /** Of two sections that lie apart, the order in which they are written does not matter, whatever is written to the
      later one, exactly when what is written to the earlier one does not hold the begin marker of the later. */
  lemma ReplaceCommutes(text: string, a: Section, b: Section, contentA: string)
    requires Proper(a) && Proper(b) && Before(text, a, b)
    ensures (forall contentB :: SameEitherWay(text, a, contentA, b, contentB))
            <==> !Occurs(b.begin, TrimRight(contentA))
  {
    if Occurs(b.begin, TrimRight(contentA)) {
      TrimLetter('x');
      TrimLetter('y');
      if SameEitherWay(text, a, contentA, b, "x") && SameEitherWay(text, a, contentA, b, "y") {
        LetterSeen(text, a, b, contentA, 'x');
        LetterSeen(text, a, b, contentA, 'y');
      }
    } else {
      forall contentB ensures SameEitherWay(text, a, contentA, b, contentB) {
        EitherWay(text, a, b, contentA, contentB);
      }
    }
  }

  /** The content of section `s` goes between `b` and `f`. */
  ghost predicate Opened(text: string, s: Section, b: nat, f: nat) {
    |s.begin| <= b && Locate(text, s) == Some(Span(b - |s.begin|, f))
  }

  lemma EitherWay(text: string, a: Section, b: Section, contentA: string, contentB: string)
    requires Proper(a) && Proper(b) && Before(text, a, b) && !Occurs(b.begin, TrimRight(contentA))
    ensures SameEitherWay(text, a, contentA, b, contentB)
  {
    var sa, sb := Locate(text, a).value, Locate(text, b).value;
    EitherWayAt(text, a, b, contentA, contentB, sa.start + |a.begin|, sa.finish, sb.start + |b.begin|, sb.finish);
  }

  lemma EitherWayAt(text: string, a: Section, b: Section, contentA: string, contentB: string,
                    b1: nat, f1: nat, b2: nat, f2: nat)
    requires OneLine(b.begin) && Opened(text, a, b1, f1) && Opened(text, b, b2, f2) && f1 + |a.end| + |b.begin| <= b2
    requires !Occurs(b.begin, TrimRight(contentA))
    ensures SameEitherWay(text, a, contentA, b, contentB)
  {
    var ta, tb, tab :=
      BothOrders(text, a, b, contentA, contentB, b1, TrimRight(contentA), f1, b2, TrimRight(contentB), f2);
    AllWritten(text, a, contentA, b, contentB, ta, tb, tab, tab);
  }

  lemma BothOrders(text: string, a: Section, b: Section, contentA: string, contentB: string,
                   b1: nat, c1: string, f1: nat, b2: nat, c2: string, f2: nat)
      returns (ta: string, tb: string, tab: string)
    requires OneLine(b.begin) && Opened(text, a, b1, f1) && Opened(text, b, b2, f2) && f1 + |a.end| + |b.begin| <= b2
    requires c1 == TrimRight(contentA) && c2 == TrimRight(contentB) && !Occurs(b.begin, c1)
    ensures Replace(text, a, contentA) == Ok(ta) && Replace(text, b, contentB) == Ok(tb)
    ensures Replace(ta, b, contentB) == Ok(tab) && Replace(tb, a, contentA) == Ok(tab)
  {
    ta := WriteIn(text, a, contentA, b1, c1, f1);
    tb := WriteIn(text, b, contentB, b2, c2, f2);
    tab := ThenLater(text, ta, b1, c1, f1, b, contentB, b2, c2, f2);
    var tba := ThenEarlier(text, tb, b2, c2, f2, a, contentA, b1, c1, f1);
    WritesCommute(text, ta, tb, tab, tba, b1, c1, f1, b2, c2, f2);
  }

  lemma WriteIn(text: string, s: Section, content: string, b: nat, c: string, f: nat) returns (u: string)
    requires Opened(text, s, b, f) && c == TrimRight(content)
    ensures Replace(text, s, content) == Ok(u) && Written(text, u, b, c, f)
  {
    Replaced(text, s, content);
    u := Replace(text, s, content).value;
  }

  lemma ThenLater(text: string, ta: string, b1: nat, c1: string, f1: nat,
                  b: Section, contentB: string, b2: nat, c2: string, f2: nat) returns (tab: string)
    requires Written(text, ta, b1, c1, f1) && Opened(text, b, b2, f2) && f1 + |b.begin| <= b2
    requires OneLine(b.begin) && !Occurs(b.begin, c1) && c2 == TrimRight(contentB)
    ensures Replace(ta, b, contentB) == Ok(tab)
    ensures var d := b1 + |c1| + 2 - f1; b2 + d >= 0 && f2 + d >= 0 && Written(ta, tab, b2 + d, c2, f2 + d)
  {
    var d := b1 + |c1| + 2 - f1;
    BeginMoves(text, ta, b1, c1, f1, b.begin);
    Shifted(text, ta, b, Span(b2 - |b.begin|, f2), f1, d);
    tab := WriteIn(ta, b, contentB, b2 + d, c2, f2 + d);
  }

  lemma ThenEarlier(text: string, tb: string, b2: nat, c2: string, f2: nat,
                    a: Section, contentA: string, b1: nat, c1: string, f1: nat) returns (tba: string)
    requires Written(text, tb, b2, c2, f2) && Opened(text, a, b1, f1) && f1 + |a.end| <= b2
    requires c1 == TrimRight(contentA)
    ensures Replace(tb, a, contentA) == Ok(tba) && Written(tb, tba, b1, c1, f1)
  {
    InFront(text, tb, a, Span(b1 - |a.begin|, f1), b2);
    tba := WriteIn(tb, a, contentA, b1, c1, f1);
  }

  lemma AllWritten(text: string, a: Section, contentA: string, b: Section, contentB: string,
                   ta: string, tb: string, tab: string, tba: string)
    requires Replace(text, a, contentA) == Ok(ta) && Replace(text, b, contentB) == Ok(tb)
    requires Replace(ta, b, contentB) == Ok(tab) && Replace(tb, a, contentA) == Ok(tba)
    ensures SameEitherWay(text, a, contentA, b, contentB) <==> tab == tba
  {
  }

  lemma WritesCommute(text: string, ta: string, tb: string, tab: string, tba: string,
                      b1: nat, c1: string, f1: nat, b2: nat, c2: string, f2: nat)
    requires f1 <= b2 && Written(text, ta, b1, c1, f1) && Written(text, tb, b2, c2, f2)
    requires var d := b1 + |c1| + 2 - f1; b2 + d >= 0 && f2 + d >= 0 && Written(ta, tab, b2 + d, c2, f2 + d)
    requires Written(tb, tba, b1, c1, f1)
    ensures tab == tba
  {
    forall k | 0 <= k < |tab| ensures tab[k] == tba[k] {
      FirstThenSecond(text, ta, tab, b1, c1, f1, b2, c2, f2, k);
      SecondThenFirst(text, tb, tba, b1, c1, f1, b2, c2, f2, k);
    }
  }

  /** The character at `k` when `c1` and, behind it, `c2` are written. */
  function TwoWrites(text: string, b1: nat, c1: string, f1: nat, b2: nat, c2: string, f2: nat, k: nat): char
    requires b1 <= f1 <= b2 <= f2 <= |text| && k < |text| + (b1 + |c1| + 2 - f1) + (b2 + |c2| + 2 - f2)
  {
    var d := b1 + |c1| + 2 - f1;
    if k < b1 then text[k]
    else if k == b1 || k == b1 + 1 + |c1| then '\n'
    else if k < b1 + 1 + |c1| then c1[k - (b1 + 1)]
    else if k < b2 + d then text[k - d]
    else if k == b2 + d || k == b2 + d + 1 + |c2| then '\n'
    else if k < b2 + d + 1 + |c2| then c2[k - (b2 + d + 1)]
    else text[k - d - (b2 + |c2| + 2 - f2)]
  }

  lemma FirstThenSecond(text: string, ta: string, tab: string,
                        b1: nat, c1: string, f1: nat, b2: nat, c2: string, f2: nat, k: nat)
    requires f1 <= b2 && Written(text, ta, b1, c1, f1)
    requires var d := b1 + |c1| + 2 - f1;
      b2 + d >= 0 && f2 + d >= 0 && Written(ta, tab, b2 + d, c2, f2 + d) && b2 <= f2 <= |text|
    requires k < |tab|
    ensures |tab| == |text| + (b1 + |c1| + 2 - f1) + (b2 + |c2| + 2 - f2)
    ensures tab[k] == TwoWrites(text, b1, c1, f1, b2, c2, f2, k)
  {
    var d, e := b1 + |c1| + 2 - f1, b2 + |c2| + 2 - f2;
    WrittenAt(ta, tab, b2 + d, c2, f2 + d, k);
    if k < b2 + d {
      WrittenAt(text, ta, b1, c1, f1, k);
    } else if k >= b2 + d + |c2| + 2 {
      WrittenAt(text, ta, b1, c1, f1, k - e);
    }
  }

  lemma SecondThenFirst(text: string, tb: string, tba: string,
                        b1: nat, c1: string, f1: nat, b2: nat, c2: string, f2: nat, k: nat)
    requires f1 <= b2 && Written(text, tb, b2, c2, f2) && Written(tb, tba, b1, c1, f1) && k < |tba|
    ensures |tba| == |text| + (b1 + |c1| + 2 - f1) + (b2 + |c2| + 2 - f2)
    ensures tba[k] == TwoWrites(text, b1, c1, f1, b2, c2, f2, k)
  {
    var d := b1 + |c1| + 2 - f1;
    WrittenAt(tb, tba, b1, c1, f1, k);
    if k < b1 {
      WrittenAt(text, tb, b2, c2, f2, k);
    } else if k >= b1 + |c1| + 2 {
      WrittenAt(text, tb, b2, c2, f2, k - d);
    }
  }

  // ---- when the earlier content holds the later begin marker

  lemma TrimLetter(x: char)
    requires !IsSpace(x)
    ensures TrimRight([x]) == [x]
  {
  }

  /** What stands, if the later section was written first, where the other order puts the first character of its
      content. */
  function FixedCharacter(text: string, c: string, f: nat, b: Section): char
    requires Find(c, b.begin, 0).Some? && f < |text|
  {
    var m := Find(c, b.begin, 0).value + |b.begin| + 1;
    if m < |c| then c[m] else if m == |c| then '\n' else text[f]
  }

  lemma LetterSeen(text: string, a: Section, b: Section, contentA: string, x: char)
    requires Proper(a) && Proper(b) && Before(text, a, b) && !IsSpace(x)
    requires Occurs(b.begin, TrimRight(contentA)) && SameEitherWay(text, a, contentA, b, [x])
    ensures Find(TrimRight(contentA), b.begin, 0).Some? && Locate(text, a).value.finish < |text|
    ensures x == FixedCharacter(text, TrimRight(contentA), Locate(text, a).value.finish, b)
  {
    var sa, sb := Locate(text, a).value, Locate(text, b).value;
    TrimLetter(x);
    LetterSeenAt(text, a, b, contentA, x, sa.start + |a.begin|, sa.finish, sb.start + |b.begin|, sb.finish);
  }

  lemma LetterSeenAt(text: string, a: Section, b: Section, contentA: string, x: char,
                     b1: nat, f1: nat, b2: nat, f2: nat)
    requires OneLine(b.begin) && Opened(text, a, b1, f1) && Opened(text, b, b2, f2) && f1 + |a.end| + |b.begin| <= b2
    requires Occurs(b.begin, TrimRight(contentA)) && TrimRight([x]) == [x]
    requires SameEitherWay(text, a, contentA, b, [x])
    ensures Find(TrimRight(contentA), b.begin, 0).Some? && f1 < |text|
    ensures x == FixedCharacter(text, TrimRight(contentA), f1, b)
  {
    var ta, tb, tab, tba := LetterOrders(text, a, b, contentA, x, b1, TrimRight(contentA), f1, b2, f2);
    AllWritten(text, a, contentA, b, [x], ta, tb, tab, tba);
  }

  lemma LetterOrders(text: string, a: Section, b: Section, contentA: string, x: char,
                     b1: nat, c1: string, f1: nat, b2: nat, f2: nat)
      returns (ta: string, tb: string, tab: string, tba: string)
    requires OneLine(b.begin) && Opened(text, a, b1, f1) && Opened(text, b, b2, f2) && f1 + |a.end| + |b.begin| <= b2
    requires c1 == TrimRight(contentA) && Occurs(b.begin, c1) && TrimRight([x]) == [x]
    ensures Replace(text, a, contentA) == Ok(ta) && Replace(text, b, [x]) == Ok(tb)
    ensures Replace(ta, b, [x]) == Ok(tab) && Replace(tb, a, contentA) == Ok(tba)
    ensures Find(c1, b.begin, 0).Some? && f1 < |text|
    ensures tab == tba ==> x == FixedCharacter(text, c1, f1, b)
  {
    ta := WriteIn(text, a, contentA, b1, c1, f1);
    tb := WriteIn(text, b, [x], b2, [x], f2);
    tab := LetterWritten(text, ta, b1, c1, f1, b, Span(b2 - |b.begin|, f2), x);
    tba := ThenEarlier(text, tb, b2, [x], f2, a, contentA, b1, c1, f1);
    FixedSeen(text, tb, tba, b1, c1, f1, b2, [x], f2, b);
  }

  /** Where the letter goes when the later section is written second. */
  lemma LetterWritten(text: string, ta: string, k: nat, c: string, f: nat, b: Section, other: Span, x: char)
      returns (tab: string)
    requires Written(text, ta, k, c, f) && OneLine(b.begin) && Occurs(b.begin, c) && TrimRight([x]) == [x]
    requires Locate(text, b) == Some(other) && f <= other.start
    ensures Find(c, b.begin, 0).Some? && Replace(ta, b, [x]) == Ok(tab)
    ensures var j := k + 1 + Find(c, b.begin, 0).value + |b.begin| + 1; j < |tab| && tab[j] == x
  {
    LaterHidden(text, ta, k, c, f, b, other);
    BeginInContent(text, ta, k, c, f, b.begin);
    var p, f' := k + 1 + Find(c, b.begin, 0).value + |b.begin|, Locate(ta, b).value.finish;
    tab := WriteIn(ta, b, [x], p, [x], f');
    WrittenAt(ta, tab, p, [x], f', p + 1);
  }

  lemma {:induction false} FixedSeen(text: string, tb: string, tba: string, b1: nat, c1: string, f1: nat,
                                     b2: nat, c2: string, f2: nat, b: Section)
    requires f1 < b2 && Written(text, tb, b2, c2, f2) && Written(tb, tba, b1, c1, f1) && Find(c1, b.begin, 0).Some?
    ensures var j := b1 + 1 + Find(c1, b.begin, 0).value + |b.begin| + 1;
      j < |tba| && tba[j] == FixedCharacter(text, c1, f1, b)
  {
    var j := b1 + 1 + Find(c1, b.begin, 0).value + |b.begin| + 1;
    WrittenAt(tb, tba, b1, c1, f1, j);
    if j == b1 + |c1| + 2 {
      WrittenAt(text, tb, b2, c2, f2, f1);
    }
  }

  lemma OccursItself(s: string)
    ensures Occurs(s, s)
  {
    AtPoints(s, s, 0);
  }

  /** A small document on which the order shows. */
  lemma WriteOrderMatters()
    ensures var a, b, text := Section("A", "a"), Section("B", "b"), "AaBb";
      Before(text, a, b) && exists contentB :: !SameEitherWay(text, a, "B", b, contentB)
  {
    FirstLetter("AaBb", 'A', 0, 0);
    FirstLetter("AaBb", 'a', 1, 1);
    FirstLetter("AaBb", 'B', 0, 2);
    FirstLetter("AaBb", 'b', 3, 3);
    TrimLetter('B');
    OccursItself("B");
    ReplaceCommutes("AaBb", Section("A", "a"), Section("B", "b"), "B");
  }

  lemma {:induction false} FirstLetter(text: string, c: char, from: nat, i: nat)
    requires from <= i < |text| && text[i] == c && forall j :: from <= j < i ==> text[j] != c
    ensures Find(text, [c], from) == Some(i)
  {
    AtPoints(text, [c], i);
    forall j | from <= j < i ensures !At(text, [c], j) {
      AtPoints(text, [c], j);
      assert text[j + 0] != [c][0];
    }
    FoundAt(text, [c], from, i);
  }

  // ---- write_generated_truth: one section after another

  datatype Block = Block(section: Section, content: string)

  /** Marker pairs all present, in spans that do not overlap; no content holds its own end marker, nor the begin
      marker of a section further down. */
  ghost predicate Ready(doc: string, blocks: seq<Block>) {
    && LaidOut(doc, blocks)
    && (forall i :: 0 <= i < |blocks| ==> !Occurs(blocks[i].section.end, TrimRight(blocks[i].content)))
    && (forall i, j :: 0 <= i < |blocks| && 0 <= j < |blocks| && Before(doc, blocks[i].section, blocks[j].section) ==>
          !Occurs(blocks[j].section.begin, TrimRight(blocks[i].content)))
  }

  ghost predicate LaidOut(doc: string, blocks: seq<Block>) {
    && (forall i :: 0 <= i < |blocks| ==> Proper(blocks[i].section) && Locate(doc, blocks[i].section).Some?)
    && (forall i, j :: 0 <= i < |blocks| && 0 <= j < |blocks| && i != j ==>
         Apart(doc, blocks[i].section, blocks[j].section))
  }

  function WrittenAll(doc: string, blocks: seq<Block>): Result<string, string> {
    if blocks == [] then Ok(doc)
    else
      var n := |blocks| - 1;
      var front := WrittenAll(doc, blocks[..n]);
      if front.Err? then front else Replace(front.value, blocks[n].section, blocks[n].content)
  }

  lemma {:induction false} StopsThere(doc: string, blocks: seq<Block>, k: nat)
    requires k <= |blocks| && WrittenAll(doc, blocks[..k]).Err?
    ensures WrittenAll(doc, blocks) == WrittenAll(doc, blocks[..k])
  {
    if k == |blocks| {
      assert blocks[..k] == blocks;
    } else {
      assert blocks[..|blocks| - 1][..k] == blocks[..k];
      StopsThere(doc, blocks[..|blocks| - 1], k);
    }
  }

  /** The blocks are written in turn, up to the first that cannot be. */
  lemma {:induction false} WritesInTurn(doc: string, a: seq<Block>, b: seq<Block>)
    ensures WrittenAll(doc, []) == Ok(doc)
    ensures |a| == 1 ==> WrittenAll(doc, a) == Replace(doc, a[0].section, a[0].content)
    ensures WrittenAll(doc, a + b)
         == if WrittenAll(doc, a).Err? then WrittenAll(doc, a) else WrittenAll(WrittenAll(doc, a).value, b)
  {
    if b == [] {
      assert a + b == a;
    } else {
      var n := |b| - 1;
      WritesInTurn(doc, a, b[..n]);
      assert (a + b)[..|a| + n] == a + b[..n];
    }
  }

  /** Err: the first marker found missing; nothing is written then. */
  method WriteBlocks(doc: string, blocks: seq<Block>) returns (result: Result<string, string>)
    ensures result == WrittenAll(doc, blocks)
    ensures Ready(doc, blocks) ==>
      result.Ok? && forall i :: 0 <= i < |blocks| ==>
                     Extract(result.value, blocks[i].section) == Some(Shown(blocks[i].content))
  {
    var text := doc;
    for k := 0 to |blocks|
      invariant WrittenAll(doc, blocks[..k]) == Ok(text)
      invariant Ready(doc, blocks) ==> Ready(text, blocks)
      invariant Ready(doc, blocks) ==> forall i :: 0 <= i < k ==>
                                        Extract(text, blocks[i].section) == Some(Shown(blocks[i].content))
    {
      var next := Replace(text, blocks[k].section, blocks[k].content);
      assert blocks[..k + 1][..k] == blocks[..k];
      if Locate(text, blocks[k].section).Some? {
        Replaced(text, blocks[k].section, blocks[k].content);
      }
      if next.Err? {
        StopsThere(doc, blocks, k + 1);
        return Err(next.error);
      }
      if Ready(doc, blocks) {
        WriteKeepsReady(text, next.value, blocks, k);
        forall i | 0 <= i < k + 1 ensures Extract(next.value, blocks[i].section) == Some(Shown(blocks[i].content)) {
          WriteShows(text, next.value, blocks, k, i);
        }
      }
      text := next.value;
    }
    assert blocks[..|blocks|] == blocks;
    result := Ok(text);
  }

  /** Writing block `k` makes it show its content and leaves what every other block shows. */
  lemma WriteShows(text: string, u: string, blocks: seq<Block>, k: nat, i: nat)
    requires Ready(text, blocks) && k < |blocks| && i < |blocks|
    requires Replace(text, blocks[k].section, blocks[k].content) == Ok(u)
    ensures Extract(u, blocks[i].section) == if i == k then Some(Shown(blocks[k].content))
            else Extract(text, blocks[i].section)
  {
    var a, span := blocks[k].section, Locate(text, blocks[k].section).value;
    Replaced(text, a, blocks[k].content);
    if i == k {
      ExtractAfterReplace(text, a, blocks[k].content);
    } else if Before(text, a, blocks[i].section) {
      LaterMoves(text, u, a, span, TrimRight(blocks[k].content), blocks[i].section);
    } else {
      EarlierStays(text, u, a, span, TrimRight(blocks[k].content), blocks[i].section);
    }
  }

  /** Where block `i` stands after block `k` was written. */
  lemma Moved(text: string, u: string, blocks: seq<Block>, k: nat, i: nat)
    requires Ready(text, blocks) && k < |blocks| && i < |blocks|
    requires Replace(text, blocks[k].section, blocks[k].content) == Ok(u)
    ensures var span, old', new' := Locate(text, blocks[k].section).value, Locate(text, blocks[i].section).value,
            Locate(u, blocks[i].section);
      var b := span.start + |blocks[k].section.begin|;
      var d := b + |TrimRight(blocks[k].content)| + 2 - span.finish;
      && new'.Some?
      && (i == k ==> new'.value == Span(span.start, span.finish + d))
      && (i != k && old'.start < span.start ==> new'.value == old')
      && (i != k && old'.start >= span.start
          ==> new'.value.start == old'.start + d && new'.value.finish == old'.finish + d)
      && (i != k && old'.start >= span.start ==> span.finish + |blocks[k].section.end| <= old'.start)
      && (i != k && old'.start < span.start ==> old'.finish + |blocks[i].section.end| <= span.start)
  {
    var a, span, c := blocks[k].section, Locate(text, blocks[k].section).value, TrimRight(blocks[k].content);
    Replaced(text, a, blocks[k].content);
    if i == k {
      FoundIffOccurs(c, a.end);
      LocateWritten(text, u, a, span, c);
    } else if Before(text, a, blocks[i].section) {
      LaterMoves(text, u, a, span, c, blocks[i].section);
    } else {
      EarlierStays(text, u, a, span, c, blocks[i].section);
    }
  }

  lemma WriteKeepsReady(text: string, u: string, blocks: seq<Block>, k: nat)
    requires Ready(text, blocks) && k < |blocks|
    requires Replace(text, blocks[k].section, blocks[k].content) == Ok(u)
    ensures Ready(u, blocks)
  {
    forall i | 0 <= i < |blocks| ensures Locate(u, blocks[i].section).Some? {
      Moved(text, u, blocks, k, i);
    }
    forall i, j | 0 <= i < |blocks| && 0 <= j < |blocks| && i != j
      ensures Before(text, blocks[i].section, blocks[j].section) <==> Before(u, blocks[i].section, blocks[j].section)
      ensures Apart(u, blocks[i].section, blocks[j].section)
    {
      assert Apart(text, blocks[i].section, blocks[j].section);
      if Before(text, blocks[i].section, blocks[j].section) {
        StayInOrder(text, u, blocks, k, i, j);
      } else {
        StayInOrder(text, u, blocks, k, j, i);
      }
    }
  }

  lemma StayInOrder(text: string, u: string, blocks: seq<Block>, k: nat, i: nat, j: nat)
    requires Ready(text, blocks) && k < |blocks| && i < |blocks| && j < |blocks| && i != j
    requires Replace(text, blocks[k].section, blocks[k].content) == Ok(u)
    requires Before(text, blocks[i].section, blocks[j].section)
    ensures Before(u, blocks[i].section, blocks[j].section)
  {
    Moved(text, u, blocks, k, i);
    Moved(text, u, blocks, k, j);
  }
}
