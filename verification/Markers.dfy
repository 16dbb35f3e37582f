/** The markers of generated sections, and documents laid out with them: no section is mistaken for another. */
module Markers {
  import opened Wrappers
  import opened Sections
  import opened SectionBlocks

  // ---- profile_block_markers

  const BEGIN_TRUTH := "<!-- BEGIN GENERATED PROFILE TRUTH: "
  const END_TRUTH := "<!-- END GENERATED PROFILE TRUTH: "
  const CLOSE := " -->"

  function ProfileBlock(profileId: string): Section {
    Section(BEGIN_TRUTH + profileId + CLOSE, END_TRUTH + profileId + CLOSE)
  }

  ghost predicate CleanId(id: string) {
    forall k :: 0 <= k < |id| ==> id[k] != ' ' && id[k] != '<'
  }

  /** A marker: an opening that starts with its only '<', an id, and the close. */
  lemma MarkerInside(p: string, q: string, a: string, b: string, i: nat)
    requires CleanId(a) && CleanId(b) && p != [] && q != [] && p[0] == '<' == q[0]
    requires forall k :: 0 < k < |q| ==> q[k] != '<'
    requires At(q + b + CLOSE, p + a + CLOSE, i)
    ensures i == 0 && p <= q + b + CLOSE && (p == q ==> a == b)
  {
    var m, n := p + a + CLOSE, q + b + CLOSE;
    AtPoints(n, m, i);
    assert n[i + 0] == m[0] == '<';
    assert CLOSE[0] != '<' && CLOSE[1] != '<' && CLOSE[2] != '<' && CLOSE[3] != '<';
    forall j | 0 < j < |n| ensures n[j] != '<' {
      if j < |q| {
        assert n[j] == q[j];
      } else if j < |q| + |b| {
        assert n[j] == b[j - |q|];
      } else {
        assert n[j] == CLOSE[j - |q| - |b|];
      }
    }
    assert i == 0;
    forall k | 0 <= k < |m| ensures n[k] == m[k] {
      assert n[0 + k] == m[k];
    }
    assert p == m[..|p|] == n[..|p|];
    if p == q {
      SameIds(p, a, b);
    }
  }

  lemma SameIds(p: string, a: string, b: string)
    requires CleanId(a) && CleanId(b) && |p + a + CLOSE| <= |p + b + CLOSE|
    requires forall k :: 0 <= k < |p + a + CLOSE| ==> (p + b + CLOSE)[k] == (p + a + CLOSE)[k]
    ensures a == b
  {
    var m, n := p + a + CLOSE, p + b + CLOSE;
    assert n[|p| + |a|] == m[|p| + |a|] == ' ';
    forall j | |p| <= j < |p| + |b| ensures n[j] != ' ' {
      assert n[j] == b[j - |p|];
    }
    forall k | 0 <= k < |a| ensures a[k] == b[k] {
      assert m[|p| + k] == a[k] && n[|p| + k] == b[k];
    }
  }

  lemma Openings()
    ensures BEGIN_TRUTH[0] == '<' == END_TRUTH[0]
    ensures forall k :: 0 < k < |BEGIN_TRUTH| ==> BEGIN_TRUTH[k] != '<'
    ensures forall k :: 0 < k < |END_TRUTH| ==> END_TRUTH[k] != '<'
    ensures BEGIN_TRUTH[5] != END_TRUTH[5] && |END_TRUTH| > 5 && |BEGIN_TRUTH| > 5
  {
  }

  /** Markers of profile ids without spaces or '<' occur inside each other only when they are the same. */
  lemma MarkersIndependent(a: string, b: string)
    requires CleanId(a) && CleanId(b)
    ensures Occurs(ProfileBlock(a).begin, ProfileBlock(b).begin) <==> a == b
    ensures Occurs(ProfileBlock(a).end, ProfileBlock(b).end) <==> a == b
    ensures !Occurs(ProfileBlock(a).begin, ProfileBlock(b).end)
    ensures !Occurs(ProfileBlock(a).end, ProfileBlock(b).begin)
  {
    Openings();
    OccursItself(ProfileBlock(a).begin);
    OccursItself(ProfileBlock(a).end);
    if i: nat :| At(ProfileBlock(b).begin, ProfileBlock(a).begin, i) {
      MarkerInside(BEGIN_TRUTH, BEGIN_TRUTH, a, b, i);
    }
    if i: nat :| At(ProfileBlock(b).end, ProfileBlock(a).end, i) {
      MarkerInside(END_TRUTH, END_TRUTH, a, b, i);
    }
    if i: nat :| At(ProfileBlock(b).end, ProfileBlock(a).begin, i) {
      MarkerInside(BEGIN_TRUTH, END_TRUTH, a, b, i);
      assert false;
    }
    if i: nat :| At(ProfileBlock(b).begin, ProfileBlock(a).end, i) {
      MarkerInside(END_TRUTH, BEGIN_TRUTH, a, b, i);
      assert false;
    }
  }

  const BEGIN_TABLE := "<!-- BEGIN GENERATED PROFILE STATUS -->"
  const END_TABLE := "<!-- END GENERATED PROFILE STATUS -->"

  const PROFILE_TABLE := Section(BEGIN_TABLE, END_TABLE)

  // ---- documents

  /** A marker and the text up to the next one. */
  datatype Piece = Piece(marker: string, text: string)

  function Laid(head: string, pieces: seq<Piece>): string {
    if pieces == [] then head
    else Laid(head, pieces[..|pieces| - 1]) + pieces[|pieces| - 1].marker + pieces[|pieces| - 1].text
  }

  ghost predicate NoAngle(s: string, from: nat) {
    forall k :: from <= k < |s| ==> s[k] != '<'
  }

  /** It starts with its only '<'. */
  ghost predicate Tag(m: string) {
    m != [] && m[0] == '<' && NoAngle(m, 1)
  }

  ghost predicate Clear(head: string, pieces: seq<Piece>) {
    NoAngle(head, 0) && forall k :: 0 <= k < |pieces| ==> Tag(pieces[k].marker) && NoAngle(pieces[k].text, 0)
  }

  ghost predicate Unlike(m: string, n: string) {
    !(m <= n) && !(n <= m)
  }

  lemma AngleAt(doc: string, m: string, j: nat)
    requires At(doc, m, j) && Tag(m)
    ensures j < |doc| && doc[j] == '<'
  {
    AtPoints(doc, m, j);
    assert doc[j + 0] == m[0];
  }

  /** Marker `m` was put at position `j`. */
  ghost predicate PutAt(head: string, pieces: seq<Piece>, m: string, j: nat) {
    pieces != [] &&
    (PutAt(head, pieces[..|pieces| - 1], m, j)
     || (pieces[|pieces| - 1].marker == m && j == |Laid(head, pieces[..|pieces| - 1])|))
  }

  /** In a document with no other '<' a marker stands exactly where it was put. */
  lemma {:induction false} MarkerHits(head: string, pieces: seq<Piece>, m: string, j: nat)
    requires Clear(head, pieces) && Tag(m)
    requires forall k :: 0 <= k < |pieces| ==> pieces[k].marker == m || Unlike(m, pieces[k].marker)
    ensures At(Laid(head, pieces), m, j) <==> PutAt(head, pieces, m, j)
  {
    if pieces == [] {
      if At(head, m, j) {
        AngleAt(head, m, j);
      }
    } else {
      MarkerHits(head, pieces[..|pieces| - 1], m, j);
      LastHit(Laid(head, pieces[..|pieces| - 1]), pieces[|pieces| - 1], m, j);
    }
  }

  lemma LastHit(doc: string, last: Piece, m: string, j: nat)
    requires Tag(m) && Tag(last.marker) && NoAngle(last.text, 0) && (last.marker == m || Unlike(m, last.marker))
    ensures At(doc + last.marker + last.text, m, j) <==> At(doc, m, j) || (j == |doc| && last.marker == m)
  {
    var u := doc + last.marker + last.text;
    assert forall k :: 0 <= k < |doc| ==> u[k] == doc[k];
    assert forall k :: |doc| <= k < |doc| + |last.marker| ==> u[k] == last.marker[k - |doc|];
    if At(u, m, j) {
      AngleAt(u, m, j);
      OnlyAngle(doc, last, u);
      if j < |doc| {
        StopsBefore(u, m, j, |doc|);
        AtBoth(doc, u, m, j);
      } else {
        AtPoints(u, m, j);
        SamePlace(last.marker, m, u, j);
      }
    } else {
      AtPoints(u, m, j);
      AtPoints(doc, m, j);
    }
  }

  lemma AtBoth(doc: string, u: string, m: string, j: nat)
    requires |doc| <= |u| && (forall k :: 0 <= k < |doc| ==> u[k] == doc[k]) && j + |m| <= |doc|
    ensures At(u, m, j) <==> At(doc, m, j)
  {
    AtPoints(u, m, j);
    AtPoints(doc, m, j);
  }

  /** Behind `doc` the only '<' is the one the marker starts with. */
  lemma OnlyAngle(doc: string, last: Piece, u: string)
    requires u == doc + last.marker + last.text && Tag(last.marker) && NoAngle(last.text, 0)
    ensures u[|doc|] == '<' && forall k :: |doc| < k < |u| ==> u[k] != '<'
  {
    forall k | |doc| < k < |u| ensures u[k] != '<' {
      if k >= |doc| + |last.marker| {
        assert u[k] == last.text[k - |doc| - |last.marker|];
      } else {
        assert u[k] == last.marker[k - |doc|];
      }
    }
  }

  /** A tag does not reach over the next '<'. */
  lemma StopsBefore(u: string, m: string, j: nat, d: nat)
    requires At(u, m, j) && Tag(m) && j < d < |u| && u[d] == '<'
    ensures j + |m| <= d
  {
    AtPoints(u, m, j);
    forall k | j < k < j + |m| ensures u[k] != '<' {
      assert u[j + (k - j)] == m[k - j];
    }
  }

  lemma SamePlace(a: string, m: string, u: string, j: nat)
    requires j + |a| <= |u| && j + |m| <= |u|
    requires (forall k :: j <= k < j + |a| ==> u[k] == a[k - j]) && (forall k :: 0 <= k < |m| ==> u[j + k] == m[k])
    ensures a <= m || m <= a
  {
    forall k | 0 <= k < |a| && k < |m| ensures a[k] == m[k] {
      assert u[j + k] == a[(j + k) - j];
    }
  }

  /** A marker put once. */
  lemma {:induction false} PutOnce(head: string, pieces: seq<Piece>, k: nat, j: nat)
    requires k < |pieces| && forall l :: 0 <= l < |pieces| && l != k ==> pieces[l].marker != pieces[k].marker
    ensures PutAt(head, pieces, pieces[k].marker, j) <==> j == |Laid(head, pieces[..k])|
  {
    var n := |pieces| - 1;
    if k < n {
      PutOnce(head, pieces[..n], k, j);
      assert pieces[..n][..k] == pieces[..k];
    } else {
      NotPut(head, pieces[..n], pieces[k].marker, j);
    }
  }

  lemma {:induction false} NotPut(head: string, pieces: seq<Piece>, m: string, j: nat)
    requires forall l :: 0 <= l < |pieces| ==> pieces[l].marker != m
    ensures !PutAt(head, pieces, m, j)
  {
    if pieces == [] {
    } else {
      NotPut(head, pieces[..|pieces| - 1], m, j);
    }
  }

  // ---- sections one after another

  /** A section, what it shows at first, and the text behind it. */
  datatype Item = Item(section: Section, content: string, gap: string)

  function PiecesOf(items: seq<Item>): (pieces: seq<Piece>)
    ensures |pieces| == 2 * |items|
  {
    if items == [] then []
    else
      var last := items[|items| - 1];
      PiecesOf(items[..|items| - 1]) + [Piece(last.section.begin, last.content), Piece(last.section.end, last.gap)]
  }

  /** Tags on one line each, none of which starts another. */
  ghost predicate Unmixed(items: seq<Item>) {
    && (forall i :: 0 <= i < |items| ==>
         Proper(items[i].section) && Tag(items[i].section.begin) && Tag(items[i].section.end))
    && (forall i, j :: 0 <= i < |items| && 0 <= j < |items| ==> Unlike(items[i].section.begin, items[j].section.end))
    && (forall i, j :: 0 <= i < |items| && 0 <= j < |items| && i != j ==>
          Unlike(items[i].section.begin, items[j].section.begin) && Unlike(items[i].section.end, items[j].section.end))
  }

  ghost predicate NoAngles(head: string, items: seq<Item>) {
    NoAngle(head, 0) && forall i :: 0 <= i < |items| ==> NoAngle(items[i].content, 0) && NoAngle(items[i].gap, 0)
  }

  lemma {:induction false} PieceAt(items: seq<Item>, i: nat)
    requires i < |items|
    ensures PiecesOf(items)[2 * i] == Piece(items[i].section.begin, items[i].content)
    ensures PiecesOf(items)[2 * i + 1] == Piece(items[i].section.end, items[i].gap)
  {
    if i == |items| - 1 {
    } else {
      PieceAt(items[..|items| - 1], i);
    }
  }

  lemma {:induction false} AnyPiece(items: seq<Item>, k: nat)
    requires k < 2 * |items|
    ensures PiecesOf(items)[k]
         == if k % 2 == 0 then Piece(items[k / 2].section.begin, items[k / 2].content)
           else Piece(items[k / 2].section.end, items[k / 2].gap)
  {
    PieceAt(items, k / 2);
  }

  lemma {:induction false} LaidGrows(head: string, pieces: seq<Piece>, i: nat, j: nat)
    requires i < j <= |pieces|
    ensures |Laid(head, pieces[..i])| + |pieces[i].marker| <= |Laid(head, pieces[..j])|
  {
    assert pieces[..j][..j - 1] == pieces[..j - 1];
    if i == j - 1 {
    } else {
      LaidGrows(head, pieces, i, j - 1);
    }
  }

  /** Where the begin marker (even `k`) or the end marker (odd `k`) of an item stands. */
  lemma {:induction false} HitOnce(head: string, items: seq<Item>, k: nat, j: nat)
    requires Unmixed(items) && NoAngles(head, items) && k < 2 * |items|
    ensures var pieces := PiecesOf(items);
      At(Laid(head, pieces), pieces[k].marker, j) <==> j == |Laid(head, pieces[..k])|
  {
    var pieces := PiecesOf(items);
    forall l | 0 <= l < |pieces|
      ensures Tag(pieces[l].marker) && NoAngle(pieces[l].text, 0)
      ensures l != k ==> pieces[l].marker != pieces[k].marker && Unlike(pieces[k].marker, pieces[l].marker)
    {
      AnyPiece(items, l);
      AnyPiece(items, k);
    }
    AnyPiece(items, k);
    MarkerHits(head, pieces, pieces[k].marker, j);
    PutOnce(head, pieces, k, j);
  }

  lemma {:induction false} LocateItem(head: string, items: seq<Item>, i: nat)
    requires Unmixed(items) && NoAngles(head, items) && i < |items|
    ensures var pieces := PiecesOf(items);
      Locate(Laid(head, pieces), items[i].section)
      == Some(Span(|Laid(head, pieces[..2 * i])|, |Laid(head, pieces[..2 * i + 1])|))
  {
    var pieces := PiecesOf(items);
    var doc, a, f := Laid(head, pieces), |Laid(head, pieces[..2 * i])|, |Laid(head, pieces[..2 * i + 1])|;
    PieceAt(items, i);
    forall j: nat ensures At(doc, items[i].section.begin, j) <==> j == a {
      HitOnce(head, items, 2 * i, j);
    }
    forall j: nat ensures At(doc, items[i].section.end, j) <==> j == f {
      HitOnce(head, items, 2 * i + 1, j);
    }
    LaidGrows(head, pieces, 2 * i, 2 * i + 1);
    OneSpan(doc, items[i].section, a, f);
  }

  lemma OneSpan(doc: string, s: Section, a: nat, f: nat)
    requires forall j: nat :: At(doc, s.begin, j) <==> j == a
    requires (forall j: nat :: At(doc, s.end, j) <==> j == f) && a + |s.begin| <= f
    ensures Locate(doc, s) == Some(Span(a, f))
  {
    FoundAt(doc, s.begin, 0, a);
    FoundAt(doc, s.end, a + |s.begin|, f);
  }

  /** Sections written one after another, under markers none of which starts another and with no other '<' around, are
      all found where they are, in that order. */
  lemma {:induction false} LaidInOrder(head: string, items: seq<Item>, blocks: seq<Block>)
    requires Unmixed(items) && NoAngles(head, items)
    requires |blocks| == |items| && forall i :: 0 <= i < |items| ==> blocks[i].section == items[i].section
    ensures LaidOut(Laid(head, PiecesOf(items)), blocks)
    ensures forall i, j :: 0 <= i < j < |items| ==>
             Before(Laid(head, PiecesOf(items)), items[i].section, items[j].section)
  {
    var pieces := PiecesOf(items);
    forall i | 0 <= i < |items| ensures Locate(Laid(head, pieces), items[i].section).Some? {
      LocateItem(head, items, i);
    }
    forall i, j | 0 <= i < j < |items| ensures Before(Laid(head, pieces), items[i].section, items[j].section) {
      LocateItem(head, items, i);
      LocateItem(head, items, j);
      PieceAt(items, i);
      LaidGrows(head, pieces, 2 * i + 1, 2 * j);
    }
  }

  // ---- the profile document

  /** The status table, then one block for each profile. */
  function ProfileItems(ids: seq<string>, contents: seq<string>, gaps: seq<string>): (items: seq<Item>)
    requires |contents| == |gaps| == |ids| + 1
    ensures |items| == |ids| + 1
  {
    seq(|ids| + 1, i requires 0 <= i < |ids| + 1 =>
      Item(if i == 0 then PROFILE_TABLE else ProfileBlock(ids[i - 1]), contents[i], gaps[i]))
  }

  ghost predicate CleanLine(id: string) {
    CleanId(id) && forall k :: 0 <= k < |id| ==> !IsNewline(id[k])
  }

  lemma OpeningTags()
    ensures Tag(BEGIN_TRUTH) && OneLine(BEGIN_TRUTH) && Tag(END_TRUTH) && OneLine(END_TRUTH)
  {
  }

  lemma ProfileTags(id: string)
    requires CleanLine(id)
    ensures Proper(ProfileBlock(id)) && Tag(ProfileBlock(id).begin) && Tag(ProfileBlock(id).end)
  {
    OpeningTags();
    TagOf(BEGIN_TRUTH, id);
    TagOf(END_TRUTH, id);
  }

  lemma TagOf(p: string, id: string)
    requires CleanLine(id) && Tag(p) && OneLine(p)
    ensures Tag(p + id + CLOSE) && OneLine(p + id + CLOSE)
  {
    var m := p + id + CLOSE;
    assert forall k :: 0 <= k < |CLOSE| ==> CLOSE[k] != '<' && !IsNewline(CLOSE[k]);
    forall k | 0 <= k < |m| ensures !IsNewline(m[k]) && (k > 0 ==> m[k] != '<') {
      if k < |p| {
        assert m[k] == p[k];
      } else if k < |p| + |id| {
        assert m[k] == id[k - |p|];
      } else {
        assert m[k] == CLOSE[k - |p| - |id|];
      }
    }
  }

  /** A begin marker never starts an end marker, and markers of different ids, or of the table, do not start each
      other. */
  lemma ProfileUnlike(a: string, b: string)
    requires CleanId(a) && CleanId(b)
    ensures Unlike(ProfileBlock(a).begin, ProfileBlock(b).end)
    ensures a != b ==>
      Unlike(ProfileBlock(a).begin, ProfileBlock(b).begin) && Unlike(ProfileBlock(a).end, ProfileBlock(b).end)
  {
    MarkersIndependent(a, b);
    MarkersIndependent(b, a);
    StartOccurs(ProfileBlock(a).begin, ProfileBlock(b).end);
    StartOccurs(ProfileBlock(b).end, ProfileBlock(a).begin);
    if a != b {
      StartOccurs(ProfileBlock(a).begin, ProfileBlock(b).begin);
      StartOccurs(ProfileBlock(b).begin, ProfileBlock(a).begin);
      StartOccurs(ProfileBlock(a).end, ProfileBlock(b).end);
      StartOccurs(ProfileBlock(b).end, ProfileBlock(a).end);
    }
  }

  lemma StartOccurs(m: string, n: string)
    requires !Occurs(m, n)
    ensures !(m <= n)
  {
    if m <= n {
      AtPoints(n, m, 0);
    }
  }

  lemma DifferAt(m: string, n: string, k: nat)
    requires k < |m| && k < |n| && m[k] != n[k]
    ensures Unlike(m, n)
  {
  }

  /** The table's markers and those of a profile. */
  lemma TableUnlike(id: string)
    ensures Unlike(PROFILE_TABLE.begin, ProfileBlock(id).begin) && Unlike(PROFILE_TABLE.end, ProfileBlock(id).end)
    ensures Unlike(PROFILE_TABLE.begin, ProfileBlock(id).end) && Unlike(ProfileBlock(id).begin, PROFILE_TABLE.end)
  {
    DifferAt(BEGIN_TABLE, BEGIN_TRUTH + id + CLOSE, 29);
    DifferAt(END_TABLE, END_TRUTH + id + CLOSE, 27);
    DifferAt(BEGIN_TABLE, END_TRUTH + id + CLOSE, 5);
    DifferAt(BEGIN_TRUTH + id + CLOSE, END_TABLE, 5);
  }

  lemma TableBegin()
    ensures Tag(BEGIN_TABLE) && OneLine(BEGIN_TABLE)
  {
  }

  lemma TableEnd()
    ensures Tag(END_TABLE) && OneLine(END_TABLE)
  {
  }

  lemma TableTags()
    ensures Proper(PROFILE_TABLE) && Tag(PROFILE_TABLE.begin) && Tag(PROFILE_TABLE.end)
    ensures Unlike(PROFILE_TABLE.begin, PROFILE_TABLE.end)
  {
    TableBegin();
    TableEnd();
    DifferAt(BEGIN_TABLE, END_TABLE, 5);
  }

  lemma ProfilesUnmixed(ids: seq<string>, contents: seq<string>, gaps: seq<string>)
    requires |contents| == |gaps| == |ids| + 1
    requires forall i :: 0 <= i < |ids| ==> CleanLine(ids[i])
    requires forall i, j :: 0 <= i < j < |ids| ==> ids[i] != ids[j]
    ensures Unmixed(ProfileItems(ids, contents, gaps))
  {
    var items := ProfileItems(ids, contents, gaps);
    TableTags();
    forall i | 0 <= i < |items|
      ensures Proper(items[i].section) && Tag(items[i].section.begin) && Tag(items[i].section.end)
    {
      if i > 0 {
        ProfileTags(ids[i - 1]);
      }
    }
    forall i, j | 0 <= i < |items| && 0 <= j < |items|
      ensures Unlike(items[i].section.begin, items[j].section.end)
      ensures i != j ==>
        Unlike(items[i].section.begin, items[j].section.begin) && Unlike(items[i].section.end, items[j].section.end)
    {
      ItemsUnlike(items, ids, i, j);
    }
  }

  /** Which markers the items have. */
  ghost predicate Marked(items: seq<Item>, ids: seq<string>) {
    && |items| == |ids| + 1
    && forall i :: 0 <= i < |items| ==> items[i].section == if i == 0 then PROFILE_TABLE else ProfileBlock(ids[i - 1])
  }

  lemma ItemsUnlike(items: seq<Item>, ids: seq<string>, i: nat, j: nat)
    requires Marked(items, ids) && i < |items| && j < |items|
    requires forall k :: 0 <= k < |ids| ==> CleanLine(ids[k])
    requires forall k, l :: 0 <= k < l < |ids| ==> ids[k] != ids[l]
    ensures Unlike(items[i].section.begin, items[j].section.end)
    ensures i != j ==>
      && Unlike(items[i].section.begin, items[j].section.begin)
      && Unlike(items[i].section.end, items[j].section.end)
  {
    if i > 0 && j > 0 {
      ProfileUnlike(ids[i - 1], ids[j - 1]);
    } else if i > 0 {
      TableUnlike(ids[i - 1]);
    } else if j > 0 {
      TableUnlike(ids[j - 1]);
    } else {
      TableTags();
    }
  }

  /** A profile document with one block for each of several distinct ids behind the status table, and no other '<' in
      it, is laid out as `WriteBlocks` needs it. */
  lemma {:induction false} ProfileDocument(head: string, ids: seq<string>, contents: seq<string>, gaps: seq<string>,
                                           blocks: seq<Block>)
    requires |contents| == |gaps| == |ids| + 1 == |blocks|
    requires forall i :: 0 <= i < |ids| ==> CleanLine(ids[i])
    requires forall i, j :: 0 <= i < j < |ids| ==> ids[i] != ids[j]
    requires NoAngle(head, 0) && forall i :: 0 <= i < |contents| ==> NoAngle(contents[i], 0) && NoAngle(gaps[i], 0)
    requires forall i :: 0 <= i < |blocks| ==> blocks[i].section == if i == 0 then PROFILE_TABLE
             else ProfileBlock(ids[i - 1])
    ensures LaidOut(Laid(head, PiecesOf(ProfileItems(ids, contents, gaps))), blocks)
  {
    ProfilesUnmixed(ids, contents, gaps);
    LaidInOrder(head, ProfileItems(ids, contents, gaps), blocks);
  }
}
