/** The generated-section rewriter of repo_truth.py: find the markers, splice the content between them. */
module Sections {
  import opened Wrappers

  // ---- text

  /** `pat` from position `k` on stands in `text` at position `i + k`. */
  predicate AtFrom(text: string, pat: string, i: nat, k: nat)
    requires k <= |pat| && i + |pat| <= |text|
    decreases |pat| - k
  {
    k == |pat| || (text[i + k] == pat[k] && AtFrom(text, pat, i, k + 1))
  }

  /** `pat` stands in `text` at position `i`. */
  predicate At(text: string, pat: string, i: nat) {
    i + |pat| <= |text| && AtFrom(text, pat, i, 0)
  }

  lemma {:induction false} AtFromPoints(text: string, pat: string, i: nat, k: nat)
    requires k <= |pat| && i + |pat| <= |text|
    ensures AtFrom(text, pat, i, k) <==> forall m :: k <= m < |pat| ==> text[i + m] == pat[m]
    decreases |pat| - k
  {
    if k == |pat| {
    } else {
      AtFromPoints(text, pat, i, k + 1);
    }
  }

  lemma AtPoints(text: string, pat: string, i: nat)
    ensures At(text, pat, i) <==> i + |pat| <= |text| && forall m :: 0 <= m < |pat| ==> text[i + m] == pat[m]
  {
    if i + |pat| <= |text| {
      AtFromPoints(text, pat, i, 0);
    }
  }

  ghost predicate Occurs(pat: string, text: string) {
    exists i: nat :: At(text, pat, i)
  }

  /** `text.find(pat, from)`. */
  function Find(text: string, pat: string, from: nat): (r: Option<nat>)
    ensures r.Some? ==> from <= r.value && r.value + |pat| <= |text|
    decreases |text| - from
  {
    if At(text, pat, from) then Some(from)
    else if from + |pat| >= |text| then None
    else Find(text, pat, from + 1)
  }

  /** The first position at or after `from` where the pattern stands, if there is one. */
  lemma {:induction false} FindFirst(text: string, pat: string, from: nat)
    ensures var r := Find(text, pat, from);
      && (r.Some? ==> At(text, pat, r.value) && forall j :: from <= j < r.value ==> !At(text, pat, j))
      && (r.None? ==> forall j :: from <= j ==> !At(text, pat, j))
    decreases |text| - from
  {
    if !At(text, pat, from) && from + |pat| < |text| {
      FindFirst(text, pat, from + 1);
    }
  }

  lemma {:induction false} FoundAt(text: string, pat: string, from: nat, i: nat)
    requires from <= i && At(text, pat, i) && forall j :: from <= j < i ==> !At(text, pat, j)
    ensures Find(text, pat, from) == Some(i)
  {
    FindFirst(text, pat, from);
  }

  lemma {:induction false} FoundIffOccurs(text: string, pat: string)
    ensures Find(text, pat, 0).Some? <==> Occurs(pat, text)
  {
    FindFirst(text, pat, 0);
  }

  /** What `str.isspace` holds of. */
  predicate IsSpace(c: char) {
    || '\t' <= c <= '\r' || '\U{1c}' <= c <= ' ' || c == '\U{85}' || c == '\U{a0}' || c == '\U{1680}'
    || '\U{2000}' <= c <= '\U{200a}' || c == '\U{2028}' || c == '\U{2029}' || c == '\U{202f}' || c == '\U{205f}'
    || c == '\U{3000}'
  }

  /** The characters of Unicode that count as white space, by number. */
  lemma IsSpaceExact(c: char)
    ensures IsSpace(c) <==>
      c as int in {9, 10, 11, 12, 13, 28, 29, 30, 31, 32, 133, 160, 5760, 8192, 8193, 8194, 8195, 8196, 8197, 8198,
                   8199, 8200, 8201, 8202, 8232, 8233, 8239, 8287, 12288}
  {
  }

  predicate IsNewline(c: char) { c == '\r' || c == '\n' }

  /** End of `s[..j]` without trailing white space. */
  function TrimmedEnd(s: string, j: nat): (r: nat)
    requires j <= |s|
    ensures r <= j && (r == 0 || !IsSpace(s[r - 1]))
    ensures forall i :: r <= i < j ==> IsSpace(s[i])
  {
    if j == 0 || !IsSpace(s[j - 1]) then j else TrimmedEnd(s, j - 1)
  }

  /** `rstrip()`. */
  function TrimRight(s: string): (r: string)
    ensures r == [] || !IsSpace(r[|r| - 1])
  {
    s[..TrimmedEnd(s, |s|)]
  }

  /** `lstrip("\r\n")` and `rstrip("\r\n")`. */
  function DropLeading(s: string): (r: string)
    ensures |r| <= |s|
  {
    if s == [] || !IsNewline(s[0]) then s else DropLeading(s[1..])
  }

  function DropTrailing(s: string): (r: string)
    ensures |r| <= |s|
  {
    if s == [] || !IsNewline(s[|s| - 1]) then s else DropTrailing(s[..|s| - 1])
  }

  /** `strip("\r\n")`. */
  function StripNewlines(s: string): string { DropTrailing(DropLeading(s)) }

  /** What is cut off is white space, and as much of it as there is at the end; nothing else goes. */
  lemma TrimRightExact(s: string, r: string)
    ensures r == TrimRight(s)
       <==> r <= s && (forall i :: |r| <= i < |s| ==> IsSpace(s[i])) && (r == [] || !IsSpace(r[|r| - 1]))
  {
    var t := TrimRight(s);
    if r <= s && (forall i :: |r| <= i < |s| ==> IsSpace(s[i])) && (r == [] || !IsSpace(r[|r| - 1])) {
      assert t != [] ==> t[|t| - 1] == s[|t| - 1];
      assert r != [] ==> r[|r| - 1] == s[|r| - 1];
      assert |r| == |t|;
    }
  }

  /** `r` is `s` from position `k` on, and around it stand newlines, as many as there are. */
  ghost predicate Stripped(s: string, r: string, k: nat) {
    && k + |r| <= |s| && (forall i :: 0 <= i < |r| ==> r[i] == s[k + i])
    && (forall i :: 0 <= i < k ==> IsNewline(s[i])) && (forall i :: k + |r| <= i < |s| ==> IsNewline(s[i]))
    && (r == [] || (!IsNewline(r[0]) && !IsNewline(r[|r| - 1])))
  }

  lemma {:induction false} DropLeadingExact(s: string) returns (k: nat)
    ensures |DropLeading(s)| == |s| - k && forall i :: 0 <= i < k ==> IsNewline(s[i])
    ensures forall i :: 0 <= i < |s| - k ==> DropLeading(s)[i] == s[k + i]
    ensures k < |s| ==> !IsNewline(s[k])
  {
    if s == [] || !IsNewline(s[0]) {
      k := 0;
    } else {
      var rest := DropLeadingExact(s[1..]);
      k := rest + 1;
      forall i | 0 <= i < k ensures IsNewline(s[i]) {
        assert i > 0 ==> s[i] == s[1..][i - 1];
      }
    }
  }

  lemma {:induction false} DropTrailingExact(s: string)
    ensures var r := DropTrailing(s);
      && |r| <= |s| && (forall i :: 0 <= i < |r| ==> r[i] == s[i])
      && (forall i :: |r| <= i < |s| ==> IsNewline(s[i])) && (r == [] || !IsNewline(s[|r| - 1]))
  {
    if s == [] || !IsNewline(s[|s| - 1]) {
    } else {
      DropTrailingExact(s[..|s| - 1]);
    }
  }

  lemma StripExact(s: string) returns (k: nat)
    ensures Stripped(s, StripNewlines(s), k)
  {
    k := DropLeadingExact(s);
    DropTrailingExact(DropLeading(s));
    StripJoins(s, DropLeading(s), StripNewlines(s), k);
  }

  lemma StripJoins(s: string, t: string, r: string, k: nat)
    requires |t| == |s| - k && (forall i :: 0 <= i < |t| ==> t[i] == s[k + i]) && (k < |s| ==> !IsNewline(s[k]))
    requires |r| <= |t| && (forall i :: 0 <= i < |r| ==> r[i] == t[i])
    requires (forall i :: |r| <= i < |t| ==> IsNewline(t[i])) && (r == [] || !IsNewline(t[|r| - 1]))
    requires forall i :: 0 <= i < k ==> IsNewline(s[i])
    ensures Stripped(s, r, k)
  {
    forall i | k + |r| <= i < |s| ensures IsNewline(s[i]) {
      assert t[i - k] == s[k + (i - k)];
    }
  }

  // ---- sections

  datatype Section = Section(begin: string, end: string)

  predicate OneLine(pat: string) {
    pat != [] && forall k :: 0 <= k < |pat| ==> !IsNewline(pat[k])
  }

  /** A marker pair as the callers write them: not empty, on one line. */
  predicate Proper(s: Section) { OneLine(s.begin) && OneLine(s.end) }

  /** Where the begin marker starts and where the end marker after it starts. */
  datatype Span = Span(start: nat, finish: nat)

  function Locate(text: string, s: Section): (r: Option<Span>)
    ensures r.Some? ==> r.value.start + |s.begin| <= r.value.finish && r.value.finish + |s.end| <= |text|
  {
    var start := Find(text, s.begin, 0);
    if start.None? then None
    else
      var finish := Find(text, s.end, start.value + |s.begin|);
      if finish.None? then None else Some(Span(start.value, finish.value))
  }

  /** The first begin marker, and the first end marker behind it. */
  lemma LocateExact(text: string, s: Section, a: nat, f: nat)
    ensures Locate(text, s) == Some(Span(a, f)) <==>
      && At(text, s.begin, a) && (forall j :: 0 <= j < a ==> !At(text, s.begin, j))
      && At(text, s.end, f) && a + |s.begin| <= f && forall j :: a + |s.begin| <= j < f ==> !At(text, s.end, j)
  {
    FindFirst(text, s.begin, 0);
    if Find(text, s.begin, 0).Some? {
      FindFirst(text, s.end, Find(text, s.begin, 0).value + |s.begin|);
    }
  }

  /** Which marker is reported missing. */
  lemma ReplaceErrors(text: string, s: Section, content: string)
    ensures Replace(text, s, content).Ok? <==> Locate(text, s).Some?
    ensures Replace(text, s, content).Err? ==>
      Replace(text, s, content).error == if Occurs(s.begin, text) then s.end else s.begin
    ensures Extract(text, s).Some? <==> Locate(text, s).Some?
  {
    FoundIffOccurs(text, s.begin);
  }

  /** What is read is what stands between the markers, newlines around it aside. */
  lemma ExtractExact(text: string, s: Section, span: Span) returns (k: nat)
    requires Locate(text, s) == Some(span)
    ensures Extract(text, s).Some?
    ensures Stripped(text[span.start + |s.begin|..span.finish], Extract(text, s).value, k)
  {
    k := StripExact(text[span.start + |s.begin|..span.finish]);
  }

  function Extract(text: string, s: Section): Option<string> {
    var span := Locate(text, s);
    if span.None? then None
    else Some(StripNewlines(text[span.value.start + |s.begin|..span.value.finish]))
  }

  /** Err: the marker that is missing. */
  function Replace(text: string, s: Section, content: string): Result<string, string> {
    var start := Find(text, s.begin, 0);
    if start.None? then Err(s.begin)
    else
      var finish := Find(text, s.end, start.value + |s.begin|);
      if finish.None? then Err(s.end)
      else
        Ok(Joined([text[..start.value], s.begin, "\n", TrimRight(content), "\n", s.end,
                   text[finish.value + |s.end|..]]))
  }

  function Joined(parts: seq<string>): string {
    if parts == [] then "" else Joined(parts[..|parts| - 1]) + parts[|parts| - 1]
  }

  /** What a section shows once `content` is written: trimmed right, leading newlines gone. */
  function Shown(content: string): string { DropLeading(TrimRight(content)) }

  // ---- texts that agree in part

  /** `t` at `i` and `u` at `j` agree for `n` positions. */
  ghost predicate Same(t: string, i: nat, u: string, j: nat, n: nat)
    requires i + n <= |t| && j + n <= |u|
    decreases n
  {
    n == 0 || (t[i] == u[j] && Same(t, i + 1, u, j + 1, n - 1))
  }

  lemma {:induction false} SamePoints(t: string, i: nat, u: string, j: nat, n: nat)
    requires i + n <= |t| && j + n <= |u|
    ensures Same(t, i, u, j, n) <==> forall k :: i <= k < i + n ==> t[k] == u[k - i + j]
    decreases n
  {
    if n == 0 {
    } else {
      SamePoints(t, i + 1, u, j + 1, n - 1);
    }
  }

  lemma {:induction false} SameSlices(t: string, i: nat, u: string, j: nat, n: nat)
    requires i + n <= |t| && j + n <= |u|
    ensures Same(t, i, u, j, n) <==> t[i..i + n] == u[j..j + n]
  {
    SamePoints(t, i, u, j, n);
    if t[i..i + n] == u[j..j + n] {
      forall k | i <= k < i + n ensures t[k] == u[k - i + j] {
        assert t[i..i + n][k - i] == u[j..j + n][k - i];
      }
    }
  }

  /** `t` from `i` on and `u` from `i + d` on agree for the positions below `end` of `t`. */
  ghost predicate Agree(t: string, u: string, i: nat, end: nat, d: int) {
    i <= end <= |t| && 0 <= i + d && end + d <= |u| && Same(t, i, u, i + d, end - i)
  }

  lemma AgreeAt(t: string, u: string, i: nat, end: nat, d: int, k: nat)
    requires Agree(t, u, i, end, d) && i <= k < end
    ensures t[k] == u[k + d]
  {
    SamePoints(t, i, u, i + d, end - i);
  }

  lemma AtAgrees(t: string, u: string, pat: string, i: nat, end: nat, d: int, j: nat)
    requires Agree(t, u, i, end, d) && i <= j && j + |pat| <= end
    ensures At(t, pat, j) <==> At(u, pat, j + d)
  {
    AtPoints(t, pat, j);
    AtPoints(u, pat, j + d);
    forall k | 0 <= k < |pat| ensures t[j + k] == pat[k] <==> u[(j + d) + k] == pat[k] {
      AgreeAt(t, u, i, end, d, j + k);
    }
  }

  /** The first occurrence depends only on the text up to its end. */
  lemma {:induction false} FindAgrees(t: string, u: string, pat: string, from: nat, end: nat)
    requires Agree(t, u, 0, end, 0) && Find(t, pat, from).Some? && Find(t, pat, from).value + |pat| <= end
    ensures Find(u, pat, from) == Find(t, pat, from)
  {
    var i := Find(t, pat, from).value;
    FindFirst(t, pat, from);
    forall j | from <= j <= i ensures At(u, pat, j) <==> At(t, pat, j) {
      AtAgrees(t, u, pat, 0, end, 0, j);
    }
    FoundAt(u, pat, from, i);
  }

  /** Occurrences move along with the text after a changed part. */
  lemma FindMoves(t: string, u: string, pat: string, i: nat, d: int, from: nat)
    requires Agree(t, u, i, |t|, d) && |u| == |t| + d && i <= from
    ensures Find(t, pat, from).Some? ==> Find(u, pat, from + d) == Some(Find(t, pat, from).value + d)
    ensures Find(t, pat, from).None? ==> Find(u, pat, from + d) == None
  {
    var a, b := Find(t, pat, from), Find(u, pat, from + d);
    FindFirst(t, pat, from);
    FindFirst(u, pat, from + d);
    if b.Some? {
      AtAgrees(t, u, pat, i, |t|, d, b.value - d);
    }
    if a.Some? {
      AtAgrees(t, u, pat, i, |t|, d, a.value);
    }
  }

  /** A pattern on one line never lies across a newline. */
  lemma NotAcross(t: string, pat: string, i: nat, k: nat)
    requires OneLine(pat) && At(t, pat, i) && k < |t| && t[k] == '\n'
    ensures k < i || i + |pat| <= k
  {
    AtPoints(t, pat, i);
    forall j | i <= j < i + |pat| ensures !IsNewline(t[j]) {
      assert t[i + (j - i)] == pat[j - i];
    }
  }

  lemma {:induction false} FindSkips(t: string, pat: string, from: nat, k: nat)
    requires from <= k && forall i :: from <= i < k ==> !At(t, pat, i)
    ensures Find(t, pat, from) == Find(t, pat, k)
  {
    FindFirst(t, pat, from);
    FindFirst(t, pat, k);
  }

  // ---- the text after a replacement

  /** `u` is `text` with its first `b` positions kept, then `c` on lines of its own, then `text` from `f` on. */
  ghost predicate Written(text: string, u: string, b: nat, c: string, f: nat) {
    && b <= f <= |text| && |u| == b + |c| + 2 + |text| - f
    && Agree(text, u, 0, b, 0) && u[b] == '\n' && Agree(c, u, 0, |c|, b + 1) && u[b + 1 + |c|] == '\n'
    && Agree(text, u, f, |text|, b + |c| + 2 - f)
  }

  lemma Replaced(text: string, s: Section, content: string)
    requires Locate(text, s).Some?
    ensures Replace(text, s, content).Ok?
    ensures var span := Locate(text, s).value;
      Written(text, Replace(text, s, content).value, span.start + |s.begin|, TrimRight(content), span.finish)
  {
    var span := Locate(text, s).value;
    FindFirst(text, s.begin, 0);
    FindFirst(text, s.end, span.start + |s.begin|);
    Spliced(text, Replace(text, s, content).value, s, span, TrimRight(content), text[..span.start],
            text[span.finish + |s.end|..]);
  }

  lemma Spliced(text: string, u: string, s: Section, span: Span, c: string, left: string, right: string)
    requires span.start + |s.begin| <= span.finish && At(text, s.begin, span.start) && At(text, s.end, span.finish)
    requires |left| == span.start && forall k :: 0 <= k < |left| ==> left[k] == text[k]
    requires |right| == |text| - (span.finish + |s.end|)
    requires forall k :: span.finish + |s.end| <= k < |text| ==> right[k - (span.finish + |s.end|)] == text[k]
    requires u == Joined([left, s.begin, "\n", c, "\n", s.end, right])
    ensures Written(text, u, span.start + |s.begin|, c, span.finish)
  {
    SplicedFront(text, u, span.start, s.begin, c, s.end, left, right);
    SplicedMiddle(u, left, s.begin, c, s.end, right);
    SplicedBack(text, u, span.finish, s.begin, c, s.end, left, right);
  }

  lemma SplicedFront(text: string, u: string, a: nat, begin: string, c: string, end: string,
                     left: string, right: string)
    requires At(text, begin, a) && |left| == a && forall k :: 0 <= k < |left| ==> left[k] == text[k]
    requires u == Joined([left, begin, "\n", c, "\n", end, right])
    ensures Agree(text, u, 0, a + |begin|, 0)
  {
    JoinedAt(left, begin, c, end, right);
    FrontSame(text, u, begin, a);
    SamePoints(text, 0, u, 0, a + |begin|);
  }

  lemma SplicedMiddle(u: string, left: string, begin: string, c: string, end: string, right: string)
    requires u == Joined([left, begin, "\n", c, "\n", end, right])
    ensures var b := |left| + |begin|;
      && |u| == b + |c| + 2 + |end| + |right|
      && u[b] == '\n' && Agree(c, u, 0, |c|, b + 1) && u[b + 1 + |c|] == '\n'
  {
    JoinedAt(left, begin, c, end, right);
    SameFrom(c, u, |left| + |begin| + 1);
  }

  lemma SameFrom(c: string, u: string, j: nat)
    requires j + |c| <= |u| && forall k :: j <= k < j + |c| ==> u[k] == c[k - j]
    ensures Agree(c, u, 0, |c|, j)
  {
    forall k | 0 <= k < |c| ensures c[k] == u[k - 0 + j] {
      assert u[k + j] == c[(k + j) - j];
    }
    SamePoints(c, 0, u, j, |c|);
  }

  lemma SplicedBack(text: string, u: string, f: nat, begin: string, c: string, end: string,
                    left: string, right: string)
    requires At(text, end, f) && |right| == |text| - (f + |end|)
    requires forall k :: f + |end| <= k < |text| ==> right[k - (f + |end|)] == text[k]
    requires u == Joined([left, begin, "\n", c, "\n", end, right])
    ensures Agree(text, u, f, |text|, |left| + |begin| + |c| + 2 - f)
  {
    var d := |left| + |begin| + |c| + 2 - f;
    JoinedAt(left, begin, c, end, right);
    forall k | f + |end| <= k < |text| ensures u[k + d] == text[k] {
      assert right[k - (f + |end|)] == text[k];
    }
    BackSame(text, u, end, f, d);
  }

  lemma FrontSame(text: string, u: string, pat: string, a: nat)
    requires At(text, pat, a) && a + |pat| <= |u|
    requires (forall k :: 0 <= k < a ==> u[k] == text[k]) && (forall k :: a <= k < a + |pat| ==> u[k] == pat[k - a])
    ensures forall k :: 0 <= k < a + |pat| ==> text[k] == u[k]
  {
    AtPoints(text, pat, a);
    forall k | a <= k < a + |pat| ensures text[k] == u[k] {
      assert text[a + (k - a)] == pat[k - a];
    }
  }

  lemma BackSame(text: string, u: string, pat: string, f: nat, d: int)
    requires At(text, pat, f) && 0 <= f + d && |u| == |text| + d
    requires forall k :: f + d <= k < f + d + |pat| ==> u[k] == pat[k - (f + d)]
    requires forall k :: f + |pat| <= k < |text| ==> u[k + d] == text[k]
    ensures Agree(text, u, f, |text|, d)
  {
    AtPoints(text, pat, f);
    forall k | f <= k < |text| ensures text[k] == u[k - f + (f + d)] {
      if k < f + |pat| {
        assert text[f + (k - f)] == pat[k - f];
        assert u[k + d] == pat[k + d - (f + d)];
      } else {
        assert u[k + d] == text[k];
      }
    }
    SamePoints(text, f, u, f + d, |text| - f);
  }

  /** Which character stands where after a splice. */
  lemma JoinedAt(left: string, begin: string, c: string, end: string, right: string)
    ensures var u, a, b := Joined([left, begin, "\n", c, "\n", end, right]), |left|, |left| + |begin|;
      var j := b + |c| + 2;
      && |u| == j + |end| + |right|
      && (forall k :: 0 <= k < a ==> u[k] == left[k]) && (forall k :: a <= k < b ==> u[k] == begin[k - a])
      && u[b] == '\n' && (forall k :: b + 1 <= k < b + 1 + |c| ==> u[k] == c[k - (b + 1)]) && u[b + 1 + |c|] == '\n'
      && (forall k :: j <= k < j + |end| ==> u[k] == end[k - j])
      && (forall k :: j + |end| <= k < |u| ==> u[k] == right[k - (j + |end|)])
  {
    var p3, p5 := [left] + [begin] + ["\n"], [left] + [begin] + ["\n"] + [c] + ["\n"];
    FrontJoined(left, begin);
    JoinedLast(p3, c);
    JoinedLast(p3 + [c], "\n");
    JoinedLast(p5, end);
    JoinedLast(p5 + [end], right);
    assert p5 + [end] + [right] == [left, begin, "\n", c, "\n", end, right];
  }

  lemma FrontJoined(left: string, begin: string)
    ensures Joined([left] + [begin] + ["\n"]) == left + begin + "\n"
  {
    JoinedLast([], left);
    assert [] + [left] == [left] && Joined([left]) == left;
    JoinedLast([left], begin);
    assert Joined([left] + [begin]) == left + begin;
    JoinedLast([left] + [begin], "\n");
  }

  lemma {:induction false} JoinedLast(parts: seq<string>, last: string)
    ensures Joined(parts + [last]) == Joined(parts) + last
  {
    assert (parts + [last])[..|parts|] == parts;
  }

  /** The character at `k` of the text written. */
  lemma WrittenAt(text: string, u: string, b: nat, c: string, f: nat, k: nat)
    requires Written(text, u, b, c, f) && k < |u|
    ensures u[k] == if k < b then text[k]
                    else if k == b || k == b + 1 + |c| then '\n'
                    else if k < b + 1 + |c| then c[k - (b + 1)]
                    else text[k - (b + |c| + 2 - f)]
  {
    var d := b + |c| + 2 - f;
    if k < b {
      AgreeAt(text, u, 0, b, 0, k);
    } else if b < k < b + 1 + |c| {
      AgreeAt(c, u, 0, |c|, b + 1, k - (b + 1));
    } else if k >= b + |c| + 2 {
      AgreeAt(text, u, f, |text|, d, k - d);
    }
  }

  /** From the written content on, a one-line pattern occurs inside it or in the old text behind it. */
  lemma OccursAfter(text: string, u: string, b: nat, c: string, f: nat, pat: string, i: nat)
    requires Written(text, u, b, c, f) && OneLine(pat) && b <= i && At(u, pat, i)
    ensures var j := b + |c| + 2;
      (b + 1 <= i && i + |pat| <= b + 1 + |c| && At(c, pat, i - (b + 1))) || (j <= i && At(text, pat, i - j + f))
  {
    NotAcross(u, pat, i, b);
    NotAcross(u, pat, i, b + 1 + |c|);
    if i < b + 1 + |c| {
      AtAgrees(c, u, pat, 0, |c|, b + 1, i - (b + 1));
    } else {
      AtAgrees(text, u, pat, f, |text|, b + |c| + 2 - f, i - (b + |c| + 2 - f));
    }
  }

  lemma {:induction false} FindInContent(text: string, u: string, b: nat, c: string, f: nat, pat: string, k: nat)
    requires Written(text, u, b, c, f) && OneLine(pat) && Find(c, pat, 0) == Some(k)
    ensures Find(u, pat, b) == Some(b + 1 + k)
  {
    FindFirst(c, pat, 0);
    AtAgrees(c, u, pat, 0, |c|, b + 1, k);
    forall i | b <= i < b + 1 + k ensures !At(u, pat, i) {
      if At(u, pat, i) {
        OccursAfter(text, u, b, c, f, pat, i);
      }
    }
    FoundAt(u, pat, b, b + 1 + k);
  }

  lemma {:induction false} FindBehind(text: string, u: string, b: nat, c: string, f: nat, pat: string)
    requires Written(text, u, b, c, f) && OneLine(pat) && !Occurs(pat, c)
    ensures Find(text, pat, f).Some? ==> Find(u, pat, b) == Some(Find(text, pat, f).value + (b + |c| + 2 - f))
    ensures Find(text, pat, f).None? ==> Find(u, pat, b) == None
  {
    forall i | b <= i < b + |c| + 2 ensures !At(u, pat, i) {
      if At(u, pat, i) {
        OccursAfter(text, u, b, c, f, pat, i);
      }
    }
    FindSkips(u, pat, b, b + |c| + 2);
    FindMoves(text, u, pat, f, b + |c| + 2 - f, f);
  }

  /** Where a section is found after it was written: at the same place, ending at the first end marker, which may be
      one in the content. */
  lemma {:induction false} LocateWritten(text: string, u: string, s: Section, span: Span, c: string)
    requires Proper(s) && Locate(text, s) == Some(span)
    requires Written(text, u, span.start + |s.begin|, c, span.finish)
    ensures var b, inside := span.start + |s.begin|, Find(c, s.end, 0);
      Locate(u, s) == Some(Span(span.start, if inside.Some? then b + 1 + inside.value else b + |c| + 2))
  {
    var b := span.start + |s.begin|;
    FindAgrees(text, u, s.begin, 0, b);
    if Find(c, s.end, 0).Some? {
      FindInContent(text, u, b, c, span.finish, s.end, Find(c, s.end, 0).value);
    } else {
      FoundIffOccurs(c, s.end);
      FindFirst(text, s.end, b);
      FoundAt(text, s.end, span.finish, span.finish);
      FindBehind(text, u, b, c, span.finish, s.end);
    }
  }

  // ---- round trip and idempotence

  /** Read back what was written: right-trimmed, leading newlines gone, exactly when the trimmed content does not hold
      the end marker itself. */
  lemma ExtractAfterReplace(text: string, s: Section, content: string)
    requires Proper(s) && Locate(text, s).Some?
    ensures Extract(Replace(text, s, content).value, s) == Some(Shown(content)) <==> !Occurs(s.end, TrimRight(content))
  {
    Replaced(text, s, content);
    ExtractWritten(text, Replace(text, s, content).value, s, Locate(text, s).value, TrimRight(content));
  }

  lemma {:induction false} ExtractWritten(text: string, u: string, s: Section, span: Span, c: string)
    requires Proper(s) && Locate(text, s) == Some(span)
    requires Written(text, u, span.start + |s.begin|, c, span.finish)
    requires c == [] || !IsSpace(c[|c| - 1])
    ensures Extract(u, s) == Some(DropLeading(c)) <==> !Occurs(s.end, c)
  {
    LocateWritten(text, u, s, span, c);
    var b, inside := span.start + |s.begin|, Find(c, s.end, 0);
    FoundIffOccurs(c, s.end);
    if inside.Some? {
      FindFirst(c, s.end, 0);
      Middle(text, u, b, c, span.finish, inside.value);
      CutShort(c, s.end, inside.value);
    } else {
      Middle(text, u, b, c, span.finish, |c| + 1);
      ReadWhole(c);
    }
  }

  /** The first `n` characters behind the newline that follows the begin marker. */
  lemma Middle(text: string, u: string, b: nat, c: string, f: nat, n: nat)
    requires Written(text, u, b, c, f) && n <= |c| + 1
    ensures u[b..b + 1 + n] == "\n" + (c + "\n")[..n]
  {
    forall k | 0 <= k < 1 + n ensures u[b..b + 1 + n][k] == ("\n" + (c + "\n")[..n])[k] {
      WrittenAt(text, u, b, c, f, b + k);
    }
  }

  lemma {:induction false} DropLeadingAppend(c: string, t: string)
    requires c != [] && !IsNewline(c[|c| - 1])
    ensures DropLeading(c + t) == DropLeading(c) + t
    ensures DropLeading(c) != [] && DropLeading(c)[|DropLeading(c)| - 1] == c[|c| - 1]
  {
    if IsNewline(c[0]) {
      assert (c + t)[1..] == c[1..] + t;
      DropLeadingAppend(c[1..], t);
    }
  }

  lemma {:induction false} ReadWhole(c: string)
    requires c == [] || !IsSpace(c[|c| - 1])
    ensures (c + "\n")[..|c| + 1] == c + "\n"
    ensures StripNewlines("\n" + (c + "\n")) == DropLeading(c)
  {
    assert ("\n" + (c + "\n"))[1..] == c + "\n";
    if c == [] {
      assert "\n"[1..] == "" && c + "\n" == "\n" && DropLeading("\n") == "";
    } else {
      var d := DropLeading(c);
      DropLeadingAppend(c, "\n");
      assert (c + "\n")[..|c| + 1] == c + "\n";
      assert DropLeading("\n" + (c + "\n")) == d + "\n";
      assert (d + "\n")[..|d|] == d;
      assert DropTrailing(d + "\n") == DropTrailing(d) == d;
    }
  }

  /** Text up to an end marker in it is too short. */
  lemma {:induction false} CutShort(c: string, end: string, k: nat)
    requires OneLine(end) && At(c, end, k)
    ensures k < |c| && StripNewlines("\n" + (c + "\n")[..k]) != DropLeading(c)
  {
    AtPoints(c, end, k);
    assert c[k + 0] == end[0];
    assert (c + "\n")[..k] == c[..k] && ("\n" + c[..k])[1..] == c[..k];
    DropLeadingCut(c, k);
  }

  lemma {:induction false} DropLeadingCut(c: string, k: nat)
    requires k < |c| && !IsNewline(c[k])
    ensures |DropLeading(c[..k])| < |DropLeading(c)|
  {
    if k > 0 && IsNewline(c[0]) {
      assert c[..k][1..] == c[1..][..k - 1];
      DropLeadingCut(c[1..], k - 1);
    }
  }

  /** Writing the same content twice is writing it once, exactly under the same condition; else the text grows. */
  lemma ReplaceIdempotent(text: string, s: Section, content: string)
    requires Proper(s) && Locate(text, s).Some?
    ensures Replace(Replace(text, s, content).value, s, content) == Replace(text, s, content)
       <==> !Occurs(s.end, TrimRight(content))
  {
    var c, span := TrimRight(content), Locate(text, s).value;
    var u := Replace(text, s, content).value;
    Replaced(text, s, content);
    LocateWritten(text, u, s, span, c);
    WriteAgain(text, u, s, span, content);
  }

  lemma WriteAgain(text: string, u: string, s: Section, span: Span, content: string)
    requires Locate(u, s).Some? && OneLine(s.end)
    requires var b, c, inside := span.start + |s.begin|, TrimRight(content), Find(TrimRight(content), s.end, 0);
      && Written(text, u, b, c, span.finish)
      && Locate(u, s) == Some(Span(span.start, if inside.Some? then b + 1 + inside.value else b + |c| + 2))
    ensures Replace(u, s, content) == Ok(u) <==> !Occurs(s.end, TrimRight(content))
  {
    Replaced(u, s, content);
    SecondWrite(text, u, Replace(u, s, content).value, s, span, TrimRight(content));
  }

  lemma {:induction false} SecondWrite(text: string, u: string, v: string, s: Section, span: Span, c: string)
    requires Written(text, u, span.start + |s.begin|, c, span.finish) && OneLine(s.end)
    requires var b, inside := span.start + |s.begin|, Find(c, s.end, 0);
      Written(u, v, b, c, if inside.Some? then b + 1 + inside.value else b + |c| + 2)
    ensures u == v <==> !Occurs(s.end, c)
  {
    var b := span.start + |s.begin|;
    FoundIffOccurs(c, s.end);
    if Find(c, s.end, 0).None? {
      WrittenTwice(text, u, v, b, c, span.finish);
    } else {
      assert |v| > |u|;
    }
  }

  lemma WrittenTwice(text: string, u: string, v: string, b: nat, c: string, f: nat)
    requires Written(text, u, b, c, f) && Written(u, v, b, c, b + |c| + 2)
    ensures u == v
  {
    forall k | 0 <= k < |u| ensures u[k] == v[k] {
      WrittenAt(text, u, b, c, f, k);
      WrittenAt(u, v, b, c, b + |c| + 2, k);
    }
  }
}
