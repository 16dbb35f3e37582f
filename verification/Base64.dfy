/** Base64url without padding, as the signing helpers encode keys and signatures (RFC 4648, sections 3.2 and 5). */
module Base64 {
  import opened Wrappers
  import opened ByteStrings

  /** The character of a sextet in the URL-safe alphabet. */
  function Letter(n: int): char
    requires 0 <= n < 64
  {
    if n < 26 then ('A' as int + n) as char
    else if n < 52 then ('a' as int + n - 26) as char
    else if n < 62 then ('0' as int + n - 52) as char
    else if n == 62 then '-'
    else '_'
  }

  function Sextet(c: char): (n: int)
    ensures -1 <= n < 64
  {
    if 'A' <= c <= 'Z' then c as int - 'A' as int
    else if 'a' <= c <= 'z' then c as int - 'a' as int + 26
    else if '0' <= c <= '9' then c as int - '0' as int + 52
    else if c == '-' then 62
    else if c == '_' then 63
    else -1
  }

  lemma SextetOfLetter(n: int)
    requires 0 <= n < 64
    ensures Sextet(Letter(n)) == n && Letter(n) != '='
  {
  }

  ghost predicate AllSextets(v: seq<int>) { forall i :: 0 <= i < |v| ==> 0 <= v[i] < 64 }

  /** The bits six at a time, the last group filled up with zero bits. */
  function Sextets(b: Bytes): (v: seq<int>)
    ensures AllSextets(v)
  {
    if b == [] then []
    else if |b| == 1 then [b[0] as int / 4, b[0] as int % 4 * 16]
    else if |b| == 2 then [b[0] as int / 4, b[0] as int % 4 * 16 + b[1] as int / 16, b[1] as int % 16 * 4]
    else Four(b[0] as int, b[1] as int, b[2] as int) + Sextets(b[3..])
  }

  function Four(x: int, y: int, z: int): (v: seq<int>)
    requires 0 <= x < 256 && 0 <= y < 256 && 0 <= z < 256
    ensures |v| == 4 && AllSextets(v)
  {
    [x / 4, x % 4 * 16 + y / 16, y % 16 * 4 + z / 64, z % 64]
  }

  /** The bits eight at a time; a single sextet left over is an error, spare bits of the last one are dropped. */
  function FromSextets(v: seq<int>): Option<Bytes>
    requires AllSextets(v)
  {
    if v == [] then Some([])
    else if |v| == 1 then None
    else
      var x := (v[0] * 4 + v[1] / 16) as byte;
      if |v| == 2 then Some([x])
      else
        var y := (v[1] % 16 * 16 + v[2] / 4) as byte;
        if |v| == 3 then Some([x, y])
        else
          var rest := FromSextets(v[4..]);
          if rest.None? then None else Some([x, y, (v[2] % 4 * 64 + v[3]) as byte] + rest.value)
  }

  function LettersOf(v: seq<int>): (s: string)
    requires AllSextets(v)
    ensures |s| == |v|
  {
    if v == [] then "" else LettersOf(v[..|v| - 1]) + [Letter(v[|v| - 1])]
  }

  /** None: a character outside the alphabet. */
  function ValuesOf(s: string): (v: Option<seq<int>>)
    ensures v.Some? ==> AllSextets(v.value)
  {
    if s == [] then Some([])
    else
      var front, last := ValuesOf(s[..|s| - 1]), Sextet(s[|s| - 1]);
      if front.None? || last < 0 then None else Some(front.value + [last])
  }

  /** `k` equals signs. */
  function Equals(k: nat): (s: string)
    ensures |s| == k
  {
    if k == 0 then "" else Equals(k - 1) + "="
  }

  /** `rstrip("=")`. */
  function DropPadding(s: string): string {
    if s == [] || s[|s| - 1] != '=' then s else DropPadding(s[..|s| - 1])
  }

  /** `urlsafe_b64encode`: filled up with '=' to a multiple of four. */
  function EncodePadded(b: Bytes): string {
    LettersOf(Sextets(b)) + Equals((3 - |b| % 3) % 3)
  }

  /** `urlsafe_b64decode` of well-formed input; None for anything else. */
  function DecodePadded(s: string): Option<Bytes> {
    var letters := DropPadding(s);
    var values := ValuesOf(letters);
    if |s| % 4 != 0 || |s| - |letters| > 2 || values.None? then None else FromSextets(values.value)
  }

  /** The two helpers of the signing scripts. */
  function Encode(b: Bytes): string { DropPadding(EncodePadded(b)) }

  function Decode(s: string): Option<Bytes> { DecodePadded(s + Equals((-|s|) % 4)) }

  // ---- bits

  lemma GroupReadsBack(x: int, y: int, z: int)
    requires 0 <= x < 256 && 0 <= y < 256 && 0 <= z < 256
    ensures x / 4 * 4 + (x % 4 * 16 + y / 16) / 16 == x
    ensures (x % 4 * 16 + y / 16) % 16 * 16 + (y % 16 * 4 + z / 64) / 4 == y
    ensures (y % 16 * 4 + z / 64) % 4 * 64 + z % 64 == z
  {
    var u, v := x % 4 * 16 + y / 16, y % 16 * 4 + z / 64;
    assert u / 16 == x % 4 && u % 16 == y / 16;
    assert v / 4 == y % 16 && v % 4 == z / 64;
  }

  lemma {:induction false} SextetsReadBack(b: Bytes)
    ensures FromSextets(Sextets(b)) == Some(b)
  {
    if |b| == 1 {
      OneReadsBack(b);
    } else if |b| == 2 {
      TwoReadBack(b);
    } else if b != [] {
      SextetsReadBack(b[3..]);
      GroupFirst(b);
      assert b == [b[0], b[1], b[2]] + b[3..];
    }
  }

  lemma {:induction false} OneReadsBack(b: Bytes)
    requires |b| == 1
    ensures FromSextets(Sextets(b)) == Some(b)
  {
    GroupReadsBack(b[0] as int, 0, 0);
    assert b == [b[0]];
  }

  lemma {:induction false} TwoReadBack(b: Bytes)
    requires |b| == 2
    ensures FromSextets(Sextets(b)) == Some(b)
  {
    GroupReadsBack(b[0] as int, b[1] as int, 0);
    assert b == [b[0], b[1]];
  }

  /** Three bytes and their four sextets in front. */
  lemma {:induction false} GroupFirst(b: Bytes)
    requires |b| >= 3
    ensures var v := Sextets(b);
      && |v| >= 4 && v[4..] == Sextets(b[3..])
      && v[0] * 4 + v[1] / 16 == b[0] as int && v[1] % 16 * 16 + v[2] / 4 == b[1] as int
      && v[2] % 4 * 64 + v[3] == b[2] as int
  {
    GroupReadsBack(b[0] as int, b[1] as int, b[2] as int);
    assert Sextets(b)[4..] == Sextets(b[3..]);
  }

  lemma {:induction false} SextetsLength(b: Bytes)
    ensures |Sextets(b)| == |b| / 3 * 4 + (if |b| % 3 == 0 then 0 else |b| % 3 + 1)
  {
    if |b| < 3 {
    } else {
      SextetsLength(b[3..]);
    }
  }

  // ---- the encoding, bit by bit

  /** The URL-safe alphabet of RFC 4648, section 5. */
  function Alphabet(): string { "ABCDEFGHIJKLMNOPQRSTUVWXYZ" + "abcdefghijklmnopqrstuvwxyz" + "0123456789" + "-_" }

  lemma LetterExact(n: int)
    requires 0 <= n < 64
    ensures |Alphabet()| == 64 && Letter(n) == Alphabet()[n]
  {
    if n < 26 {
      assert "ABCDEFGHIJKLMNOPQRSTUVWXYZ"[n] as int == 'A' as int + n;
    } else if n < 52 {
      assert "abcdefghijklmnopqrstuvwxyz"[n - 26] as int == 'a' as int + (n - 26);
    } else if n < 62 {
      assert "0123456789"[n - 52] as int == '0' as int + (n - 52);
    }
  }

  /** The number with these digits. */
  function Number(digits: seq<int>, base: nat): int {
    if digits == [] then 0 else Number(digits[..|digits| - 1], base) * base + digits[|digits| - 1]
  }

  function Digits(b: Bytes): (r: seq<int>)
    ensures |r| == |b|
  {
    seq(|b|, i requires 0 <= i < |b| => b[i] as int)
  }

  /** Written one behind another, the sextets have the same bits as the bytes, filled up with zero bits. */
  lemma {:induction false} SameNumber(b: Bytes)
    ensures Number(Sextets(b), 64)
         == Number(Digits(b), 256) * (if |b| % 3 == 0 then 1 else if |b| % 3 == 1 then 16 else 4)
  {
    if b != [] {
      var k := if |b| % 3 == 0 then |b| - 3 else |b| - |b| % 3;
      var last := b[k..];
      assert b == b[..k] + last && k % 3 == 0;
      SextetsAppend(b[..k], last);
      SameNumber(b[..k]);
      LastGroup(Sextets(b[..k]), b[..k], last);
    }
  }

  lemma {:induction false} LastGroup(v: seq<int>, front: Bytes, last: Bytes)
    requires 1 <= |last| <= 3 && Number(v, 64) == Number(Digits(front), 256)
    ensures Number(v + Sextets(last), 64)
         == Number(Digits(front + last), 256) * (if |last| == 3 then 1 else if |last| == 1 then 16 else 4)
  {
    assert Digits(front + last) == Digits(front) + Digits(last);
    if |last| == 1 {
      LastOne(v, Digits(front), last[0] as int);
      assert Digits(last) == [last[0] as int];
    } else if |last| == 2 {
      LastTwo(v, Digits(front), last[0] as int, last[1] as int);
      assert Digits(last) == [last[0] as int, last[1] as int];
    } else {
      LastThree(v, Digits(front), last[0] as int, last[1] as int, last[2] as int);
      assert last[3..] == [] && Digits(last) == [last[0] as int, last[1] as int, last[2] as int];
      assert Sextets(last) == Sextets(last)[..4];
    }
  }

  lemma {:induction false} LastOne(v: seq<int>, s: seq<int>, x: int)
    requires Number(v, 64) == Number(s, 256)
    ensures Number(v + [x / 4, x % 4 * 16], 64) == Number(s + [x], 256) * 16
  {
    TwoMore(v, x / 4, x % 4 * 16, 64);
    Next(s, x, 256);
  }

  lemma {:induction false} LastTwo(v: seq<int>, s: seq<int>, x: int, y: int)
    requires Number(v, 64) == Number(s, 256)
    ensures Number(v + [x / 4, x % 4 * 16 + y / 16, y % 16 * 4], 64) == Number(s + [x, y], 256) * 4
  {
    ThreeMore(v, x / 4, x % 4 * 16 + y / 16, y % 16 * 4, 64);
    TwoMore(s, x, y, 256);
  }

  lemma {:induction false} LastThree(v: seq<int>, s: seq<int>, x: int, y: int, z: int)
    requires Number(v, 64) == Number(s, 256)
    ensures Number(v + [x / 4, x % 4 * 16 + y / 16, y % 16 * 4 + z / 64, z % 64], 64) == Number(s + [x, y, z], 256)
  {
    FourMore(v, x / 4, x % 4 * 16 + y / 16, y % 16 * 4 + z / 64, z % 64, 64);
    ThreeMore(s, x, y, z, 256);
  }

  lemma {:induction false} Next(s: seq<int>, d: int, base: nat)
    ensures Number(s + [d], base) == Number(s, base) * base + d
  {
    assert (s + [d])[..|s|] == s;
  }

  lemma {:induction false} TwoMore(s: seq<int>, c: int, d: int, base: nat)
    ensures Number(s + [c, d], base) == (Number(s, base) * base + c) * base + d
  {
    assert s + [c, d] == s + [c] + [d];
    Next(s, c, base);
    Next(s + [c], d, base);
  }

  lemma {:induction false} ThreeMore(s: seq<int>, c: int, d: int, e: int, base: nat)
    ensures Number(s + [c, d, e], base) == ((Number(s, base) * base + c) * base + d) * base + e
  {
    assert s + [c, d, e] == s + [c, d] + [e];
    TwoMore(s, c, d, base);
    Next(s + [c, d], e, base);
  }

  lemma {:induction false} FourMore(s: seq<int>, c: int, d: int, e: int, f: int, base: nat)
    ensures Number(s + [c, d, e, f], base) == (((Number(s, base) * base + c) * base + d) * base + e) * base + f
  {
    assert s + [c, d, e, f] == s + [c, d, e] + [f];
    ThreeMore(s, c, d, e, base);
    Next(s + [c, d, e], f, base);
  }

  lemma Grouped(a: seq<int>, b: seq<int>, c: seq<int>)
    ensures (a + b) + c == a + (b + c)
  {
  }

  lemma {:induction false} SextetsAppend(b: Bytes, c: Bytes)
    requires |b| % 3 == 0
    ensures Sextets(b + c) == Sextets(b) + Sextets(c)
  {
    if b == [] {
      assert b + c == c;
    } else {
      SextetsAppend(b[3..], c);
      assert (b + c)[3..] == b[3..] + c && (b + c)[..3] == b[..3];
      Grouped(Four(b[0] as int, b[1] as int, b[2] as int), Sextets(b[3..]), Sextets(c));
    }
  }

  // ---- letters and padding

  lemma {:induction false} ValuesAppend(s: string, n: int)
    requires 0 <= n < 64 && ValuesOf(s).Some?
    ensures ValuesOf(s + [Letter(n)]) == Some(ValuesOf(s).value + [n])
  {
    SextetOfLetter(n);
    assert (s + [Letter(n)])[..|s|] == s;
  }

  lemma {:induction false} LettersReadBack(v: seq<int>)
    requires AllSextets(v)
    ensures ValuesOf(LettersOf(v)) == Some(v)
  {
    if v == [] {
    } else {
      var n := |v| - 1;
      LettersReadBack(v[..n]);
      ValuesAppend(LettersOf(v[..n]), v[n]);
      assert v == v[..n] + [v[n]];
    }
  }

  lemma {:induction false} LettersEndInALetter(v: seq<int>)
    requires AllSextets(v) && v != []
    ensures LettersOf(v)[|v| - 1] != '='
  {
    SextetOfLetter(v[|v| - 1]);
  }

  lemma {:induction false} DropEquals(s: string, k: nat)
    requires s == [] || s[|s| - 1] != '='
    ensures DropPadding(s + Equals(k)) == s
  {
    if k == 0 {
      assert s + "" == s;
    } else {
      DropEquals(s, k - 1);
      assert (s + Equals(k))[..|s| + k - 1] == s + Equals(k - 1);
    }
  }

  lemma Modulo(g: int, c: int)
    requires 0 <= c < 4
    ensures (g * 4 + c) % 4 == c && (-(g * 4 + c)) % 4 == (if c == 0 then 0 else 4 - c)
  {
    var m := g * 4 + c;
    assert m == 4 * g + c;
    assert -m == 4 * (-g - 1) + (4 - c);
    assert c == 0 ==> -m == 4 * (-g);
  }

  lemma {:induction false} EncodeIs(b: Bytes)
    ensures Encode(b) == LettersOf(Sextets(b))
  {
    if b != [] {
      LettersEndInALetter(Sextets(b));
    }
    DropEquals(LettersOf(Sextets(b)), (3 - |b| % 3) % 3);
  }

  lemma {:induction false} LettersAt(v: seq<int>, i: nat)
    requires AllSextets(v) && i < |v|
    ensures LettersOf(v)[i] == Letter(v[i])
  {
    if i < |v| - 1 {
      LettersAt(v[..|v| - 1], i);
    }
  }

  /** The characters of an encoding are the digits, in the alphabet, of the number the bytes are the digits of; with
      the number of characters this determines it. */
  lemma EncodeExact(b: Bytes) returns (digits: seq<int>)
    ensures |Encode(b)| == |digits| == |b| / 3 * 4 + (if |b| % 3 == 0 then 0 else |b| % 3 + 1)
    ensures forall i :: 0 <= i < |digits| ==> 0 <= digits[i] < 64 && Encode(b)[i] == Alphabet()[digits[i]]
    ensures Number(digits, 64)
         == Number(Digits(b), 256) * (if |b| % 3 == 0 then 1 else if |b| % 3 == 1 then 16 else 4)
  {
    digits := Sextets(b);
    EncodeIs(b);
    SextetsLength(b);
    SameNumber(b);
    forall i | 0 <= i < |digits| ensures 0 <= digits[i] < 64 && Encode(b)[i] == Alphabet()[digits[i]] {
      LettersAt(digits, i);
      LetterExact(digits[i]);
    }
  }

  /** The length of an encoding, and what is missing from it to a multiple of four. */
  lemma Padding(n: nat)
    ensures var c := if n % 3 == 0 then 0 else n % 3 + 1;
      && (n / 3 * 4 + c) % 4 == c && (-(n / 3 * 4 + c)) % 4 == (3 - n % 3) % 3
      && (n / 3 * 4 + c + (3 - n % 3) % 3) % 4 == 0
  {
    var c := if n % 3 == 0 then 0 else n % 3 + 1;
    Modulo(n / 3, c);
    Modulo(n / 3, 0);
    Modulo(n / 3 + 1, 0);
  }

  lemma EncodedLength(b: Bytes)
    ensures |Encode(b)| == |b| / 3 * 4 + (if |b| % 3 == 0 then 0 else |b| % 3 + 1)
  {
    EncodeIs(b);
    SextetsLength(b);
  }

  /** The padding put back is the padding taken off; a length of 1 modulo 4 never occurs. */
  lemma PaddingRestored(b: Bytes)
    ensures |Encode(b)| == |b| / 3 * 4 + (if |b| % 3 == 0 then 0 else |b| % 3 + 1)
    ensures Encode(b) + Equals((-|Encode(b)|) % 4) == EncodePadded(b)
    ensures |Encode(b)| % 4 != 1 && |EncodePadded(b)| % 4 == 0
  {
    EncodeIs(b);
    EncodedLength(b);
    PaddingOf(|b|, |Encode(b)|);
  }

  lemma PaddingOf(n: nat, k: int)
    requires k == n / 3 * 4 + (if n % 3 == 0 then 0 else n % 3 + 1)
    ensures k % 4 != 1 && (-k) % 4 == (3 - n % 3) % 3 && (k + (3 - n % 3) % 3) % 4 == 0
  {
    Padding(n);
  }

  /** Stripped encodings decode to what was encoded, so they are distinct for distinct bytes. */
  lemma RoundTrip(b: Bytes)
    ensures Decode(Encode(b)) == Some(b)
    ensures forall c: Bytes :: Encode(c) == Encode(b) ==> c == b
  {
    DecodesTo(b);
    forall c: Bytes | Encode(c) == Encode(b) ensures c == b {
      DecodesTo(c);
    }
  }

  lemma {:induction false} LettersOfEncoding(b: Bytes)
    ensures DropPadding(EncodePadded(b)) == Encode(b) && ValuesOf(Encode(b)) == Some(Sextets(b))
  {
    EncodeIs(b);
    LettersReadBack(Sextets(b));
  }

  lemma PaddingLength(b: Bytes)
    ensures |EncodePadded(b)| % 4 == 0 && |EncodePadded(b)| - |Encode(b)| <= 2
  {
    PaddingRestored(b);
  }

  lemma DecodesTo(b: Bytes)
    ensures Decode(Encode(b)) == Some(b)
  {
    var padded := EncodePadded(b);
    PaddingRestored(b);
    assert Decode(Encode(b)) == DecodePadded(padded);
    PaddingLength(b);
    LettersOfEncoding(b);
    SextetsReadBack(b);
  }

  /** Digests and keys of 32 bytes take 43 characters, signatures of 64 bytes take 86. */
  lemma FixedLengths(b: Bytes)
    ensures |b| == 32 ==> |Encode(b)| == 43
    ensures |b| == 64 ==> |Encode(b)| == 86
  {
    PaddingRestored(b);
  }
}
