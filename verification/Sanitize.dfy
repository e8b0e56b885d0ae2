/**
  `SanitizeString` and `SanitizeQuery` of pkg/observability/logger/sanitize.go on
  bytes.  Well-formedness is that of section 4 of RFC 3629.
 */
module Sanitize {
  import opened Wrappers

  type Text = seq<Byte>

  const MAX_LEN: nat := 200
  const REPLACEMENT: Text := [0xEF, 0xBF, 0xBD]
  const ELLIPSIS: Text := [0x2E, 0x2E, 0x2E]

  // ------------------------------------------------------------------ UTF-8

  predicate Tail(b: Byte) {
    0x80 <= b <= 0xBF
  }

  predicate Lead2(s: Text) {
    |s| >= 2 && 0xC2 <= s[0] <= 0xDF && Tail(s[1])
  }

  predicate Lead3(s: Text) {
    && |s| >= 3 && 0xE0 <= s[0] <= 0xEF && Tail(s[1]) && Tail(s[2])
    && (s[0] == 0xE0 ==> s[1] >= 0xA0)
    && (s[0] == 0xED ==> s[1] <= 0x9F)
  }

  predicate Lead4(s: Text) {
    && |s| >= 4 && 0xF0 <= s[0] <= 0xF4 && Tail(s[1]) && Tail(s[2]) && Tail(s[3])
    && (s[0] == 0xF0 ==> s[1] >= 0x90)
    && (s[0] == 0xF4 ==> s[1] <= 0x8F)
  }

  /** The length of the encoded character at the front, or 0 if there is none. */
  function Width(s: Text): (w: nat)
    ensures w <= 4 && w <= |s|
  {
    if s == [] then 0
    else if s[0] < 0x80 then 1
    else if Lead2(s) then 2
    else if Lead3(s) then 3
    else if Lead4(s) then 4
    else 0
  }

  /** The code point of the character at the front. */
  function Rune(s: Text): int
    requires Width(s) > 0
  {
    match Width(s)
    case 1 => s[0]
    case 2 => (s[0] as int - 0xC0) * 0x40 + (s[1] as int - 0x80)
    case 3 => (s[0] as int - 0xE0) * 0x1000 + (s[1] as int - 0x80) * 0x40 + (s[2] as int - 0x80)
    case _ => (s[0] as int - 0xF0) * 0x40000 + (s[1] as int - 0x80) * 0x1000 + (s[2] as int - 0x80) * 0x40 + (s[3] as int - 0x80)
  }

  /** `utf8.ValidString`. */
  predicate ValidUtf8(s: Text)
    decreases |s|
  {
    s == [] || (Width(s) > 0 && ValidUtf8(s[Width(s)..]))
  }

  /** Text after a complete character does not change how that character reads. */
  lemma WidthStable(a: Text, b: Text)
    requires Width(a) > 0
    ensures Width(a + b) == Width(a) && Rune(a + b) == Rune(a)
    ensures (a + b)[Width(a)..] == a[Width(a)..] + b
  {
  }

  /** The code points that UTF-8 can carry: the surrogates are left out. */
  predicate Scalar(r: int) {
    0 <= r < 0xD800 || 0xE000 <= r < 0x11_0000
  }

  /** The bytes of one code point, by the table of section 3 of RFC 3629. */
  function Encode(r: int): (s: Text)
    requires Scalar(r)
  {
    if r < 0x80 then [r]
    else if r < 0x800 then [0xC0 + r / 0x40, 0x80 + r % 0x40]
    else if r < 0x1_0000 then [0xE0 + r / 0x1000, 0x80 + r / 0x40 % 0x40, 0x80 + r % 0x40]
    else [0xF0 + r / 0x4_0000, 0x80 + r / 0x1000 % 0x40, 0x80 + r / 0x40 % 0x40, 0x80 + r % 0x40]
  }

  /** The last six bits of a number and the rest of it. */
  lemma Sextet(r: int, high: int, low: int)
    requires 0 <= low < 0x40
    ensures r == high * 0x40 + low <==> r / 0x40 == high && r % 0x40 == low
  {
  }

  lemma Nested(r: int)
    ensures r / 0x1000 == r / 0x40 / 0x40 && r / 0x4_0000 == r / 0x40 / 0x40 / 0x40
  {
  }

  /** Reading back the encoding of any code point. */
  lemma EncodeReads(r: int)
    requires Scalar(r)
    ensures Width(Encode(r)) == |Encode(r)| > 0 && Rune(Encode(r)) == r
  {
    Nested(r);
    var q, p := r / 0x40, r / 0x40 / 0x40;
    Sextet(r, q, r % 0x40);
    Sextet(q, p, q % 0x40);
    Sextet(p, p / 0x40, p % 0x40);
    if r < 0x80 {
    } else if r < 0x800 {
    } else if r < 0x1_0000 {
      assert Encode(r) == [0xE0 + p, 0x80 + q % 0x40, 0x80 + r % 0x40];
    } else {
      assert Encode(r) == [0xF0 + p / 0x40, 0x80 + p % 0x40, 0x80 + q % 0x40, 0x80 + r % 0x40];
    }
  }

  lemma ReadsEncoded3(s: Text)
    requires Width(s) == 3
    ensures 0x800 <= Rune(s) < 0x1_0000 && Scalar(Rune(s)) && Encode(Rune(s)) == s[..3]
  {
    var r: int, p: int := Rune(s), s[0] - 0xE0;
    var q: int := p * 0x40 + (s[1] - 0x80);
    Nested(r);
    Sextet(q, p, s[1] - 0x80);
    Sextet(r, q, s[2] - 0x80);
    assert Lead3(s) && !Lead2(s);
  }

  lemma ReadsEncoded4(s: Text)
    requires Width(s) == 4
    ensures 0x1_0000 <= Rune(s) && Scalar(Rune(s)) && Encode(Rune(s)) == s[..4]
  {
    var r: int, o: int := Rune(s), s[0] - 0xF0;
    var p: int := o * 0x40 + (s[1] - 0x80);
    var q: int := p * 0x40 + (s[2] - 0x80);
    Nested(r);
    Sextet(p, o, s[1] - 0x80);
    Sextet(q, p, s[2] - 0x80);
    Sextet(r, q, s[3] - 0x80);
  }

  /** A character at the front is the encoding of its own code point. */
  lemma ReadsEncoded(s: Text)
    requires Width(s) > 0
    ensures Scalar(Rune(s)) && Encode(Rune(s)) == s[..Width(s)]
  {
    match Width(s)
    case 3 => ReadsEncoded3(s);
    case 4 => ReadsEncoded4(s);
    case 2 => Sextet(Rune(s), s[0] - 0xC0, s[1] - 0x80);
    case _ =>
  }

  /** A character is read exactly where the encoding of some code point stands, and it is that code point. */
  lemma ReadsExactly(s: Text, r: int)
    requires Scalar(r)
    ensures Encode(r) <= s <==> Width(s) > 0 && Rune(s) == r
  {
    EncodeReads(r);
    if Encode(r) <= s {
      WidthStable(Encode(r), s[|Encode(r)|..]);
      assert Encode(r) + s[|Encode(r)|..] == s;
    }
    if Width(s) > 0 && Rune(s) == r {
      ReadsEncoded(s);
    }
  }

  lemma {:induction false} ValidConcat(a: Text, b: Text)
    requires ValidUtf8(a) && ValidUtf8(b)
    ensures ValidUtf8(a + b)
    decreases |a|
  {
    if a == [] {
      assert a + b == b;
    } else {
      WidthStable(a, b);
      ValidConcat(a[Width(a)..], b);
    }
  }

  // --------------------------------------------------------- SanitizeString

  /** `unicode.IsControl`: the C0 and C1 controls and DEL. */
  predicate IsControl(r: int) {
    0 <= r < 0x20 || 0x7F <= r < 0xA0
  }

  predicate Strips(r: int) {
    r != 0x20 && r != 0x09 && IsControl(r)
  }

  /** `strings.Map` over the runes: a byte that starts no character becomes U+FFFD. */
  function SanitizeString(s: Text): (out: Text)
    decreases |s|
  {
    if s == [] then []
    else if Width(s) == 0 then REPLACEMENT + SanitizeString(s[1..])
    else if Strips(Rune(s)) then SanitizeString(s[Width(s)..])
    else s[..Width(s)] + SanitizeString(s[Width(s)..])
  }

  /** Not a control character, or tab. */
  predicate Visible(r: int) {
    r == 0x09 || 0x20 <= r < 0x7F || r >= 0xA0
  }

  lemma StripsMeaning(s: Text)
    requires Width(s) > 0
    ensures Strips(Rune(s)) <==> !Visible(Rune(s))
  {
    ReadsEncoded(s);
  }

  /** Well-formed and without control characters other than tab. */
  predicate Printable(s: Text)
    decreases |s|
  {
    s == [] || (Width(s) > 0 && Visible(Rune(s)) && Printable(s[Width(s)..]))
  }

  /** No byte below 0x20 but tab, no DEL, and no two-byte C1 control. */
  ghost predicate NoControlBytes(s: Text) {
    && (forall i :: 0 <= i < |s| ==> s[i] == 0x09 || (s[i] >= 0x20 && s[i] != 0x7F))
    && (forall i :: 0 <= i < |s| - 1 && s[i] == 0xC2 ==> !(0x80 <= s[i + 1] <= 0x9F))
  }

  /** The character at the front is visible exactly if its own bytes are free of controls. */
  lemma VisibleBytes(s: Text)
    requires Width(s) > 0
    ensures Visible(Rune(s)) <==> NoControlBytes(s[..Width(s)])
    ensures s[Width(s) - 1] != 0xC2
  {
  }

  lemma NoControlSplit(s: Text, w: nat)
    requires 0 < w <= |s| && s[w - 1] != 0xC2
    ensures NoControlBytes(s) <==> NoControlBytes(s[..w]) && NoControlBytes(s[w..])
  {
    var a, b := s[..w], s[w..];
    if NoControlBytes(a) && NoControlBytes(b) {
      forall i | 0 <= i < |s|
        ensures s[i] == 0x09 || (s[i] >= 0x20 && s[i] != 0x7F)
        ensures i < |s| - 1 && s[i] == 0xC2 ==> !(0x80 <= s[i + 1] <= 0x9F)
      {
        assert s[i] == if i < w then a[i] else b[i - w];
        assert i < |s| - 1 ==> s[i + 1] == if i + 1 < w then a[i + 1] else b[i + 1 - w];
      }
    } else if NoControlBytes(s) {
      assert forall i :: 0 <= i < |a| ==> a[i] == s[i];
      assert forall i :: 0 <= i < |b| ==> b[i] == s[w + i];
      assert NoControlBytes(a);
      assert NoControlBytes(b);
    }
  }

  /** Printable text is exactly the well-formed text without control bytes. */
  lemma {:induction false} PrintableBytes(s: Text)
    ensures Printable(s) <==> ValidUtf8(s) && NoControlBytes(s)
    decreases |s|
  {
    if s != [] && Width(s) > 0 {
      PrintableBytes(s[Width(s)..]);
      VisibleBytes(s);
      NoControlSplit(s, Width(s));
    }
  }

  lemma {:induction false} PrintableConcat(a: Text, b: Text)
    requires Printable(a) && Printable(b)
    ensures Printable(a + b)
    decreases |a|
  {
    if a == [] {
      assert a + b == b;
    } else {
      WidthStable(a, b);
      PrintableConcat(a[Width(a)..], b);
    }
  }

  lemma OneChar(s: Text)
    requires Width(s) > 0
    ensures Width(s[..Width(s)]) == Width(s) && Rune(s[..Width(s)]) == Rune(s)
    ensures s[..Width(s)][Width(s)..] == []
  {
  }

  lemma {:induction false} PrintableOutput(s: Text)
    ensures Printable(SanitizeString(s))
    decreases |s|
  {
    if s != [] {
      var w := Width(s);
      PrintableOutput(s[if w == 0 then 1 else w..]);
      if w == 0 {
        assert Width(REPLACEMENT) == 3 && REPLACEMENT[3..] == [];
        PrintableConcat(REPLACEMENT, SanitizeString(s[1..]));
      } else if !Strips(Rune(s)) {
        OneChar(s);
        StripsMeaning(s);
        PrintableConcat(s[..w], SanitizeString(s[w..]));
      }
    }
  }

  /** Whatever the input, the output is well-formed and no byte of it belongs to a control character other than tab. */
  lemma SanitizedIsPrintable(s: Text)
    ensures ValidUtf8(SanitizeString(s)) && NoControlBytes(SanitizeString(s))
  {
    PrintableOutput(s);
    PrintableBytes(SanitizeString(s));
  }

  /** Printable text is left alone. */
  lemma {:induction false} PrintableUnchanged(s: Text)
    requires Printable(s)
    ensures SanitizeString(s) == s
    decreases |s|
  {
    if s != [] {
      StripsMeaning(s);
      PrintableUnchanged(s[Width(s)..]);
    }
  }

  /** Sanitizing leaves alone exactly the well-formed text without controls, so twice is once. */
  lemma SanitizeIdempotent(s: Text)
    ensures SanitizeString(SanitizeString(s)) == SanitizeString(s)
    ensures SanitizeString(s) == s <==> ValidUtf8(s) && NoControlBytes(s)
  {
    PrintableOutput(s);
    PrintableUnchanged(SanitizeString(s));
    PrintableBytes(s);
    if ValidUtf8(s) && NoControlBytes(s) {
      PrintableUnchanged(s);
    }
  }

  /** The runes that ranging over a string yields; a byte that starts no character reads as U+FFFD. */
  function Runes(s: Text): seq<int>
    decreases |s|
  {
    if s == [] then [] else if Width(s) == 0 then [0xFFFD] + Runes(s[1..]) else [Rune(s)] + Runes(s[Width(s)..])
  }

  function Keep(rs: seq<int>): seq<int> {
    if rs == [] then [] else (if Visible(rs[0]) then [rs[0]] else []) + Keep(rs[1..])
  }

  ghost predicate Scalars(rs: seq<int>) {
    forall i :: 0 <= i < |rs| ==> Scalar(rs[i])
  }

  function EncodeAll(rs: seq<int>): Text
    requires Scalars(rs)
  {
    if rs == [] then [] else Encode(rs[0]) + EncodeAll(rs[1..])
  }

  /** Well-formed text is exactly the encoding of its own runes. */
  lemma {:induction false} ValidMeaning(s: Text)
    ensures Scalars(Runes(s))
    ensures ValidUtf8(s) <==> EncodeAll(Runes(s)) == s
    decreases |s|
  {
    hide Width, Rune, Encode;
    if s != [] {
      var w := Width(s);
      ValidMeaning(s[if w == 0 then 1 else w..]);
      assert Runes(s)[1..] == Runes(s[if w == 0 then 1 else w..]);
      if w == 0 {
        EncodeReads(0xFFFD);
        WidthStable(Encode(0xFFFD), EncodeAll(Runes(s)[1..]));
      } else {
        ReadsEncoded(s);
        assert s == s[..w] + s[w..];
        assert (s[..w] + EncodeAll(Runes(s)[1..]))[w..] == EncodeAll(Runes(s)[1..]);
      }
    }
  }

  /** Any sequence of code points encodes to well-formed text, and ranging over that text gives it back. */
  lemma {:induction false} RunesOfEncoding(rs: seq<int>)
    requires Scalars(rs)
    ensures ValidUtf8(EncodeAll(rs)) && Runes(EncodeAll(rs)) == rs
  {
    hide Width, Rune, Encode;
    if rs != [] {
      RunesOfEncoding(rs[1..]);
      EncodeReads(rs[0]);
      WidthStable(Encode(rs[0]), EncodeAll(rs[1..]));
      RunesCons(Encode(rs[0]), EncodeAll(rs[1..]));
      assert Encode(rs[0])[Width(Encode(rs[0]))..] + EncodeAll(rs[1..]) == EncodeAll(rs[1..]);
    }
  }

  lemma RunesCons(c: Text, rest: Text)
    requires Width(c) == |c| > 0
    ensures Runes(c + rest) == [Rune(c)] + Runes(rest)
  {
    WidthStable(c, rest);
    assert c[|c|..] + rest == rest;
  }

  lemma {:induction false} FiltersRunes(s: Text)
    ensures Runes(SanitizeString(s)) == Keep(Runes(s))
    decreases |s|
  {
    if s != [] {
      var w := Width(s);
      var rest := s[if w == 0 then 1 else w..];
      FiltersRunes(rest);
      assert Runes(s)[1..] == Runes(rest);
      if w == 0 {
        RunesCons(REPLACEMENT, SanitizeString(rest));
      } else {
        StripsMeaning(s);
        OneChar(s);
        if Visible(Rune(s)) {
          RunesCons(s[..w], SanitizeString(rest));
        }
      }
    }
  }

  /** The output is the encoding of the input's runes, in order, without exactly the control characters. */
  lemma SanitizeFiltersRunes(s: Text)
    ensures Runes(SanitizeString(s)) == Keep(Runes(s))
    ensures Scalars(Keep(Runes(s))) && SanitizeString(s) == EncodeAll(Keep(Runes(s)))
  {
    FiltersRunes(s);
    SanitizedIsPrintable(s);
    ValidMeaning(SanitizeString(s));
  }

  /** Bytes that start no character, and bytes of stripped characters. */
  function Undecodable(s: Text): nat
    decreases |s|
  {
    if s == [] then 0 else if Width(s) == 0 then 1 + Undecodable(s[1..]) else Undecodable(s[Width(s)..])
  }

  function Stripped(s: Text): nat
    decreases |s|
  {
    if s == [] then 0
    else if Width(s) == 0 then Stripped(s[1..])
    else (if Visible(Rune(s)) then 0 else Width(s)) + Stripped(s[Width(s)..])
  }

  /** The exact length: each undecodable byte grows to three, stripped characters go. */
  lemma {:induction false} SanitizedLength(s: Text)
    ensures |SanitizeString(s)| == |s| + 2 * Undecodable(s) - Stripped(s)
    ensures ValidUtf8(s) <==> Undecodable(s) == 0
    decreases |s|
  {
    if s != [] {
      if Width(s) > 0 {
        StripsMeaning(s);
      }
      SanitizedLength(s[if Width(s) == 0 then 1 else Width(s)..]);
    }
  }

  // ---------------------------------------------------------- SanitizeQuery

  /** `k` is the length of the longest well-formed prefix of at most `limit` bytes. */
  ghost predicate LongestValid(s: Text, limit: nat, k: nat) {
    && k <= limit <= |s| && ValidUtf8(s[..k])
    && forall j :: k < j <= limit ==> !ValidUtf8(s[..j])
  }

  method SanitizeQuery(query: Text) returns (out: Text)
    ensures |query| <= 200 ==> out == SanitizeString(query)
    ensures |query| > 200 ==>
              exists k: nat | LongestValid(query, 200, k) ::
                out == SanitizeString(query[..k]) + [0x2E, 0x2E, 0x2E] && (ValidUtf8(query) ==> k >= 197)
    ensures ValidUtf8(out) && NoControlBytes(out)
    ensures |query| > 200 ==> |out| <= 203
  {
    if |query| <= MAX_LEN {
      QueryOutput(query, 0, SanitizeString(query));
      return SanitizeString(query);
    }
    var truncated := query[..MAX_LEN];
    while !ValidUtf8(truncated) && |truncated| > 0
      invariant |truncated| <= MAX_LEN && truncated == query[..|truncated|]
      invariant forall j :: |truncated| < j <= MAX_LEN ==> !ValidUtf8(query[..j])
    {
      assert truncated[..|truncated| - 1] == query[..|truncated| - 1];
      truncated := truncated[..|truncated| - 1];
    }
    assert LongestValid(query, MAX_LEN, |truncated|);
    out := SanitizeString(truncated) + ELLIPSIS;
    QueryOutput(query, |truncated|, out);
    if ValidUtf8(query) {
      DropsAtMostThree(query, |truncated|);
    }
  }

  /** In well-formed text a character boundary is never more than three bytes back. */
  lemma {:induction false} BoundaryNear(s: Text, n: nat) returns (k: nat)
    requires ValidUtf8(s) && n <= |s|
    ensures n - 3 <= k <= n && ValidUtf8(s[..k])
    decreases |s|
  {
    var w := Width(s);
    if s == [] || n < w {
      k := 0;
    } else {
      var rest := BoundaryNear(s[w..], n - w);
      k := w + rest;
      OneChar(s);
      assert s[..k] == s[..w] + s[w..][..rest];
      assert ValidUtf8(s[..w]);
      ValidConcat(s[..w], s[w..][..rest]);
    }
  }

  /** If the query was well-formed the loop drops at most three bytes. */
  lemma DropsAtMostThree(query: Text, k: nat)
    requires ValidUtf8(query) && |query| > 200 && LongestValid(query, 200, k)
    ensures 197 <= k
  {
    var near := BoundaryNear(query, 200);
  }

  /** What a caller of `SanitizeQuery` gets: printable text, and over the limit at most 203 bytes. */
  lemma QueryOutput(query: Text, k: nat, out: Text)
    requires if |query| <= 200 then out == SanitizeString(query)
             else LongestValid(query, 200, k) && out == SanitizeString(query[..k]) + [0x2E, 0x2E, 0x2E]
    ensures ValidUtf8(out) && NoControlBytes(out)
    ensures |out| <= 203 <==>
            |query| > 200 || |query| + 2 * Undecodable(query) - Stripped(query) <= 203
  {
    var kept := if |query| <= 200 then query else query[..k];
    PrintableOutput(kept);
    SanitizedLength(kept);
    assert Width([0x2E, 0x2E, 0x2E]) == 1 && [0x2E, 0x2E, 0x2E][1..] == [0x2E, 0x2E] && [0x2E, 0x2E, 0x2E][1..][1..] == [0x2E];
    assert Printable([0x2E]);
    if |query| > 200 {
      PrintableConcat(SanitizeString(kept), [0x2E, 0x2E, 0x2E]);
    }
    PrintableBytes(out);
  }

  /** The 203-byte bound does not hold for short input: n stray bytes become 3n. */
  lemma {:induction false} StrayBytesGrow(n: nat)
    ensures |SanitizeString(seq(n, _ => 0xFF))| == 3 * n
  {
    var s: Text := seq(n, _ => 0xFF);
    if n > 0 {
      StrayBytesGrow(n - 1);
      assert s[1..] == seq(n - 1, _ => 0xFF);
    }
  }
}
