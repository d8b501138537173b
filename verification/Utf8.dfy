/**
  UTF-8 twice: the grammar of section 4 of RFC 3629, and the arithmetic decoder the server scans a
  buffer with.
 */
module Utf8 {
  import opened Prelude

  // ----- the grammar -----

  predicate Tail(b: Byte) {
    0x80 <= b <= 0xBF
  }

  /** `s` is one well-formed encoding: UTF8-1, UTF8-2, UTF8-3 or UTF8-4. */
  predicate IsRune(s: Bytes) {
    if |s| == 1 then s[0] <= 0x7F
    else if |s| == 2 then 0xC2 <= s[0] <= 0xDF && Tail(s[1])
    else if |s| == 3 then
      && Tail(s[2])
      && (|| (s[0] == 0xE0 && 0xA0 <= s[1] <= 0xBF)
          || (0xE1 <= s[0] <= 0xEC && Tail(s[1]))
          || (s[0] == 0xED && 0x80 <= s[1] <= 0x9F)
          || (0xEE <= s[0] <= 0xEF && Tail(s[1])))
    else if |s| == 4 then
      && Tail(s[2]) && Tail(s[3])
      && (|| (s[0] == 0xF0 && 0x90 <= s[1] <= 0xBF)
          || (0xF1 <= s[0] <= 0xF3 && Tail(s[1]))
          || (s[0] == 0xF4 && 0x80 <= s[1] <= 0x8F))
    else false
  }

  /** Length of the encoding `s` starts with, or 0 when it starts with none. */
  function RuneLength(s: Bytes): (n: nat)
    ensures n <= |s| && n <= 4
  {
    if |s| >= 1 && IsRune(s[..1]) then 1
    else if |s| >= 2 && IsRune(s[..2]) then 2
    else if |s| >= 3 && IsRune(s[..3]) then 3
    else if |s| >= 4 && IsRune(s[..4]) then 4
    else 0
  }

  /** RuneLength finds the encoding, and there is only one to find. */
  lemma RuneLengthIsTheOne(s: Bytes, k: nat)
    requires 0 < k <= |s|
    ensures RuneLength(s) == k <==> IsRune(s[..k])
  {
    if IsRune(s[..k]) {
      PrefixFree(s, k, RuneLength(s));
    }
  }

  predicate Valid(s: Bytes) {
    s == [] || (RuneLength(s) > 0 && Valid(s[RuneLength(s)..]))
  }

  /** No encoding is a proper prefix of another. */
  lemma PrefixFree(s: Bytes, j: nat, k: nat)
    requires j <= |s| && k <= |s| && IsRune(s[..j]) && IsRune(s[..k])
    ensures j == k
  {
    assert s[..j][0] == s[0] == s[..k][0];
  }

  /** Only the bytes of the encoding itself decide its length. */
  lemma RuneLengthLocal(s: Bytes, k: nat)
    requires k <= |s|
    ensures RuneLength(s) <= k ==> RuneLength(s[..k]) == RuneLength(s)
    ensures RuneLength(s[..k]) > 0 ==> RuneLength(s[..k]) == RuneLength(s)
    ensures RuneLength(s) > k ==> RuneLength(s[..k]) == 0
  {
    var m, n := RuneLength(s[..k]), RuneLength(s);
    if m > 0 {
      assert s[..k][..m] == s[..m];
      PrefixFree(s, m, n);
    }
    if 0 < n <= k {
      assert s[..k][..n] == s[..n];
    }
  }

  // ----- valid prefixes -----

  /** Length of the longest prefix that is a sequence of well-formed encodings. */
  function LongestValid(s: Bytes): (n: nat)
    ensures n <= |s|
  {
    var k := RuneLength(s);
    if k == 0 then 0 else k + LongestValid(s[k..])
  }

  lemma LongestValidIsLongest(s: Bytes)
    ensures Valid(s[..LongestValid(s)])
    ensures forall k :: 0 <= k <= |s| && Valid(s[..k]) ==> k <= LongestValid(s)
  {
    LongestValidIsValid(s);
    forall k | 0 <= k <= |s| && Valid(s[..k]) ensures k <= LongestValid(s) {
      ValidPrefixBound(s, k);
    }
  }

  lemma {:induction false} LongestValidIsValid(s: Bytes)
    ensures Valid(s[..LongestValid(s)])
  {
    var n := RuneLength(s);
    if n > 0 {
      LongestValidIsValid(s[n..]);
      var v := LongestValid(s);
      RuneLengthLocal(s, v);
      assert s[..v][n..] == s[n..][..v - n];
    }
  }

  lemma {:induction false} ValidPrefixBound(s: Bytes, k: nat)
    requires k <= |s| && Valid(s[..k])
    ensures k <= LongestValid(s)
  {
    if k > 0 {
      var n := RuneLength(s[..k]);
      RuneLengthLocal(s, k);
      assert s[..k][n..] == s[n..][..k - n];
      ValidPrefixBound(s[n..], k - n);
    }
  }

  lemma {:induction false} ValidConcat(s: Bytes, t: Bytes)
    requires Valid(s) && Valid(t)
    ensures Valid(s + t)
  {
    if s == [] {
      assert s + t == t;
    } else {
      var n := RuneLength(s);
      assert (s + t)[..|s|] == s;
      RuneLengthLocal(s + t, |s|);
      assert (s + t)[n..] == s[n..] + t;
      ValidConcat(s[n..], t);
    }
  }

  lemma {:induction false} ValidSuffix(s: Bytes, k: nat)
    requires k <= |s| && Valid(s) && Valid(s[..k])
    ensures Valid(s[k..])
  {
    if k > 0 {
      var n := RuneLength(s[..k]);
      RuneLengthLocal(s, k);
      assert s[..k][n..] == s[n..][..k - n];
      ValidSuffix(s[n..], k - n);
      assert s[n..][k - n..] == s[k..];
    } else {
      assert s[k..] == s;
    }
  }

  lemma ValidStartsRune(s: Bytes)
    requires Valid(s) && s != []
    ensures 0 < RuneLength(s) <= 4 && !Tail(s[0])
  {
    assert s[..RuneLength(s)][0] == s[0];
  }

  /**
    Reading on from a rune boundary k of a valid text: the buffer text[k..e] starts a rune, and
    cutting it at its longest valid prefix lands on a boundary of the text again.
   */
  lemma CutStaysOnBoundary(text: Bytes, k: nat, e: nat)
    requires k < e <= |text| && Valid(text) && Valid(text[..k])
    ensures !Tail(text[k])
    ensures Valid(text[k..e][..LongestValid(text[k..e])])
    ensures Valid(text[..k + LongestValid(text[k..e])])
  {
    hide *;
    BoundaryStartsRune(text, k);
    LongestValidIsValid(text[k..e]);
    JoinAtBoundary(text, k, k + LongestValid(text[k..e]), e);
  }

  lemma BoundaryStartsRune(text: Bytes, k: nat)
    requires k < |text| && Valid(text) && Valid(text[..k])
    ensures !Tail(text[k])
  {
    ValidSuffix(text, k);
    ValidStartsRune(text[k..]);
  }

  lemma JoinAtBoundary(text: Bytes, k: nat, m: nat, e: nat)
    requires k <= m <= e <= |text| && Valid(text[..k]) && Valid(text[k..e][..m - k])
    ensures Valid(text[..m])
  {
    assert text[k..e][..m - k] == text[k..m];
    assert text[..k] + text[k..m] == text[..m];
    ValidConcat(text[..k], text[k..m]);
  }

  /** The cut is empty only if the buffer does not hold the next rune, of at most 4 bytes, in full. */
  lemma CutAdvances(text: Bytes, k: nat, e: nat)
    requires k < e <= |text| && Valid(text) && Valid(text[..k])
    ensures 0 < RuneLength(text[k..]) <= 4
    ensures LongestValid(text[k..e]) > 0 <==> RuneLength(text[k..]) <= e - k
  {
    hide *;
    ValidSuffix(text, k);
    ValidStartsRune(text[k..]);
    assert text[k..][..e - k] == text[k..e];
    CutOfRune(text[k..], e - k);
  }

  lemma CutOfRune(s: Bytes, m: nat)
    requires m <= |s| && RuneLength(s) > 0
    ensures LongestValid(s[..m]) > 0 <==> RuneLength(s) <= m
  {
    RuneLengthLocal(s, m);
  }

  // ----- the decoder -----

  const RUNE_SELF: Byte := 0x80
  const RUNE_ERROR := 0xFFFD

  /** Can this byte start an encoding, i.e. is it no continuation byte? */
  predicate RuneStart(b: Byte) {
    !(0x80 <= b < 0xC0)
  }

  /** First code point of `s` and its width; (RUNE_ERROR, 1) when `s` starts with no encoding, width 0 when empty. */
  function DecodeRune(s: Bytes): (int, nat) {
    if |s| == 0 then (RUNE_ERROR, 0)
    else
      var c0 := s[0] as int;
      if c0 < 0x80 then (c0, 1)
      else if c0 < 0xC0 || |s| < 2 || !Tail(s[1]) then (RUNE_ERROR, 1)
      else
        var c1 := s[1] as int - 0x80;
        if c0 < 0xE0 then
          var r := (c0 - 0xC0) * 0x40 + c1;
          if r <= 0x7F then (RUNE_ERROR, 1) else (r, 2)
        else if |s| < 3 || !Tail(s[2]) then (RUNE_ERROR, 1)
        else
          var c2 := s[2] as int - 0x80;
          if c0 < 0xF0 then
            var r := (c0 - 0xE0) * 0x1000 + c1 * 0x40 + c2;
            if r <= 0x7FF || 0xD800 <= r <= 0xDFFF then (RUNE_ERROR, 1) else (r, 3)
          else if |s| < 4 || !Tail(s[3]) || c0 >= 0xF8 then (RUNE_ERROR, 1)
          else
            var r := (c0 - 0xF0) * 0x40000 + c1 * 0x1000 + c2 * 0x40 + (s[3] as int - 0x80);
            if r <= 0xFFFF || r > 0x10FFFF then (RUNE_ERROR, 1) else (r, 4)
  }

  /** Section 3 of RFC 3629: the octets of a code point. */
  function Encode(r: int): (s: Bytes)
    requires 0 <= r <= 0x10FFFF
    ensures 1 <= |s| <= 4
  {
    if r <= 0x7F then [r as Byte]
    else if r <= 0x7FF then [(0xC0 + r / 0x40) as Byte, (0x80 + r % 0x40) as Byte]
    else if r <= 0xFFFF then
      [(0xE0 + r / 0x1000) as Byte, (0x80 + r / 0x40 % 0x40) as Byte, (0x80 + r % 0x40) as Byte]
    else
      [(0xF0 + r / 0x40000) as Byte, (0x80 + r / 0x1000 % 0x40) as Byte,
       (0x80 + r / 0x40 % 0x40) as Byte, (0x80 + r % 0x40) as Byte]
  }

  /**
    The decoder rejects exactly what the grammar rejects, and what it accepts it decodes: encoding
    the code point gives back the bytes. An encoded U+FFFD is accepted, with width 3.
   */
  lemma DecodeRuneMeetsGrammar(s: Bytes)
    requires s != []
    ensures var (r, size) := DecodeRune(s);
            && (r == RUNE_ERROR && size == 1 <==> RuneLength(s) == 0)
            && (RuneLength(s) > 0 ==>
                  && size == RuneLength(s)
                  && 0 <= r <= 0x10FFFF && !(0xD800 <= r <= 0xDFFF)
                  && Encode(r) == s[..size])
  {
    DecodeRuneWidth(s);
    var (r, size) := DecodeRune(s);
    if RuneLength(s) > 0 {
      DecodeThenEncode(s);
    }
  }

  lemma DecodeRuneWidth(s: Bytes)
    requires s != []
    ensures DecodeRune(s).1 == if RuneLength(s) == 0 then 1 else RuneLength(s)
    ensures DecodeRune(s).0 == RUNE_ERROR && DecodeRune(s).1 == 1 <==> RuneLength(s) == 0
  {
    assert s[..1][0] == s[0];
    if |s| >= 2 {
      assert s[..2][0] == s[0] && s[..2][1] == s[1];
    }
    if |s| >= 3 {
      assert s[..3][0] == s[0] && s[..3][1] == s[1] && s[..3][2] == s[2];
    }
    if |s| >= 4 {
      assert s[..4][0] == s[0] && s[..4][1] == s[1] && s[..4][2] == s[2] && s[..4][3] == s[3];
    }
  }

  lemma DecodeThenEncode(s: Bytes)
    requires RuneLength(s) > 0
    ensures var (r, size) := DecodeRune(s);
            && 0 <= r <= 0x10FFFF && !(0xD800 <= r <= 0xDFFF) && size <= |s|
            && Encode(r) == s[..size]
  {
    hide IsRune, RuneLength;
    DecodeRuneWidth(s);
    var size := RuneLength(s);
    if size == 1 {
      assert s[..1] == [s[0]];
    } else if size == 2 {
      assert s[..2] == [s[0], s[1]];
      EncodeTwo(s[0] as int - 0xC0, s[1] as int - 0x80);
    } else if size == 3 {
      assert s[..3] == [s[0], s[1], s[2]];
      EncodeThree(s[0] as int - 0xE0, s[1] as int - 0x80, s[2] as int - 0x80);
    } else {
      assert s[..4] == [s[0], s[1], s[2], s[3]];
      EncodeFour(s[0] as int - 0xF0, s[1] as int - 0x80, s[2] as int - 0x80, s[3] as int - 0x80);
    }
  }

  lemma EncodeTwo(a: int, b: int)
    requires 0 <= a < 0x20 && 0 <= b < 0x40 && a * 0x40 + b > 0x7F
    ensures Encode(a * 0x40 + b) == [(0xC0 + a) as Byte, (0x80 + b) as Byte]
  {
    SixBits(a, b);
  }

  lemma EncodeThree(a: int, b: int, c: int)
    requires 0 <= a < 0x10 && 0 <= b < 0x40 && 0 <= c < 0x40 && a * 0x1000 + b * 0x40 + c > 0x7FF
    ensures Encode(a * 0x1000 + b * 0x40 + c) == [(0xE0 + a) as Byte, (0x80 + b) as Byte, (0x80 + c) as Byte]
  {
    SixBits(a * 0x40 + b, c);
    SixBits(a, b);
  }

  lemma EncodeFour(a: int, b: int, c: int, d: int)
    requires 0 <= a < 8 && 0 <= b < 0x40 && 0 <= c < 0x40 && 0 <= d < 0x40
    requires 0xFFFF < a * 0x40000 + b * 0x1000 + c * 0x40 + d <= 0x10FFFF
    ensures Encode(a * 0x40000 + b * 0x1000 + c * 0x40 + d)
            == [(0xF0 + a) as Byte, (0x80 + b) as Byte, (0x80 + c) as Byte, (0x80 + d) as Byte]
  {
    SixBits(a * 0x1000 + b * 0x40 + c, d);
    SixBits(a * 0x40 + b, c);
    SixBits(a, b);
  }

  lemma SixBits(high: int, low: int)
    requires 0 <= low < 0x40
    ensures (high * 0x40 + low) / 0x40 == high && (high * 0x40 + low) % 0x40 == low
  {
  }

  /** A code point that has an encoding: any but the surrogates. */
  type Scalar = r: int | 0 <= r <= 0xD7FF || 0xE000 <= r <= 0x10FFFF

  /** Every code point's encoding is in the grammar, and decodes to that code point. */
  lemma EncodeThenDecode(r: Scalar)
    ensures IsRune(Encode(r)) && DecodeRune(Encode(r)) == (r, |Encode(r)|)
  {
    hide IsRune, DecodeRune;
    Digits(r);
    if r <= 0x7F {
      RuneOfOne(r);
    } else if r <= 0x7FF {
      RuneOfTwo(r / 0x40, r % 0x40);
    } else if r <= 0xFFFF {
      RuneOfThree(r / 0x1000, r / 0x40 % 0x40, r % 0x40);
    } else {
      RuneOfFour(r / 0x40000, r / 0x1000 % 0x40, r / 0x40 % 0x40, r % 0x40);
    }
  }

  /** The six-bit digits of a code point. */
  lemma Digits(r: int)
    requires 0 <= r
    ensures r == r / 0x40 * 0x40 + r % 0x40
    ensures r == r / 0x1000 * 0x1000 + r / 0x40 % 0x40 * 0x40 + r % 0x40
    ensures r == r / 0x40000 * 0x40000 + r / 0x1000 % 0x40 * 0x1000 + r / 0x40 % 0x40 * 0x40 + r % 0x40
  {
    assert r / 0x1000 == r / 0x40 / 0x40 && r / 0x40000 == r / 0x1000 / 0x40;
  }

  lemma RuneOfOne(a: int)
    requires 0 <= a <= 0x7F
    ensures IsRune([a as Byte]) && DecodeRune([a as Byte]) == (a, 1)
  {
  }

  lemma RuneOfTwo(a: int, b: int)
    requires 0 <= a < 0x20 && 0 <= b < 0x40 && a * 0x40 + b > 0x7F
    ensures var s := [(0xC0 + a) as Byte, (0x80 + b) as Byte];
            IsRune(s) && DecodeRune(s) == (a * 0x40 + b, 2)
  {
  }

  lemma RuneOfThree(a: int, b: int, c: int)
    requires 0 <= a < 0x10 && 0 <= b < 0x40 && 0 <= c < 0x40
    requires var r := a * 0x1000 + b * 0x40 + c; r > 0x7FF && !(0xD800 <= r <= 0xDFFF)
    ensures var s := [(0xE0 + a) as Byte, (0x80 + b) as Byte, (0x80 + c) as Byte];
            IsRune(s) && DecodeRune(s) == (a * 0x1000 + b * 0x40 + c, 3)
  {
  }

  lemma RuneOfFour(a: int, b: int, c: int, d: int)
    requires 0 <= a < 8 && 0 <= b < 0x40 && 0 <= c < 0x40 && 0 <= d < 0x40
    requires 0xFFFF < a * 0x40000 + b * 0x1000 + c * 0x40 + d <= 0x10FFFF
    ensures var s := [(0xF0 + a) as Byte, (0x80 + b) as Byte, (0x80 + c) as Byte, (0x80 + d) as Byte];
            IsRune(s) && DecodeRune(s) == (a * 0x40000 + b * 0x1000 + c * 0x40 + d, 4)
  {
  }

  /** The octets of a text. */
  function EncodeText(text: seq<Scalar>): Bytes {
    if text == [] then [] else Encode(text[0]) + EncodeText(text[1..])
  }

  /** The bytes of every text are valid ... */
  lemma {:induction false} TextIsValid(text: seq<Scalar>)
    ensures Valid(EncodeText(text))
  {
    hide IsRune, DecodeRune, Encode;
    if text != [] {
      var rune := Encode(text[0]);
      EncodeThenDecode(text[0]);
      assert rune[..|rune|] == rune && rune != [];
      RuneLengthIsTheOne(rune, |rune|);
      assert rune[|rune|..] == [];
      TextIsValid(text[1..]);
      ValidConcat(rune, EncodeText(text[1..]));
    }
  }

  /** ... and valid bytes are those of some text: the decoded one. */
  lemma {:induction false} ValidIsText(s: Bytes) returns (text: seq<Scalar>)
    requires Valid(s)
    ensures EncodeText(text) == s
  {
    hide IsRune, DecodeRune, Encode;
    text := [];
    if s != [] {
      DecodeRuneMeetsGrammar(s);
      var (r, size) := DecodeRune(s);
      var rest := ValidIsText(s[size..]);
      text := [r] + rest;
      assert text[1..] == rest;
      assert s == s[..size] + s[size..];
    }
  }

  // ----- where the scan of a buffer stops -----

  /**
    The scan of the first m bytes of a buffer stops at their longest valid prefix, unless the bytes
    after them happen to complete the rune they break off in; then it stops at m.
   */
  function ScanEnd(p: Bytes, m: nat): (n: nat)
    requires m <= |p|
    ensures n <= m
  {
    var v := LongestValid(p[..m]);
    if v < m && RuneLength(p[v..]) > 0 then m else v
  }

  /** One step of the scan. */
  lemma ScanStep(p: Bytes, m: nat, i: nat)
    requires i < m <= |p|
    ensures var k := RuneLength(p[i..]);
            if k > 0 && i + k <= m then LongestValid(p[i..m]) == k + LongestValid(p[i + k..m])
            else LongestValid(p[i..m]) == 0
  {
    var k := RuneLength(p[i..]);
    assert p[i..][..m - i] == p[i..m];
    RuneLengthLocal(p[i..], m - i);
    if k > 0 && i + k <= m {
      assert p[i..m][k..] == p[i + k..m];
    }
  }

  /** A completely filled buffer, or one whose next byte is no continuation byte, is scanned exactly. */
  lemma CleanBufferScansExactly(p: Bytes, m: nat)
    requires m <= |p| && (m == |p| || !Tail(p[m]))
    ensures ScanEnd(p, m) == LongestValid(p[..m])
  {
    var v := LongestValid(p[..m]);
    if v < m {
      ScanStops(p, m);
      var k := RuneLength(p[v..]);
      if k > 0 {
        TailsInside(p[v..], m - v);
      }
    }
  }

  /** No rune fits between the longest valid prefix of p[..m] and m. */
  lemma {:induction false} ScanStops(p: Bytes, m: nat)
    requires m <= |p|
    ensures var v := LongestValid(p[..m]);
            RuneLength(p[v..]) == 0 || v + RuneLength(p[v..]) > m
  {
    hide RuneLength;
    var k := RuneLength(p[..m]);
    assert p[0..] == p;
    RuneLengthLocal(p, m);
    if k > 0 {
      ScanStops(p[k..], m - k);
      assert p[k..][..m - k] == p[..m][k..];
      var v := LongestValid(p[k..][..m - k]);
      assert p[k..][v..] == p[k + v..];
    }
  }

  lemma TailsInside(s: Bytes, j: nat)
    requires 0 < j < RuneLength(s)
    ensures Tail(s[j])
  {
    assert s[..RuneLength(s)][j] == s[j];
  }

  /**
    Exactly which leftovers in the buffer are harmless: whatever m bytes are read in front of them,
    the scan finds the longest valid prefix of those bytes, if and only if m is 0 or the leftovers
    do not begin with a continuation byte. Reads that start a rune are enough to tell.
   */
  lemma StaleBytesHarmlessExactly(stale: Bytes, m: nat)
    ensures (forall q: Bytes :: |q| == m ==> ScanEnd(q + stale, m) == LongestValid(q))
            <==> m == 0 || stale == [] || !Tail(stale[0])
    ensures (forall q: Bytes :: |q| == m && (m > 0 ==> !Tail(q[0])) ==> ScanEnd(q + stale, m) == LongestValid(q))
            <==> m == 0 || stale == [] || !Tail(stale[0])
  {
    hide LongestValid, RuneLength, ScanEnd, Tail;
    if m == 0 || stale == [] || !Tail(stale[0]) {
      forall q: Bytes | |q| == m ensures ScanEnd(q + stale, m) == LongestValid(q) {
        HarmlessRest(q, stale);
      }
    } else {
      var q := BrokenRead(m);
      BrokenReadFails(stale, m);
      assert |q| == m && !Tail(q[0]) && ScanEnd(q + stale, m) != LongestValid(q);
    }
  }

  lemma HarmlessRest(q: Bytes, stale: Bytes)
    requires q == [] || stale == [] || !Tail(stale[0])
    ensures ScanEnd(q + stale, |q|) == LongestValid(q)
  {
    hide LongestValid, RuneLength, Tail;
    assert (q + stale)[..|q|] == q;
    if q != [] {
      CleanBufferScansExactly(q + stale, |q|);
    }
  }

  /** ASCII up to the last byte, which begins a rune of two. */
  function BrokenRead(m: nat): (q: Bytes)
    requires m > 0
    ensures |q| == m
  {
    seq(m - 1, _ => 0x61) + [0xC3]
  }

  lemma BrokenReadFails(stale: Bytes, m: nat)
    requires m > 0 && stale != [] && Tail(stale[0])
    ensures !Tail(BrokenRead(m)[0])
    ensures ScanEnd(BrokenRead(m) + stale, m) == m && LongestValid(BrokenRead(m)) == m - 1
  {
    hide LongestValid, RuneLength;
    var q := BrokenRead(m);
    AsciiThenBroken(q, 0);
    assert q[0..] == q;
    assert (q + stale)[..m] == q;
    assert (q + stale)[m - 1..] == [0xC3] + stale;
    TwoByteRune(stale);
  }

  lemma TwoByteRune(stale: Bytes)
    requires stale != [] && Tail(stale[0])
    ensures RuneLength([0xC3] + stale) == 2
  {
    var s := [0xC3] + stale;
    assert s[..1] == [0xC3] && s[..2] == [0xC3, stale[0]];
  }

  lemma {:induction false} AsciiThenBroken(q: Bytes, i: nat)
    requires i < |q| && q == BrokenRead(|q|)
    ensures LongestValid(q[i..]) == |q| - 1 - i
    decreases |q| - i
  {
    assert q[i..][..1] == [q[i]];
    if i < |q| - 1 {
      assert q[i..][1..] == q[i + 1..];
      AsciiThenBroken(q, i + 1);
    } else {
      assert q[i..] == [0xC3];
    }
  }
}
