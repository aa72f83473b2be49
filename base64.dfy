/**
 * `Buffer.toString("base64")` (RFC 4648, section 4: the standard alphabet,
 * padded with `=`), the base64url rewrite the email builders apply to it
 * (RFC 4648, section 5, with the padding dropped as section 3.2 allows), and
 * decoders for both.
 */
module Base64 {
  import opened Wrappers
  import opened Bytes

  /** A 6-bit value, one digit of the encoding. */
  type Sextet = v: int | 0 <= v < 64

  /** The padding character. */
  const Pad := '='

  /** A character of the standard alphabet (RFC 4648, section 4, Table 1). */
  predicate IsStdChar(c: char) {
    ('A' <= c <= 'Z') || ('a' <= c <= 'z') || ('0' <= c <= '9') || c == '+' || c == '/'
  }

  /** A character of the URL- and filename-safe alphabet (RFC 4648,
      section 5, Table 2). */
  predicate IsUrlChar(c: char) {
    ('A' <= c <= 'Z') || ('a' <= c <= 'z') || ('0' <= c <= '9') || c == '-' || c == '_'
  }

  /** The digit of value `v` in the standard alphabet. */
  function StdChar(v: Sextet): (c: char)
    ensures IsStdChar(c)
  {
    if v < 26 then ('A' as int + v) as char
    else if v < 52 then ('a' as int + (v - 26)) as char
    else if v < 62 then ('0' as int + (v - 52)) as char
    else if v == 62 then '+'
    else '/'
  }

  /** The value of a digit of the standard alphabet; `None` for any other
      character. */
  function StdIndex(c: char): (r: Option<Sextet>)
    ensures r.Some? <==> IsStdChar(c)
  {
    if 'A' <= c <= 'Z' then Some(c as int - 'A' as int)
    else if 'a' <= c <= 'z' then Some(c as int - 'a' as int + 26)
    else if '0' <= c <= '9' then Some(c as int - '0' as int + 52)
    else if c == '+' then Some(62)
    else if c == '/' then Some(63)
    else None
  }

  /** The number of digits that carry data for `n` bytes, the ceiling of
      4n/3. */
  function DataLength(n: nat): nat {
    (4 * n + 2) / 3
  }

  /** Three bytes as four digits. */
  function EncodeTriple(b0: Byte, b1: Byte, b2: Byte): string {
    [StdChar(b0 / 4), StdChar(b0 % 4 * 16 + b1 / 16), StdChar(b1 % 16 * 4 + b2 / 64), StdChar(b2 % 64)]
  }

  /** `Buffer.from(b).toString("base64")`: four digits per three bytes, the
      last group completed with one or two `=`. */
  function Encode(b: seq<Byte>): (r: string)
    ensures |r| == 4 * ((|b| + 2) / 3)
    ensures forall k :: 0 <= k < |r| ==> if k < DataLength(|b|) then IsStdChar(r[k]) else r[k] == Pad
    decreases |b|
  {
    if |b| == 0 then []
    else if |b| == 1 then [StdChar(b[0] / 4), StdChar(b[0] % 4 * 16), Pad, Pad]
    else if |b| == 2 then [StdChar(b[0] / 4), StdChar(b[0] % 4 * 16 + b[1] / 16), StdChar(b[1] % 16 * 4), Pad]
    else
      var t := EncodeTriple(b[0], b[1], b[2]);
      var rest := Encode(b[3..]);
      EncodeShapeCons(t, rest, |b|);
      t + rest
  }

  /** Four data digits in front of the encoding of the remaining bytes keep
      the shape `Encode` promises. */
  lemma EncodeShapeCons(t: string, rest: string, n: nat)
    requires n >= 3 && |t| == 4
    requires forall k :: 0 <= k < 4 ==> IsStdChar(t[k])
    requires |rest| == 4 * ((n - 3 + 2) / 3)
    requires forall k :: 0 <= k < |rest| ==> if k < DataLength(n - 3) then IsStdChar(rest[k]) else rest[k] == Pad
    ensures |t + rest| == 4 * ((n + 2) / 3)
    ensures forall k :: 0 <= k < |t + rest| ==> if k < DataLength(n) then IsStdChar((t + rest)[k]) else (t + rest)[k] == Pad
  {
    assert DataLength(n) == 4 + DataLength(n - 3);
    assert forall k :: 4 <= k < |t + rest| ==> (t + rest)[k] == rest[k - 4];
  }

  /** Four digits as one to three bytes; padding is accepted only in the
      last group, and only when the bits of the last data digit that carry
      no byte are zero (RFC 4648, section 3.5), so that every byte sequence
      has exactly one encoding. */
  function DecodeQuad(q: string, last: bool): (r: Option<seq<Byte>>)
    requires |q| == 4
  {
    var v0, v1, v2, v3 := StdIndex(q[0]), StdIndex(q[1]), StdIndex(q[2]), StdIndex(q[3]);
    if v0.None? || v1.None? then None
    else
      var x0 := v0.value * 4 + v1.value / 16;
      if v2.Some? && v3.Some? then
        Some([x0, v1.value % 16 * 16 + v2.value / 4, v2.value % 4 * 64 + v3.value])
      else if last && v2.Some? && q[3] == Pad && v2.value % 4 == 0 then
        Some([x0, v1.value % 16 * 16 + v2.value / 4])
      else if last && q[2] == Pad && q[3] == Pad && v1.value % 16 == 0 then
        Some([x0])
      else None
  }

  /** Decodes padded standard base64; `None` for a length that is not a
      multiple of four, a foreign character or misplaced padding. */
  function Decode(s: string): (r: Option<seq<Byte>>)
    decreases |s|
  {
    if s == [] then Some([])
    else if |s| < 4 then None
    else
      match DecodeQuad(s[..4], |s| == 4)
      case None => None
      case Some(h) =>
        match Decode(s[4..])
        case None => None
        case Some(t) => Some(h + t)
  }

  /** `s.replace(/x/g, y)` for a single character `x`. */
  function ReplaceChar(s: string, from: char, to: char): (r: string)
    ensures |r| == |s|
    ensures forall k :: 0 <= k < |s| ==> r[k] == if s[k] == from then to else s[k]
  {
    seq(|s|, k requires 0 <= k < |s| => if s[k] == from then to else s[k])
  }

  /** `s.replace(/=+$/, "")`: drops the run of `=` that ends `s`. */
  function StripPadding(s: string): (r: string)
    ensures r <= s
    ensures r == [] || r[|r| - 1] != Pad
    ensures forall k :: |r| <= k < |s| ==> s[k] == Pad
  {
    if s != [] && s[|s| - 1] == Pad then StripPadding(s[..|s| - 1]) else s
  }

  /** The chain `.toString("base64").replace(/\+/g, "-").replace(/\//g, "_")
      .replace(/=+$/, "")`: unpadded base64url. */
  function EncodeUrl(b: seq<Byte>): (r: string)
    ensures |r| == DataLength(|b|)
    ensures forall k :: 0 <= k < |r| ==> IsUrlChar(r[k])
    ensures Pad !in r
  {
    EncodeUrlShape(b);
    StripPadding(ReplaceChar(ReplaceChar(Encode(b), '+', '-'), '/', '_'))
  }

  /** The `=` that make the length of unpadded base64url text of length `n`
      a multiple of four. */
  function Padding(n: nat): string {
    if n % 4 == 2 then [Pad, Pad] else if n % 4 == 3 then [Pad] else []
  }

  /** Decodes unpadded base64url: restores the padding and the standard
      alphabet, then decodes. */
  function DecodeUrl(u: string): (r: Option<seq<Byte>>)
  {
    if exists k :: 0 <= k < |u| && !IsUrlChar(u[k]) then None
    else if |u| % 4 == 1 then None
    else Decode(ReplaceChar(ReplaceChar(u, '-', '+'), '_', '/') + Padding(|u|))
  }

  // ---------------------------------------------------------------------
  // Lemmas
  // ---------------------------------------------------------------------

  /** The alphabet and its index agree. */
  lemma StdIndexOfStdChar(v: Sextet)
    ensures StdIndex(StdChar(v)) == Some(v)
  {
  }

  /** The data digits of the mapped standard encoding form the unpadded
      base64url text, and the rest is padding. */
  lemma EncodeUrlShape(b: seq<Byte>)
    ensures var e := Encode(b);
      var m := ReplaceChar(ReplaceChar(e, '+', '-'), '/', '_');
      && DataLength(|b|) <= |m|
      && StripPadding(m) == m[..DataLength(|b|)]
      && forall k :: 0 <= k < DataLength(|b|) ==> IsUrlChar(m[k])
  {
    var e := Encode(b);
    var m := ReplaceChar(ReplaceChar(e, '+', '-'), '/', '_');
    var v := DataLength(|b|);
    assert forall k :: 0 <= k < |m| ==> (m[k] == Pad <==> v <= k);
    StripPaddingAt(m, v);
  }

  /** Stripping a string whose `=` are exactly those from index `v` on keeps
      its first `v` characters. */
  lemma {:induction false} StripPaddingAt(m: string, v: nat)
    requires v <= |m|
    requires forall k :: 0 <= k < |m| ==> (m[k] == Pad <==> v <= k)
    ensures StripPadding(m) == m[..v]
    decreases |m|
  {
    if |m| > v {
      assert m[|m| - 1] == Pad;
      StripPaddingAt(m[..|m| - 1], v);
      assert m[..|m| - 1][..v] == m[..v];
    } else {
      assert m[..v] == m;
    }
  }

  /** The arithmetic of regrouping 8-bit values as 6-bit ones and back. */
  lemma Regroup(b0: Byte, b1: Byte, b2: Byte)
    ensures (b0 / 4) * 4 + (b0 % 4 * 16 + b1 / 16) / 16 == b0
    ensures (b0 % 4 * 16 + b1 / 16) % 16 * 16 + (b1 % 16 * 4 + b2 / 64) / 4 == b1
    ensures (b1 % 16 * 4 + b2 / 64) % 4 * 64 + b2 % 64 == b2
  {
    var h0, l0 := b0 / 4, b0 % 4;
    var h1, l1 := b1 / 16, b1 % 16;
    var h2, l2 := b2 / 64, b2 % 64;
    assert (l0 * 16 + h1) / 16 == l0 && (l0 * 16 + h1) % 16 == h1;
    assert (l1 * 4 + h2) / 4 == l1 && (l1 * 4 + h2) % 4 == h2;
  }

  lemma DecodeEncodeTriple(b0: Byte, b1: Byte, b2: Byte, last: bool)
    ensures DecodeQuad(EncodeTriple(b0, b1, b2), last) == Some([b0, b1, b2])
  {
    var v0, v1, v2, v3 := b0 / 4, b0 % 4 * 16 + b1 / 16, b1 % 16 * 4 + b2 / 64, b2 % 64;
    StdIndexOfStdChar(v0);
    StdIndexOfStdChar(v1);
    StdIndexOfStdChar(v2);
    StdIndexOfStdChar(v3);
    Regroup(b0, b1, b2);
  }

  /** Decoding the standard encoding of `b` gives `b` back. */
  lemma {:induction false} DecodeEncode(b: seq<Byte>)
    ensures Decode(Encode(b)) == Some(b)
    decreases |b|
  {
    if |b| == 1 {
      DecodeEncodeOne(b[0]);
      assert b == [b[0]];
    } else if |b| == 2 {
      DecodeEncodeTwo(b[0], b[1]);
      assert b == [b[0], b[1]];
    } else if |b| >= 3 {
      DecodeEncode(b[3..]);
      DecodeEncodeStep(b);
    }
  }

  /** One full group: three bytes more decode to three bytes more. */
  lemma DecodeEncodeStep(b: seq<Byte>)
    requires |b| >= 3
    requires Decode(Encode(b[3..])) == Some(b[3..])
    ensures Decode(Encode(b)) == Some(b)
  {
    var t := EncodeTriple(b[0], b[1], b[2]);
    var rest := Encode(b[3..]);
    EncodeGroup(b);
    DecodeEncodeTriple(b[0], b[1], b[2], rest == []);
    DecodeCons(t, rest, [b[0], b[1], b[2]], b[3..]);
    SplitGroup(b);
  }

  lemma EncodeGroup(b: seq<Byte>)
    requires |b| >= 3
    ensures Encode(b) == EncodeTriple(b[0], b[1], b[2]) + Encode(b[3..])
  {
  }

  lemma SplitGroup(b: seq<Byte>)
    requires |b| >= 3
    ensures b == [b[0], b[1], b[2]] + b[3..]
  {
  }

  /** Decoding proceeds group by group. */
  lemma DecodeCons(q: string, rest: string, h: seq<Byte>, t: seq<Byte>)
    requires |q| == 4
    requires DecodeQuad(q, rest == []) == Some(h)
    requires Decode(rest) == Some(t)
    ensures Decode(q + rest) == Some(h + t)
  {
    var s := q + rest;
    assert s[..4] == q && s[4..] == rest;
  }

  lemma DecodeEncodeOne(b0: Byte)
    ensures Decode(Encode([b0])) == Some([b0])
  {
    var v0, v1 := b0 / 4, b0 % 4 * 16;
    StdIndexOfStdChar(v0);
    StdIndexOfStdChar(v1);
    assert v0 * 4 + v1 / 16 == b0;
    var e := [StdChar(v0), StdChar(v1), Pad, Pad];
    assert Encode([b0]) == e;
    assert DecodeQuad(e, true) == Some([b0]);
    DecodeCons(e, [], [b0], []);
    assert e + [] == e && [b0] + [] == [b0];
  }

  lemma DecodeEncodeTwo(b0: Byte, b1: Byte)
    ensures Decode(Encode([b0, b1])) == Some([b0, b1])
  {
    var v0, v1, v2 := b0 / 4, b0 % 4 * 16 + b1 / 16, b1 % 16 * 4;
    StdIndexOfStdChar(v0);
    StdIndexOfStdChar(v1);
    StdIndexOfStdChar(v2);
    Regroup(b0, b1, 0);
    assert v0 * 4 + v1 / 16 == b0;
    assert v1 % 16 * 16 + v2 / 4 == b1;
    var e := [StdChar(v0), StdChar(v1), StdChar(v2), Pad];
    assert Encode([b0, b1]) == e;
    assert DecodeQuad(e, true) == Some([b0, b1]);
    DecodeCons(e, [], [b0, b1], []);
    assert e + [] == e && [b0, b1] + [] == [b0, b1];
  }

  /** Re-padding and decoding the unpadded base64url text of `b` gives `b`
      back. */
  lemma DecodeUrlEncodeUrl(b: seq<Byte>)
    ensures DecodeUrl(EncodeUrl(b)) == Some(b)
  {
    var e := Encode(b);
    var u := EncodeUrl(b);
    RestorePadding(b);
    assert !exists k :: 0 <= k < |u| && !IsUrlChar(u[k]);
    DecodeEncode(b);
  }

  /** Restoring the alphabet and the padding of the unpadded base64url text
      gives the standard encoding. */
  lemma RestorePadding(b: seq<Byte>)
    ensures var u := EncodeUrl(b);
      |u| % 4 != 1 && ReplaceChar(ReplaceChar(u, '-', '+'), '_', '/') + Padding(|u|) == Encode(b)
  {
    var e := Encode(b);
    var v := DataLength(|b|);
    var m := ReplaceChar(ReplaceChar(e, '+', '-'), '/', '_');
    EncodeUrlShape(b);
    assert EncodeUrl(b) == m[..v];
    RestoreAlphabet(e, v);
    PaddingTail(e, |b|);
    assert e == e[..v] + e[v..];
  }

  /** The `=` after the data digits of an encoding are the padding restored
      for the data length. */
  lemma PaddingTail(e: string, n: nat)
    requires |e| == 4 * ((n + 2) / 3)
    requires forall k :: DataLength(n) <= k < |e| ==> e[k] == Pad
    ensures DataLength(n) % 4 != 1
    ensures e[DataLength(n)..] == Padding(DataLength(n))
  {
    var v := DataLength(n);
    PaddingLength(n);
    assert |e[v..]| == |Padding(v)|;
    assert forall k :: 0 <= k < |Padding(v)| ==> Padding(v)[k] == Pad;
  }

  /** Mapping the standard digits of `e[..v]` to base64url and back gives
      them unchanged. */
  lemma RestoreAlphabet(e: string, v: nat)
    requires v <= |e|
    requires forall k :: 0 <= k < v ==> IsStdChar(e[k])
    ensures var m := ReplaceChar(ReplaceChar(e, '+', '-'), '/', '_');
      ReplaceChar(ReplaceChar(m[..v], '-', '+'), '_', '/') == e[..v]
  {
  }

  /** The padding stripped from `n` bytes' encoding is the padding restored
      for the stripped length. */
  lemma PaddingLength(n: nat)
    ensures DataLength(n) % 4 != 1
    ensures 4 * ((n + 2) / 3) - DataLength(n) == |Padding(DataLength(n))|
  {
    var v := DataLength(n);
    var m := n / 3;
    assert n == 3 * m + n % 3;
    if n % 3 == 0 {
      assert v == 4 * m;
    } else if n % 3 == 1 {
      assert v == 4 * m + 2;
    } else {
      assert v == 4 * m + 3;
    }
  }

  /** The index and the alphabet agree. */
  lemma StdCharOfStdIndex(c: char)
    requires IsStdChar(c)
    ensures StdChar(StdIndex(c).value) == c
  {
  }

  /** The arithmetic of regrouping 6-bit values as 8-bit ones and back. */
  lemma Ungroup(v0: Sextet, v1: Sextet, v2: Sextet, v3: Sextet)
    ensures var b0, b1, b2 := v0 * 4 + v1 / 16, v1 % 16 * 16 + v2 / 4, v2 % 4 * 64 + v3;
      && b0 / 4 == v0 && b0 % 4 * 16 + b1 / 16 == v1
      && b1 % 16 * 4 + b2 / 64 == v2 && b2 % 64 == v3
      && (v1 % 16 == 0 ==> b0 % 4 * 16 == v1)
      && (v2 % 4 == 0 ==> b1 % 16 * 4 == v2)
  {
    var h1, l1 := v1 / 16, v1 % 16;
    var h2, l2 := v2 / 4, v2 % 4;
    assert (v0 * 4 + h1) / 4 == v0 && (v0 * 4 + h1) % 4 == h1;
    assert (l1 * 16 + h2) / 16 == l1 && (l1 * 16 + h2) % 16 == h2;
    assert (l2 * 64 + v3) / 64 == l2 && (l2 * 64 + v3) % 64 == v3;
  }

  /** A group the decoder accepts is the encoding of the bytes it gives:
      a full group of three, or a padded last group of one or two. */
  lemma EncodeDecodeQuad(q: string, last: bool, h: seq<Byte>)
    requires |q| == 4 && DecodeQuad(q, last) == Some(h)
    ensures 1 <= |h| <= 3
    ensures |h| == 3 ==> q == EncodeTriple(h[0], h[1], h[2])
    ensures |h| < 3 ==> last && q == Encode(h)
  {
    var v1, v2, v3 := StdIndex(q[1]), StdIndex(q[2]), StdIndex(q[3]);
    if v2.Some? && v3.Some? {
      QuadFull(q, last);
    } else if last && v2.Some? && q[3] == Pad && v2.value % 4 == 0 {
      QuadTwo(q);
    } else {
      QuadOne(q);
    }
  }

  /** Four data digits are the encoding of their three bytes. */
  lemma QuadFull(q: string, last: bool)
    requires |q| == 4 && IsStdChar(q[0]) && IsStdChar(q[1]) && IsStdChar(q[2]) && IsStdChar(q[3])
    ensures var r := DecodeQuad(q, last);
      r.Some? && |r.value| == 3 && q == EncodeTriple(r.value[0], r.value[1], r.value[2])
  {
    var v0, v1, v2, v3 := StdIndex(q[0]).value, StdIndex(q[1]).value, StdIndex(q[2]).value, StdIndex(q[3]).value;
    DecodeQuadFull(q, last, v0, v1, v2, v3);
    StdCharOfStdIndex(q[0]);
    StdCharOfStdIndex(q[1]);
    StdCharOfStdIndex(q[2]);
    StdCharOfStdIndex(q[3]);
    EncodeQuadFull(q, DecodeQuad(q, last).value, v0, v1, v2, v3);
  }

  /** Four digits of the given values are the encoding of the bytes those
      values regroup into. */
  lemma EncodeQuadFull(q: string, h: seq<Byte>, v0: Sextet, v1: Sextet, v2: Sextet, v3: Sextet)
    requires |q| == 4 && q[0] == StdChar(v0) && q[1] == StdChar(v1) && q[2] == StdChar(v2) && q[3] == StdChar(v3)
    requires |h| == 3 && h[0] == v0 * 4 + v1 / 16 && h[1] == v1 % 16 * 16 + v2 / 4 && h[2] == v2 % 4 * 64 + v3
    ensures q == EncodeTriple(h[0], h[1], h[2])
  {
    EncodeSextets(v0, v1, v2, v3);
    assert q == [q[0], q[1], q[2], q[3]];
    SameTriple(h[0], h[1], h[2], v0 * 4 + v1 / 16, v1 % 16 * 16 + v2 / 4, v2 % 4 * 64 + v3);
  }

  /** Equal bytes have equal digits. */
  lemma SameTriple(a0: Byte, a1: Byte, a2: Byte, b0: Byte, b1: Byte, b2: Byte)
    requires a0 == b0 && a1 == b1 && a2 == b2
    ensures EncodeTriple(a0, a1, a2) == EncodeTriple(b0, b1, b2)
  {
  }

  /** The bytes of a group of four data digits of the given values. */
  lemma DecodeQuadFull(q: string, last: bool, v0: Sextet, v1: Sextet, v2: Sextet, v3: Sextet)
    requires |q| == 4
    requires StdIndex(q[0]) == Some(v0) && StdIndex(q[1]) == Some(v1) && StdIndex(q[2]) == Some(v2) && StdIndex(q[3]) == Some(v3)
    ensures var r := DecodeQuad(q, last);
      && r.Some? && |r.value| == 3
      && r.value[0] == v0 * 4 + v1 / 16 && r.value[1] == v1 % 16 * 16 + v2 / 4 && r.value[2] == v2 % 4 * 64 + v3
  {
  }

  /** Regrouping four sextets as three bytes and encoding those gives the
      digits of the sextets back. */
  lemma EncodeSextets(v0: Sextet, v1: Sextet, v2: Sextet, v3: Sextet)
    ensures 0 <= v0 * 4 + v1 / 16 < 256 && 0 <= v1 % 16 * 16 + v2 / 4 < 256 && 0 <= v2 % 4 * 64 + v3 < 256
    ensures EncodeTriple(v0 * 4 + v1 / 16, v1 % 16 * 16 + v2 / 4, v2 % 4 * 64 + v3)
      == [StdChar(v0), StdChar(v1), StdChar(v2), StdChar(v3)]
  {
    Ungroup(v0, v1, v2, v3);
  }

  /** Three data digits and one `=`, with the last two bits zero, are the
      encoding of their two bytes. */
  lemma QuadTwo(q: string)
    requires |q| == 4 && IsStdChar(q[0]) && IsStdChar(q[1]) && IsStdChar(q[2]) && q[3] == Pad
    requires StdIndex(q[2]).value % 4 == 0
    ensures var r := DecodeQuad(q, true);
      r.Some? && |r.value| == 2 && q == Encode(r.value)
  {
    var v0, v1, v2 := StdIndex(q[0]).value, StdIndex(q[1]).value, StdIndex(q[2]).value;
    DecodeQuadTwo(q, v0, v1, v2);
    StdCharOfStdIndex(q[0]);
    StdCharOfStdIndex(q[1]);
    StdCharOfStdIndex(q[2]);
    EncodeQuadTwo(q, DecodeQuad(q, true).value, v0, v1, v2);
  }

  /** The two bytes of a padded last group of three digits of the given
      values. */
  lemma DecodeQuadTwo(q: string, v0: Sextet, v1: Sextet, v2: Sextet)
    requires |q| == 4 && q[3] == Pad && v2 % 4 == 0
    requires StdIndex(q[0]) == Some(v0) && StdIndex(q[1]) == Some(v1) && StdIndex(q[2]) == Some(v2)
    ensures var r := DecodeQuad(q, true);
      r.Some? && |r.value| == 2 && r.value[0] == v0 * 4 + v1 / 16 && r.value[1] == v1 % 16 * 16 + v2 / 4
  {
  }

  /** Three digits of the given values and one `=` are the encoding of the
      two bytes those values regroup into. */
  lemma EncodeQuadTwo(q: string, h: seq<Byte>, v0: Sextet, v1: Sextet, v2: Sextet)
    requires |q| == 4 && q[0] == StdChar(v0) && q[1] == StdChar(v1) && q[2] == StdChar(v2) && q[3] == Pad
    requires v2 % 4 == 0 && |h| == 2 && h[0] == v0 * 4 + v1 / 16 && h[1] == v1 % 16 * 16 + v2 / 4
    ensures q == Encode(h)
  {
    Ungroup(v0, v1, v2, 0);
    assert h[0] / 4 == v0 && h[0] % 4 * 16 + h[1] / 16 == v1 && h[1] % 16 * 4 == v2;
    assert q == [q[0], q[1], q[2], Pad];
  }

  /** Two data digits and two `=`, with the last four bits zero, are the
      encoding of their byte. */
  lemma QuadOne(q: string)
    requires |q| == 4 && IsStdChar(q[0]) && IsStdChar(q[1]) && q[2] == Pad && q[3] == Pad
    requires StdIndex(q[1]).value % 16 == 0
    ensures var r := DecodeQuad(q, true);
      r.Some? && |r.value| == 1 && q == Encode(r.value)
  {
    var v0, v1 := StdIndex(q[0]).value, StdIndex(q[1]).value;
    DecodeQuadOne(q, v0, v1);
    StdCharOfStdIndex(q[0]);
    StdCharOfStdIndex(q[1]);
    EncodeQuadOne(q, DecodeQuad(q, true).value, v0, v1);
  }

  /** The byte of a padded last group of two digits of the given values. */
  lemma DecodeQuadOne(q: string, v0: Sextet, v1: Sextet)
    requires |q| == 4 && q[2] == Pad && q[3] == Pad && v1 % 16 == 0
    requires StdIndex(q[0]) == Some(v0) && StdIndex(q[1]) == Some(v1)
    ensures var r := DecodeQuad(q, true);
      r.Some? && |r.value| == 1 && r.value[0] == v0 * 4 + v1 / 16
  {
  }

  /** Two digits of the given values and two `=` are the encoding of the
      byte those values regroup into. */
  lemma EncodeQuadOne(q: string, h: seq<Byte>, v0: Sextet, v1: Sextet)
    requires |q| == 4 && q[0] == StdChar(v0) && q[1] == StdChar(v1) && q[2] == Pad && q[3] == Pad
    requires v1 % 16 == 0 && |h| == 1 && h[0] == v0 * 4 + v1 / 16
    ensures q == Encode(h)
  {
    Ungroup(v0, v1, 0, 0);
    assert h[0] / 4 == v0 && h[0] % 4 * 16 == v1;
    assert q == [q[0], q[1], Pad, Pad];
  }

  /** The decoder accepts only the encoding itself: any text that decodes
      to `b` is `Encode(b)`. */
  lemma {:induction false} EncodeDecode(x: string, b: seq<Byte>)
    requires Decode(x) == Some(b)
    ensures x == Encode(b)
    decreases |x|
  {
    if x != [] {
      var q := x[..4];
      var h := DecodeQuad(q, |x| == 4).value;
      var t := Decode(x[4..]).value;
      EncodeDecode(x[4..], t);
      EncodeDecodeQuad(q, |x| == 4, h);
      assert b == h + t;
      assert x == q + x[4..];
      if |h| == 3 {
        assert b[..3] == h && b[3..] == t;
        assert Encode(b) == EncodeTriple(b[0], b[1], b[2]) + Encode(b[3..]);
      } else {
        assert t == [] && b == h;
        assert x[4..] == [];
      }
    }
  }

  /** The base64url decoder accepts only the unpadded base64url text
      itself: any text that decodes to `b` is `EncodeUrl(b)`. */
  lemma EncodeUrlDecodeUrl(u: string, b: seq<Byte>)
    requires DecodeUrl(u) == Some(b)
    ensures u == EncodeUrl(b)
  {
    var e := ReplaceChar(ReplaceChar(u, '-', '+'), '_', '/') + Padding(|u|);
    EncodeDecode(e, b);
    UrlAlphabetBack(u);
    StripPaddingAt(u + Padding(|u|), |u|);
    assert (u + Padding(|u|))[..|u|] == u;
  }

  /** Mapping base64url text to the standard alphabet, padding it and mapping
      it back gives the text followed by its padding. */
  lemma UrlAlphabetBack(u: string)
    requires forall k :: 0 <= k < |u| ==> IsUrlChar(u[k])
    ensures var e := ReplaceChar(ReplaceChar(u, '-', '+'), '_', '/') + Padding(|u|);
      ReplaceChar(ReplaceChar(e, '+', '-'), '/', '_') == u + Padding(|u|)
    ensures forall k :: 0 <= k < |u| + |Padding(|u|)| ==>
      ((u + Padding(|u|))[k] == Pad <==> |u| <= k)
  {
  }

  /** Text whose unused bits are not zero is rejected: the one-byte group
      for "A" is "QQ==", and "QR==" and "QR" are not accepted. */
  lemma NonCanonicalRejected()
    ensures Encode([0x41]) == "QQ==" && EncodeUrl([0x41]) == "QQ"
    ensures Decode("QR==") == None && DecodeUrl("QR") == None
  {
  }

  /** The length is the ceiling of 4n/3 for n bytes. */
  lemma EncodeUrlLength(b: seq<Byte>)
    ensures 4 * |b| <= 3 * |EncodeUrl(b)| < 4 * |b| + 3
  {
  }
}
