/** `encodeURIComponent` as section 19.2.6.5 of ECMA-262 defines it: the
    unreserved characters `A-Z a-z 0-9 - _ . ! ~ * ' ( )` are kept, every other
    code point is written as its UTF-8 bytes, each as `%` and two upper-case
    hex digits. A matching decoder serves as its partner. */
module Uri {
  import opened Wrappers

  /** The characters `encodeURIComponent` leaves as they are. */
  predicate IsUnreserved(c: char) {
    || 'A' <= c <= 'Z' || 'a' <= c <= 'z' || '0' <= c <= '9'
    || c == '-' || c == '_' || c == '.' || c == '!' || c == '~'
    || c == '*' || c == '\'' || c == '(' || c == ')'
  }

  predicate IsByte(b: int) {
    0 <= b < 256
  }

  function HexDigit(d: int): (c: char)
    requires 0 <= d < 16
    ensures IsUnreserved(c)
  {
    if d < 10 then ('0' as int + d) as char else ('A' as int + d - 10) as char
  }

  /** One byte as `%` and two upper-case hex digits. */
  function Escape(b: int): (r: string)
    requires IsByte(b)
    ensures |r| == 3 && r[0] == '%'
  {
    ['%', HexDigit(b / 16), HexDigit(b % 16)]
  }

  function EscapeAll(bytes: seq<int>): (r: string)
    requires forall i | 0 <= i < |bytes| :: IsByte(bytes[i])
    ensures |r| == 3 * |bytes|
  {
    if bytes == [] then [] else Escape(bytes[0]) + EscapeAll(bytes[1..])
  }

  /** The UTF-8 encoding of code point `cp`: one to four bytes, the leading
      byte carrying the length and the high bits, each continuation byte six
      further bits. */
  function Utf8(cp: int): (bytes: seq<int>)
    requires 0 <= cp < 0x11_0000
    ensures 1 <= |bytes| <= 4
    ensures forall i | 0 <= i < |bytes| :: IsByte(bytes[i])
    ensures |bytes| == 1 <==> cp < 0x80
  {
    if cp < 0x80 then
      [cp]
    else if cp < 0x800 then
      [0xC0 + cp / 64, 0x80 + cp % 64]
    else if cp < 0x1_0000 then
      var hi := cp / 64;
      [0xE0 + hi / 64, 0x80 + hi % 64, 0x80 + cp % 64]
    else
      var hi := cp / 64;
      var top := hi / 64;
      [0xF0 + top / 64, 0x80 + top % 64, 0x80 + hi % 64, 0x80 + cp % 64]
  }

  function EncodeChar(c: char): (r: string)
    ensures IsUnreserved(c) ==> r == [c]
    ensures !IsUnreserved(c) ==> |r| >= 3 && r[0] == '%'
  {
    if IsUnreserved(c) then [c] else EscapeAll(Utf8(c as int))
  }

  /** `encodeURIComponent(s)`. */
  function EncodeURIComponent(s: string): (r: string)
    ensures |r| >= |s|
  {
    if s == [] then [] else EncodeChar(s[0]) + EncodeURIComponent(s[1..])
  }

  /** The characters an encoding may hold: unreserved ones and `%`. */
  predicate InAlphabet(r: string) {
    forall i | 0 <= i < |r| :: IsUnreserved(r[i]) || r[i] == '%'
  }

  lemma {:induction false} EscapeAllAlphabet(bytes: seq<int>)
    requires forall i | 0 <= i < |bytes| :: IsByte(bytes[i])
    ensures InAlphabet(EscapeAll(bytes))
  {
    if bytes != [] {
      EscapeAllAlphabet(bytes[1..]);
      var e := Escape(bytes[0]);
      var r := EscapeAll(bytes[1..]);
      assert InAlphabet(e);
      assert forall i | 0 <= i < |e + r| :: (e + r)[i] == if i < |e| then e[i] else r[i - |e|];
    }
  }

  /** The encoding only holds unreserved characters and `%`, so it never
      contains a quote, `<`, `>`, `&` or whitespace. */
  lemma {:induction false} EncodeAlphabet(s: string)
    ensures InAlphabet(EncodeURIComponent(s))
  {
    if s != [] {
      EncodeAlphabet(s[1..]);
      var e := EncodeChar(s[0]);
      var r := EncodeURIComponent(s[1..]);
      if !IsUnreserved(s[0]) {
        EscapeAllAlphabet(Utf8(s[0] as int));
      }
      assert forall i | 0 <= i < |e + r| :: (e + r)[i] == if i < |e| then e[i] else r[i - |e|];
    }
  }

  // ---------------------------------------------------------------------------
  // The decoder.

  /** The value of a hex digit, or -1 for any other character. */
  function HexValue(c: char): (v: int)
    ensures -1 <= v < 16
  {
    if '0' <= c <= '9' then c as int - '0' as int
    else if 'A' <= c <= 'F' then c as int - 'A' as int + 10
    else if 'a' <= c <= 'f' then c as int - 'a' as int + 10
    else -1
  }

  /** The byte escaped as `%XY` at position `i` of `t`, if there is one. */
  function ByteAt(t: string, i: nat): (r: Option<int>)
    ensures r.Some? ==> i + 3 <= |t| && IsByte(r.value)
  {
    if i + 3 <= |t| && t[i] == '%' && HexValue(t[i + 1]) >= 0 && HexValue(t[i + 2]) >= 0 then
      Some(HexValue(t[i + 1]) * 16 + HexValue(t[i + 2]))
    else
      None
  }

  function ToChar(cp: int, width: nat): Option<(char, nat)> {
    if 0 <= cp < 0xD800 || 0xE000 <= cp < 0x11_0000 then Some((cp as char, width)) else None
  }

  /** Reads `count` escaped continuation bytes from the start of `t`, shifting
      their six payload bits each into `acc`. */
  function Continuations(t: string, count: nat, acc: int): Option<int>
    decreases count
  {
    if count == 0 then Some(acc)
    else
      var b :- ByteAt(t, 0);
      if 0x80 <= b < 0xC0 then Continuations(t[3..], count - 1, acc * 64 + (b - 0x80)) else None
  }

  /** What a leading UTF-8 byte contributes to the code point and how many
      continuation bytes follow it. */
  function LeadByte(b0: int): Option<(int, nat)> {
    if 0 <= b0 < 0x80 then Some((b0, 0))
    else if 0xC0 <= b0 < 0xE0 then Some((b0 - 0xC0, 1))
    else if 0xE0 <= b0 < 0xF0 then Some((b0 - 0xE0, 2))
    else if 0xF0 <= b0 < 0xF8 then Some((b0 - 0xF0, 3))
    else None
  }

  /** The code point whose escaped UTF-8 bytes start `t`, and how many
      characters of `t` they take. */
  function DecodeEscaped(t: string): (r: Option<(char, nat)>)
    ensures r.Some? ==> 3 <= r.value.1 <= |t|
  {
    var b0 :- ByteAt(t, 0);
    var (lead, count) :- LeadByte(b0);
    if |t| < 3 * (count + 1) then None
    else
      var cp :- Continuations(t[3..], count, lead);
      ToChar(cp, 3 * (count + 1))
  }

  /** `decodeURIComponent`, for text that holds no malformed escape. */
  function DecodeURIComponent(t: string): Option<string>
    decreases |t|
  {
    if t == [] then Some([])
    else if t[0] != '%' then
      var rest :- DecodeURIComponent(t[1..]);
      Some([t[0]] + rest)
    else
      var (c, n) :- DecodeEscaped(t);
      var rest :- DecodeURIComponent(t[n..]);
      Some([c] + rest)
  }

  // ---------------------------------------------------------------------------
  // Round trip.

  lemma HexRoundTrip(d: int)
    requires 0 <= d < 16
    ensures HexValue(HexDigit(d)) == d
  {
  }

  /** An escaped byte reads back as that byte. */
  lemma ReadEscape(b: int, rest: string)
    requires IsByte(b)
    ensures ByteAt(Escape(b) + rest, 0) == Some(b)
    ensures (Escape(b) + rest)[3..] == rest
  {
    var t := Escape(b) + rest;
    assert t[0] == '%' && t[1] == HexDigit(b / 16) && t[2] == HexDigit(b % 16);
    HexRoundTrip(b / 16);
    HexRoundTrip(b % 16);
  }

  /** The payload bits of escaped continuation bytes, shifted into `acc`. */
  function ContinuationBits(conts: seq<int>, acc: int): int {
    if conts == [] then acc else ContinuationBits(conts[1..], acc * 64 + (conts[0] - 0x80))
  }

  predicate AreContinuations(conts: seq<int>) {
    forall i | 0 <= i < |conts| :: 0x80 <= conts[i] < 0xC0
  }

  /** One escaped continuation byte adds its six payload bits. */
  lemma ContinuationStep(b: int, tail: string, count: nat, acc: int)
    requires 0x80 <= b < 0xC0
    ensures Continuations(Escape(b) + tail, count + 1, acc) == Continuations(tail, count, acc * 64 + (b - 0x80))
  {
    ReadEscape(b, tail);
  }

  lemma {:induction false} ReadContinuations(conts: seq<int>, rest: string, acc: int)
    requires AreContinuations(conts)
    ensures Continuations(EscapeAll(conts) + rest, |conts|, acc) == Some(ContinuationBits(conts, acc))
  {
    if conts != [] {
      var b := conts[0];
      var tail := EscapeAll(conts[1..]) + rest;
      assert EscapeAll(conts) + rest == Escape(b) + tail by {
        assert EscapeAll(conts) == Escape(b) + EscapeAll(conts[1..]);
      }
      ContinuationStep(b, tail, |conts| - 1, acc);
      assert AreContinuations(conts[1..]) by {
        forall i | 0 <= i < |conts[1..]| ensures 0x80 <= conts[1..][i] < 0xC0 {
          assert conts[1..][i] == conts[i + 1];
        }
      }
      ReadContinuations(conts[1..], rest, acc * 64 + (b - 0x80));
    }
  }

  /** A UTF-8 sequence: its leading byte, what that byte contributes to the
      code point, and its continuation bytes. */
  lemma Utf8Parts(cp: int) returns (lead: int, conts: seq<int>)
    requires 0 <= cp < 0x11_0000
    ensures Utf8(cp) == [Utf8(cp)[0]] + conts
    ensures AreContinuations(conts)
    ensures ContinuationBits(conts, lead) == cp
    ensures LeadByte(Utf8(cp)[0]) == Some((lead, |conts|))
  {
    var bs := Utf8(cp);
    conts := bs[1..];
    assert bs == [bs[0]] + conts;
    if cp < 0x80 {
      lead := cp;
    } else if cp < 0x800 {
      lead := cp / 64;
      assert ContinuationBits(conts, lead) == ContinuationBits([], lead * 64 + cp % 64);
    } else if cp < 0x1_0000 {
      var hi := cp / 64;
      lead := hi / 64;
      assert conts == [0x80 + hi % 64, 0x80 + cp % 64];
      assert ContinuationBits(conts, lead) == ContinuationBits([0x80 + cp % 64], lead * 64 + hi % 64);
      assert ContinuationBits([0x80 + cp % 64], hi) == ContinuationBits([], hi * 64 + cp % 64);
    } else {
      var hi := cp / 64;
      var top := hi / 64;
      lead := top / 64;
      assert conts == [0x80 + top % 64, 0x80 + hi % 64, 0x80 + cp % 64];
      assert ContinuationBits(conts, lead) == ContinuationBits([0x80 + hi % 64, 0x80 + cp % 64], lead * 64 + top % 64);
      assert ContinuationBits([0x80 + hi % 64, 0x80 + cp % 64], top) == ContinuationBits([0x80 + cp % 64], top * 64 + hi % 64);
      assert ContinuationBits([0x80 + cp % 64], hi) == ContinuationBits([], hi * 64 + cp % 64);
    }
  }

  /** An escaped leading byte followed by its continuation bytes decodes to
      the code point they carry. */
  lemma DecodeLead(b0: int, after: string, lead: int, count: nat, cp: int)
    requires IsByte(b0) && LeadByte(b0) == Some((lead, count))
    requires 3 * count <= |after|
    requires Continuations(after, count, lead) == Some(cp)
    ensures DecodeEscaped(Escape(b0) + after) == ToChar(cp, 3 * (count + 1))
  {
    ReadEscape(b0, after);
  }

  /** The encoding of a reserved character: its escaped leading byte, then its
      escaped continuation bytes. */
  lemma EncodedParts(c: char) returns (b0: int, lead: int, conts: seq<int>)
    requires !IsUnreserved(c)
    ensures IsByte(b0) && LeadByte(b0) == Some((lead, |conts|))
    ensures AreContinuations(conts) && ContinuationBits(conts, lead) == c as int
    ensures EncodeChar(c) == Escape(b0) + EscapeAll(conts)
  {
    var cp := c as int;
    lead, conts := Utf8Parts(cp);
    b0 := Utf8(cp)[0];
    assert EncodeChar(c) == EscapeAll([b0] + conts);
    EscapeAllCons(b0, conts);
  }

  /** The escaped UTF-8 bytes of a reserved character decode back to it. */
  lemma DecodeEscapedChar(c: char, rest: string)
    requires !IsUnreserved(c)
    ensures DecodeEscaped(EncodeChar(c) + rest) == Some((c, |EncodeChar(c)|))
  {
    var b0, lead, conts := EncodedParts(c);
    var after := EscapeAll(conts) + rest;
    assert EncodeChar(c) + rest == Escape(b0) + after;
    ReadContinuations(conts, rest, lead);
    DecodeLead(b0, after, lead, |conts|, c as int);
    CharOfCodePoint(c, 3 * (|conts| + 1));
  }

  /** Every character is a Unicode scalar value and converts back to itself. */
  lemma CharOfCodePoint(c: char, width: nat)
    ensures ToChar(c as int, width) == Some((c, width))
  {
  }

  lemma EscapeAllCons(b: int, bs: seq<int>)
    requires IsByte(b) && forall i | 0 <= i < |bs| :: IsByte(bs[i])
    ensures EscapeAll([b] + bs) == Escape(b) + EscapeAll(bs)
  {
    assert ([b] + bs)[1..] == bs;
  }

  /** Decoding undoes `encodeURIComponent`. */
  lemma {:induction false} DecodeEncode(s: string)
    ensures DecodeURIComponent(EncodeURIComponent(s)) == Some(s)
  {
    if s != [] {
      var c := s[0];
      var head := EncodeChar(c);
      var tail := EncodeURIComponent(s[1..]);
      DecodeEncode(s[1..]);
      assert EncodeURIComponent(s) == head + tail;
      if IsUnreserved(c) {
        assert c != '%';
        assert (head + tail)[1..] == tail;
      } else {
        DecodeEscapedChar(c, tail);
        assert (head + tail)[|head|..] == tail;
      }
      assert [c] + s[1..] == s;
    }
  }

  /** Two locations with the same encoding are the same location. */
  lemma EncodeInjective(a: string, b: string)
    requires EncodeURIComponent(a) == EncodeURIComponent(b)
    ensures a == b
  {
    DecodeEncode(a);
    DecodeEncode(b);
  }

  function Reserved(s: string): nat {
    if s == [] then 0 else (if IsUnreserved(s[0]) then 0 else 1) + Reserved(s[1..])
  }

  /** Each reserved character takes at least two extra characters. */
  lemma {:induction false} EncodeLength(s: string)
    ensures |EncodeURIComponent(s)| >= |s| + 2 * Reserved(s)
  {
    if s != [] {
      EncodeLength(s[1..]);
    }
  }

  /** A string is left unchanged exactly when it holds only unreserved
      characters. */
  lemma {:induction false} EncodeIdentity(s: string)
    ensures EncodeURIComponent(s) == s <==> forall i | 0 <= i < |s| :: IsUnreserved(s[i])
  {
    if s != [] {
      EncodeIdentity(s[1..]);
      EncodeLength(s);
      if !IsUnreserved(s[0]) {
        assert Reserved(s) >= 1;
      } else {
        assert EncodeURIComponent(s) == [s[0]] + EncodeURIComponent(s[1..]);
        assert s == [s[0]] + s[1..];
        if EncodeURIComponent(s) == s {
          assert EncodeURIComponent(s[1..]) == s[1..];
        }
        if forall i | 0 <= i < |s| :: IsUnreserved(s[i]) {
          assert forall i | 0 <= i < |s[1..]| :: IsUnreserved(s[1..][i]) by {
            forall i | 0 <= i < |s[1..]| ensures IsUnreserved(s[1..][i]) {
              assert s[1..][i] == s[i + 1];
            }
          }
        }
      }
    }
  }
}
