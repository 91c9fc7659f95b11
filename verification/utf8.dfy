/**
 * UTF-8, as the assembler uses it to turn the payload of a text message into
 * a string: a strict decoder for whole payloads, and the incremental decoder
 * that `get_iter` feeds one frame at a time, which holds back the bytes of a
 * code point split across two frames until the rest arrives.
 *
 * Well-formedness follows the table of well-formed byte sequences of the
 * Unicode Standard (section 3.9): no overlong forms, no surrogates, nothing
 * above U+10FFFF. The decoder is proved to be the exact inverse of `Encode`.
 */
module Utf8 {
  import opened Wrappers

  /** An octet of a payload. */
  type byte = b: int | 0 <= b < 0x100

  /** Number of bytes of the sequence that `lead` starts; 0 when `lead` cannot start one. */
  function SequenceLength(lead: byte): (n: nat)
  {
    if lead < 0x80 then 1
    else if 0xC2 <= lead < 0xE0 then 2
    else if 0xE0 <= lead < 0xF0 then 3
    else if 0xF0 <= lead < 0xF5 then 4
    else 0
  }

  /** May `b` stand at position `i` (1 or more) of a sequence that starts with `lead`? */
  predicate ContinuationOk(lead: byte, i: nat, b: byte)
  {
    if i == 1 && lead == 0xE0 then 0xA0 <= b < 0xC0
    else if i == 1 && lead == 0xED then 0x80 <= b < 0xA0
    else if i == 1 && lead == 0xF0 then 0x90 <= b < 0xC0
    else if i == 1 && lead == 0xF4 then 0x80 <= b < 0x90
    else 0x80 <= b < 0xC0
  }

  /** `s` is the beginning, possibly all, of one well-formed sequence. */
  predicate WellFormedPrefix(s: seq<byte>)
  {
    0 < |s| <= SequenceLength(s[0]) &&
    (|s| > 1 ==> ContinuationOk(s[0], 1, s[1])) &&
    (|s| > 2 ==> ContinuationOk(s[0], 2, s[2])) &&
    (|s| > 3 ==> ContinuationOk(s[0], 3, s[3]))
  }

  /** `s` is exactly one well-formed sequence: the encoding of one character. */
  predicate WellFormedChar(s: seq<byte>)
  {
    WellFormedPrefix(s) && |s| == SequenceLength(s[0])
  }

  /** `s` is a well-formed sequence cut short: more bytes are needed. */
  predicate Incomplete(s: seq<byte>)
  {
    WellFormedPrefix(s) && |s| < SequenceLength(s[0])
  }

  /** `x` is a Unicode scalar value: a code point that is not a surrogate. */
  predicate IsScalar(x: int)
  {
    0 <= x < 0xD800 || 0xE000 <= x < 0x11_0000
  }

  /** The encoding of one scalar value. */
  function EncodeScalar(x: int): (s: seq<byte>)
    requires IsScalar(x)
  {
    var q1, r1 := x / 64, x % 64;
    var q2, r2 := q1 / 64, q1 % 64;
    var q3, r3 := q2 / 64, q2 % 64;
    if x < 0x80 then [x]
    else if x < 0x800 then [0xC0 + q1, 0x80 + r1]
    else if x < 0x1_0000 then [0xE0 + q2, 0x80 + r2, 0x80 + r1]
    else [0xF0 + q3, 0x80 + r3, 0x80 + r2, 0x80 + r1]
  }

  /** The encoding of one character. */
  function EncodeChar(c: char): (s: seq<byte>)
  {
    EncodeScalar(c as int)
  }

  /** Every character encodes to one well-formed sequence. */
  lemma EncodeCharWellFormed(c: char)
    ensures WellFormedChar(EncodeChar(c))
  {
  }

  /** The six payload bits of a continuation byte. */
  function Low6(b: byte): (r: int)
  {
    b as int - 0x80
  }

  /** The scalar value one well-formed sequence encodes. */
  function ScalarOf(s: seq<byte>): (x: int)
    requires WellFormedChar(s)
    ensures IsScalar(x)
  {
    if |s| == 1 then s[0] as int
    else if |s| == 2 then (s[0] as int - 0xC0) * 64 + Low6(s[1])
    else if |s| == 3 then ((s[0] as int - 0xE0) * 64 + Low6(s[1])) * 64 + Low6(s[2])
    else (((s[0] as int - 0xF0) * 64 + Low6(s[1])) * 64 + Low6(s[2])) * 64 + Low6(s[3])
  }

  lemma DivMod64(y: int, d: int)
    requires 0 <= d < 64
    ensures (y * 64 + d) / 64 == y && (y * 64 + d) % 64 == d
  {
  }

  lemma EncodeScalarOfTwo(s: seq<byte>)
    requires WellFormedChar(s) && |s| == 2
    ensures EncodeScalar(ScalarOf(s)) == s
  {
    DivMod64(s[0] as int - 0xC0, Low6(s[1]));
  }

  lemma EncodeScalarOfThree(s: seq<byte>)
    requires WellFormedChar(s) && |s| == 3
    ensures EncodeScalar(ScalarOf(s)) == s
  {
    var y := (s[0] as int - 0xE0) * 64 + Low6(s[1]);
    DivMod64(y, Low6(s[2]));
    DivMod64(s[0] as int - 0xE0, Low6(s[1]));
  }

  lemma EncodeScalarOfFour(s: seq<byte>)
    requires WellFormedChar(s) && |s| == 4
    ensures EncodeScalar(ScalarOf(s)) == s
  {
    var z := (s[0] as int - 0xF0) * 64 + Low6(s[1]);
    var y := z * 64 + Low6(s[2]);
    DivMod64(y, Low6(s[3]));
    DivMod64(z, Low6(s[2]));
    DivMod64(s[0] as int - 0xF0, Low6(s[1]));
  }

  /** Encoding the scalar a sequence decodes to gives the sequence back. */
  lemma EncodeScalarOf(s: seq<byte>)
    requires WellFormedChar(s)
    ensures EncodeScalar(ScalarOf(s)) == s
  {
    if |s| == 2 {
      EncodeScalarOfTwo(s);
    } else if |s| == 3 {
      EncodeScalarOfThree(s);
    } else if |s| == 4 {
      EncodeScalarOfFour(s);
    }
  }

  /** The character one well-formed sequence encodes. */
  function CharOf(s: seq<byte>): (c: char)
    requires WellFormedChar(s)
    ensures EncodeChar(c) == s
  {
    EncodeScalarOf(s);
    ScalarOf(s) as char
  }

  /** Decoding the encoding of a character gives the character back. */
  lemma CharOfEncodeChar(c: char)
    ensures CharOf(EncodeChar(c)) == c
  {
    var x := c as int;
    var s := EncodeChar(c);
    var q1, r1 := x / 64, x % 64;
    var q2, r2 := q1 / 64, q1 % 64;
    var q3, r3 := q2 / 64, q2 % 64;
    assert x == q1 * 64 + r1;
    assert q1 == q2 * 64 + r2;
    assert q2 == q3 * 64 + r3;
    assert ScalarOf(s) == x;
  }

  /** The encoding of a string: the encodings of its characters, in order. */
  function Encode(t: string): (s: seq<byte>)
  {
    if t == [] then [] else EncodeChar(t[0]) + Encode(t[1..])
  }

  lemma EncodeCons(c: char, t: string)
    ensures Encode([c] + t) == EncodeChar(c) + Encode(t)
  {
    assert ([c] + t)[0] == c;
    assert ([c] + t)[1..] == t;
  }

  /** What decoding a run of bytes yields: the text decoded so far and the
      trailing bytes of a character that is not complete yet. */
  datatype Decoded = Decoded(text: string, rest: seq<byte>)

  /**
   * Decodes as many whole characters of `s` as there are, keeping back a
   * trailing incomplete sequence; None when `s` holds a byte that can
   * belong to no well-formed sequence at its place.
   */
  function DecodePrefix(s: seq<byte>): (r: Option<Decoded>)
    ensures r.Some? ==> r.value.rest == [] || Incomplete(r.value.rest)
    decreases |s|
  {
    if s == [] then Some(Decoded([], []))
    else
      var n := SequenceLength(s[0]);
      if n == 0 then None
      else if |s| < n then
        if WellFormedPrefix(s) then Some(Decoded([], s)) else None
      else if !WellFormedPrefix(s[..n]) then None
      else
        match DecodePrefix(s[n..])
        case None => None
        case Some(d) => Some(Decoded([CharOf(s[..n])] + d.text, d.rest))
  }

  lemma SplitAt(s: seq<byte>, n: nat)
    requires n <= |s|
    ensures s[..n] + s[n..] == s
  {
  }

  /** Decoding is sound: the text decoded, encoded again, followed by the bytes kept back, is the input. */
  lemma {:induction false} DecodePrefixSound(s: seq<byte>)
    ensures DecodePrefix(s).Some? ==> Encode(DecodePrefix(s).value.text) + DecodePrefix(s).value.rest == s
    decreases |s|
  {
    if s != [] {
      var n := SequenceLength(s[0]);
      if n != 0 && n <= |s| && WellFormedPrefix(s[..n]) {
        var e := s[..n];
        assert e[0] == s[0] && WellFormedChar(e);
        DecodePrefixSound(s[n..]);
        if DecodePrefix(s[n..]).Some? {
          EncodeCons(CharOf(e), DecodePrefix(s[n..]).value.text);
          SplitAt(s, n);
        }
      }
    }
  }

  /** A well-formed sequence in front of bytes decodes to its character in front of what they decode to. */
  lemma DecodePrefixCons(e: seq<byte>, r: seq<byte>)
    requires WellFormedChar(e)
    ensures DecodePrefix(e + r) == Prepend([CharOf(e)], DecodePrefix(r))
  {
    var s := e + r;
    assert s[0] == e[0];
    assert s[..|e|] == e;
    assert s[|e|..] == r;
  }

  /** Any text followed by nothing or by an incomplete sequence decodes back to itself. */
  lemma {:induction false} DecodePrefixEncode(t: string, rest: seq<byte>)
    requires rest == [] || Incomplete(rest)
    ensures DecodePrefix(Encode(t) + rest) == Some(Decoded(t, rest))
  {
    if t == [] {
      assert Encode(t) + rest == rest;
    } else {
      var e := EncodeChar(t[0]);
      assert Encode(t) + rest == e + (Encode(t[1..]) + rest);
      EncodeCharWellFormed(t[0]);
      DecodePrefixCons(e, Encode(t[1..]) + rest);
      CharOfEncodeChar(t[0]);
      DecodePrefixEncode(t[1..], rest);
      assert [t[0]] + t[1..] == t;
    }
  }

  /** Decodes a complete payload; None when it is not well-formed UTF-8 or ends inside a character. */
  function Decode(s: seq<byte>): (r: Option<string>)
    ensures r.Some? ==> Encode(r.value) == s
  {
    DecodePrefixSound(s);
    match DecodePrefix(s)
    case Some(d) => if d.rest == [] then Some(d.text) else None
    case None => None
  }

  /** Decode is exactly the inverse of Encode. */
  lemma DecodeInvertsEncode(s: seq<byte>)
    ensures forall t :: Decode(s) == Some(t) <==> Encode(t) == s
  {
    forall t | Encode(t) == s
      ensures Decode(s) == Some(t)
    {
      DecodePrefixEncode(t, []);
      assert Encode(t) + [] == s;
    }
  }

  /** A payload that is the encoding of `t` decodes to `t`. */
  lemma DecodeEncoding(t: string, s: seq<byte>)
    requires Encode(t) == s
    ensures Decode(s) == Some(t)
  {
    DecodeInvertsEncode(s);
  }

  /**
   * One call of the incremental decoder: `pending` is what the previous call
   * kept back, `data` the new bytes; with `final` no bytes may be kept back.
   */
  function Feed(pending: seq<byte>, data: seq<byte>, final: bool): (r: Option<Decoded>)
    ensures r.Some? ==> Encode(r.value.text) + r.value.rest == pending + data
    ensures r.Some? && final ==> r.value.rest == []
    ensures r.Some? && !final ==> r.value.rest == [] || Incomplete(r.value.rest)
  {
    DecodePrefixSound(pending + data);
    match DecodePrefix(pending + data)
    case None => None
    case Some(d) => if final && d.rest != [] then None else Some(d)
  }

  /**
   * The incremental decoder succeeds on every valid split: fed bytes that
   * encode `t` followed by at most the start of one character, and not
   * final when there is such a start, it yields `t` and keeps the start back.
   */
  lemma FeedEncoding(pending: seq<byte>, data: seq<byte>, final: bool, t: string, rest: seq<byte>)
    requires Encode(t) + rest == pending + data
    requires rest == [] || (!final && Incomplete(rest))
    ensures Feed(pending, data, final) == Some(Decoded(t, rest))
  {
    DecodePrefixEncode(t, rest);
  }

  /** Text decoded so far, prepended to the outcome of decoding what follows. */
  function Prepend(t: string, d: Option<Decoded>): (r: Option<Decoded>)
  {
    match d
    case None => None
    case Some(d) => Some(Decoded(t + d.text, d.rest))
  }

  /** DecodePrefixAppend when `a` is no more than the start of one character. */
  lemma DecodePrefixAppendIncomplete(a: seq<byte>, b: seq<byte>)
    requires a != [] && |a| < SequenceLength(a[0])
    ensures DecodePrefix(a).None? ==> DecodePrefix(a + b).None?
    ensures DecodePrefix(a).Some? ==>
      DecodePrefix(a + b) == Prepend(DecodePrefix(a).value.text, DecodePrefix(DecodePrefix(a).value.rest + b))
  {
    var n := SequenceLength(a[0]);
    var s := a + b;
    assert s[0] == a[0];
    if !WellFormedPrefix(a) {
      assert forall i | 0 <= i < |a| :: s[i] == a[i];
      if |s| >= n {
        assert forall i | 0 <= i < |a| :: s[..n][i] == a[i];
      }
    } else {
      match DecodePrefix(s)
      case None =>
      case Some(d) => assert [] + d.text == d.text;
    }
  }

  /**
   * Decoding is incremental: decoding `a + b` is decoding `a`, then decoding
   * what `a` kept back followed by `b`. A malformed `a` stays malformed.
   */
  lemma {:induction false} DecodePrefixAppend(a: seq<byte>, b: seq<byte>)
    ensures DecodePrefix(a).None? ==> DecodePrefix(a + b).None?
    ensures DecodePrefix(a).Some? ==>
      DecodePrefix(a + b) == Prepend(DecodePrefix(a).value.text, DecodePrefix(DecodePrefix(a).value.rest + b))
    decreases |a|
  {
    if a == [] {
      assert a + b == b;
      match DecodePrefix(b)
      case None =>
      case Some(d) => assert [] + d.text == d.text;
    } else {
      var n := SequenceLength(a[0]);
      var s := a + b;
      assert s[0] == a[0];
      if n == 0 {
      } else if |a| < n {
        DecodePrefixAppendIncomplete(a, b);
      } else {
        assert s[..n] == a[..n];
        if WellFormedPrefix(a[..n]) {
          assert s[n..] == a[n..] + b;
          DecodePrefixAppend(a[n..], b);
          var c := CharOf(a[..n]);
          match DecodePrefix(a[n..])
          case None =>
          case Some(d) =>
            match DecodePrefix(d.rest + b)
            case None =>
            case Some(e) =>
              assert [c] + (d.text + e.text) == ([c] + d.text) + e.text;
        }
      }
    }
  }
}
