/**
 * What the assembler hands to the application for the frames of one
 * message: `get` returns the whole message at once, `get_iter` one fragment
 * per frame. A text message is decoded from UTF-8 (section 5.6 of RFC 6455),
 * a binary one is returned as bytes; the caller's `decode` flag overrides
 * which of the two happens.
 */
module Reassembly {
  import opened Wrappers
  import opened Utf8
  import opened Frames

  /** A message or fragment as the application sees it: a string or bytes. */
  datatype Data = Str(text: string) | Bytes(bytes: seq<byte>)

  /** Whether a message is delivered as text: `decode` when given, else whether it began with a text frame. */
  function AsText(decode: Option<bool>, first: Frame): (b: bool)
    ensures decode.Some? ==> b == decode.value
    ensures decode.None? ==> (b <==> first.opcode == OpText)
  {
    decode.GetOr(first.opcode == OpText)
  }

  /**
   * The value `get` returns for the frames `fs` of one message: their
   * payloads concatenated, decoded when the message is delivered as text.
   * None when that text is not valid UTF-8.
   */
  function Assemble(decode: Option<bool>, fs: seq<Frame>): (r: Option<Data>)
    requires fs != []
    ensures !AsText(decode, fs[0]) ==> r == Some(Bytes(Payload(fs)))
    ensures AsText(decode, fs[0]) && r.Some? ==> r.value.Str? && Encode(r.value.text) == Payload(fs)
    ensures AsText(decode, fs[0]) && r.None? ==> forall t :: Encode(t) != Payload(fs)
  {
    var bytes := Payload(fs);
    if AsText(decode, fs[0]) then
      DecodeInvertsEncode(bytes);
      match Decode(bytes)
      case Some(t) => Some(Str(t))
      case None => None
    else
      Some(Bytes(bytes))
  }

  /** The strings of a run of fragments, concatenated. */
  function JoinText(fragments: seq<Data>): (t: string)
  {
    if fragments == [] then []
    else
      var last := fragments[|fragments| - 1];
      JoinText(fragments[..|fragments| - 1]) + (if last.Str? then last.text else [])
  }

  /** The bytes of a run of fragments, concatenated. */
  function JoinBytes(fragments: seq<Data>): (s: seq<byte>)
  {
    if fragments == [] then []
    else
      var last := fragments[|fragments| - 1];
      JoinBytes(fragments[..|fragments| - 1]) + (if last.Bytes? then last.bytes else [])
  }

  /** What `get_iter` has produced after some frames: the fragments, and the bytes its decoder holds back. */
  datatype Partial = Partial(fragments: seq<Data>, pending: seq<byte>)

  /**
   * The fragments `get_iter` yields for the frames `fs`, the first frames of
   * one message: one per frame, each frame's payload as it stands or, for a
   * text message, what the incremental decoder makes of it; the final frame
   * flushes the decoder. None when the decoder meets invalid UTF-8.
   */
  function FragmentsOf(decode: Option<bool>, fs: seq<Frame>): (r: Option<Partial>)
    ensures r.Some? ==> |r.value.fragments| == |fs|
    ensures fs != [] && !AsText(decode, fs[0]) ==> r.Some?
    ensures r.Some? && fs != [] && !AsText(decode, fs[0]) ==>
      forall i | 0 <= i < |fs| :: r.value.fragments[i] == Bytes(fs[i].data)
    ensures r.Some? && fs != [] && AsText(decode, fs[0]) ==>
      forall i | 0 <= i < |fs| :: r.value.fragments[i].Str?
    decreases |fs|
  {
    if fs == [] then Some(Partial([], []))
    else
      var last := fs[|fs| - 1];
      var earlier := fs[..|fs| - 1];
      assert earlier != [] ==> earlier[0] == fs[0];
      match FragmentsOf(decode, earlier)
      case None => None
      case Some(p) =>
        if AsText(decode, fs[0]) then
          match Feed(p.pending, last.data, last.fin)
          case None => None
          case Some(d) => Some(Partial(p.fragments + [Str(d.text)], d.rest))
        else
          Some(Partial(p.fragments + [Bytes(last.data)], p.pending))
  }

  /** The fragments after one more frame: the earlier frames' fragments and the new frame's. */
  lemma FragmentsOfSnoc(decode: Option<bool>, fs: seq<Frame>, f: Frame)
    ensures FragmentsOf(decode, fs + [f]) ==
      match FragmentsOf(decode, fs)
      case None => None
      case Some(p) =>
        if AsText(decode, (fs + [f])[0]) then
          match Feed(p.pending, f.data, f.fin)
          case None => None
          case Some(d) => Some(Partial(p.fragments + [Str(d.text)], d.rest))
        else Some(Partial(p.fragments + [Bytes(f.data)], p.pending))
  {
    assert (fs + [f])[..|fs|] == fs;
  }

  /** The bytes of one byte fragment per frame are the frames' payloads. */
  lemma {:induction false} JoinBytesPayload(fragments: seq<Data>, fs: seq<Frame>)
    requires |fragments| == |fs|
    requires forall i | 0 <= i < |fs| :: fragments[i] == Bytes(fs[i].data)
    ensures JoinBytes(fragments) == Payload(fs)
    decreases |fs|
  {
    if fs != [] {
      JoinBytesPayload(fragments[..|fs| - 1], fs[..|fs| - 1]);
    }
  }

  /**
   * One frame on: if the fragments of all but the last frame of `fs` are
   * what decoding their payload gives, the fragments of `fs` are what
   * decoding its payload gives, and they exist exactly when that payload
   * decodes, with nothing held back when its last frame is final.
   */
  lemma TextFragmentsStep(decode: Option<bool>, fs: seq<Frame>)
    requires fs != [] && AsText(decode, fs[0])
    requires FragmentsOf(decode, fs[..|fs| - 1]).Some? <==> DecodePrefix(Payload(fs[..|fs| - 1])).Some?
    requires FragmentsOf(decode, fs[..|fs| - 1]).Some? ==>
      DecodePrefix(Payload(fs[..|fs| - 1])) ==
        Some(Decoded(JoinText(FragmentsOf(decode, fs[..|fs| - 1]).value.fragments), FragmentsOf(decode, fs[..|fs| - 1]).value.pending))
    ensures FragmentsOf(decode, fs).Some? <==>
      DecodePrefix(Payload(fs)).Some? && (fs[|fs| - 1].fin ==> DecodePrefix(Payload(fs)).value.rest == [])
    ensures FragmentsOf(decode, fs).Some? ==>
      DecodePrefix(Payload(fs)) == Some(Decoded(JoinText(FragmentsOf(decode, fs).value.fragments), FragmentsOf(decode, fs).value.pending))
  {
    var earlier, last := fs[..|fs| - 1], fs[|fs| - 1];
    DecodePrefixAppend(Payload(earlier), last.data);
    match FragmentsOf(decode, earlier)
    case None =>
      assert DecodePrefix(Payload(fs)).None?;
    case Some(p) =>
      var t := JoinText(p.fragments);
      assert DecodePrefix(Payload(fs)) == Prepend(t, DecodePrefix(p.pending + last.data));
      match Feed(p.pending, last.data, last.fin)
      case None =>
      case Some(d) =>
        assert DecodePrefix(p.pending + last.data) == Some(d);
        var fragments := p.fragments + [Str(d.text)];
        assert fragments[..|p.fragments|] == p.fragments;
        assert JoinText(fragments) == t + d.text;
        assert FragmentsOf(decode, fs) == Some(Partial(fragments, d.rest));
  }

  /**
   * While a text message is incomplete, the fragments yielded so far are
   * what decoding the payload so far gives, and the decoder holds back
   * exactly the bytes of a character not yet complete; once the final
   * frame is in, they are the decoded message. The decoder fails exactly
   * when decoding the payload so far fails.
   */
  lemma {:induction false} TextFragments(decode: Option<bool>, fs: seq<Frame>)
    requires fs != [] ==> AsText(decode, fs[0])
    requires forall i | 0 <= i < |fs| - 1 :: !fs[i].fin
    ensures fs == [] || !fs[|fs| - 1].fin ==>
      (FragmentsOf(decode, fs).Some? <==> DecodePrefix(Payload(fs)).Some?)
    ensures fs == [] || !fs[|fs| - 1].fin ==>
      FragmentsOf(decode, fs).Some? ==>
        DecodePrefix(Payload(fs)) == Some(Decoded(JoinText(FragmentsOf(decode, fs).value.fragments), FragmentsOf(decode, fs).value.pending))
    ensures fs != [] && fs[|fs| - 1].fin ==>
      (FragmentsOf(decode, fs).Some? <==> Decode(Payload(fs)).Some?) &&
      (FragmentsOf(decode, fs).Some? ==>
        FragmentsOf(decode, fs).value.pending == [] &&
        Decode(Payload(fs)) == Some(JoinText(FragmentsOf(decode, fs).value.fragments)))
    decreases |fs|
  {
    if fs != [] {
      var earlier := fs[..|fs| - 1];
      assert earlier != [] ==> earlier[0] == fs[0] && !earlier[|earlier| - 1].fin;
      TextFragments(decode, earlier);
      TextFragmentsStep(decode, fs);
      if fs[|fs| - 1].fin && FragmentsOf(decode, fs).Some? {
        assert FragmentsOf(decode, fs).value.pending == [];
      }
    }
  }

  /** The fragments of a message, put back together, as one value of the message's kind. */
  function Join(asText: bool, fragments: seq<Data>): (d: Data)
  {
    if asText then Str(JoinText(fragments)) else Bytes(JoinBytes(fragments))
  }

  /**
   * `get_iter` and `get` agree: on the frames of one message, `get_iter`
   * yields one fragment per frame, byte fragments are the frames' payloads,
   * the fragments joined are what `get` returns, and one fails to decode
   * exactly when the other does.
   */
  lemma IterMatchesGet(decode: Option<bool>, fs: seq<Frame>)
    requires IsMessage(fs)
    ensures FragmentsOf(decode, fs).Some? <==> Assemble(decode, fs).Some?
    ensures FragmentsOf(decode, fs).Some? ==>
      |FragmentsOf(decode, fs).value.fragments| == |fs| &&
      Join(AsText(decode, fs[0]), FragmentsOf(decode, fs).value.fragments) == Assemble(decode, fs).value
  {
    if AsText(decode, fs[0]) {
      TextFragments(decode, fs);
    } else if FragmentsOf(decode, fs).Some? {
      JoinBytesPayload(FragmentsOf(decode, fs).value.fragments, fs);
    }
  }
}
