/**
 * Data frames as the assembler receives them from the frame parser, and the
 * message boundaries they carry: a message is a text or binary frame followed
 * by zero or more continuation frames, the last of them marked final
 * (fragmentation, section 5.4 of RFC 6455). Control frames never reach the
 * assembler.
 */
module Frames {
  import opened Wrappers
  import opened Utf8

  datatype Opcode = OpText | OpBinary | OpCont

  datatype Frame = Frame(opcode: Opcode, data: seq<byte>, fin: bool)

  /** No frame of `fs` ends a message. */
  predicate NoFin(fs: seq<Frame>)
  {
    forall i | 0 <= i < |fs| :: !fs[i].fin
  }

  /** `fs` is one whole message: it ends with a final frame and has no other. */
  predicate IsMessage(fs: seq<Frame>)
  {
    fs != [] && fs[|fs| - 1].fin && NoFin(fs[..|fs| - 1])
  }

  /** One more frame ends the message exactly when it is final and none before it was. */
  lemma Snoc(fs: seq<Frame>, f: Frame)
    ensures NoFin(fs + [f]) <==> NoFin(fs) && !f.fin
    ensures IsMessage(fs + [f]) <==> NoFin(fs) && f.fin
  {
    var g := fs + [f];
    assert g[..|fs|] == fs && g[|fs|] == f;
    assert forall i | 0 <= i < |fs| :: g[i] == fs[i];
  }

  /** The payloads of `fs`, concatenated in order. */
  function Payload(fs: seq<Frame>): (p: seq<byte>)
    ensures |fs| == 1 ==> p == fs[0].data
  {
    if fs == [] then [] else Payload(fs[..|fs| - 1]) + fs[|fs| - 1].data
  }

  lemma {:induction false} PayloadAppend(a: seq<Frame>, b: seq<Frame>)
    ensures Payload(a + b) == Payload(a) + Payload(b)
    decreases |b|
  {
    if b == [] {
      assert a + b == a;
    } else {
      var b', f := b[..|b| - 1], b[|b| - 1];
      assert a + b == (a + b') + [f];
      PayloadAppend(a, b');
      assert Payload((a + b') + [f]) == Payload(a + b') + f.data by {
        assert ((a + b') + [f])[..|a + b'|] == a + b';
      }
    }
  }

  /** The first `n` frames of `q` are one whole message. */
  predicate MessageAt(q: seq<Frame>, n: nat)
  {
    0 < n <= |q| && q[n - 1].fin && forall i | 0 <= i < n - 1 :: !q[i].fin
  }

  /**
   * The number of frames of the first message queued in `q`: up to and
   * including its first final frame. None when no final frame is queued yet.
   */
  function MessageLength(q: seq<Frame>): (r: Option<nat>)
    ensures r.Some? <==> !NoFin(q)
    ensures r.Some? ==> MessageAt(q, r.value)
    decreases |q|
  {
    if q == [] then None
    else if q[0].fin then Some(1)
    else match MessageLength(q[1..])
      case None => None
      case Some(n) => Some(n + 1)
  }

  /** A queue holds only one first message: the whole message at its front is the one found. */
  lemma MessageLengthOf(q: seq<Frame>, n: nat)
    requires MessageAt(q, n)
    ensures MessageLength(q) == Some(n)
  {
  }

  /**
   * Frames taken off the front of a queue up to and including the first
   * final one, or all of them when there is none: they are the first
   * message exactly when the last of them is final.
   */
  lemma FirstMessage(q: seq<Frame>, taken: seq<Frame>, rest: seq<Frame>)
    requires q == taken + rest
    requires forall i | 0 <= i < |taken| - 1 :: !taken[i].fin
    requires rest == [] || (taken != [] && taken[|taken| - 1].fin)
    ensures MessageLength(q).Some? <==> taken != [] && taken[|taken| - 1].fin
    ensures MessageLength(q).Some? ==>
      MessageLength(q) == Some(|taken|) && q[..|taken|] == taken && q[|taken|..] == rest
    ensures MessageLength(q).None? ==> rest == []
  {
    if taken != [] && taken[|taken| - 1].fin {
      assert q[..|taken|] == taken;
      MessageLengthOf(q, |taken|);
    } else {
      assert q == taken;
      assert NoFin(q);
    }
  }
}
