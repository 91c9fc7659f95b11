/**
 * The assembler's test cases, replayed on the model.
 *
 * Each test shape is a method over arbitrary frames: it sets up an assembler
 * with high-water mark 2 and low-water mark 1, makes the same calls in the
 * same order, and promises what the calls give in terms of `Assemble` and
 * `FragmentsOf`. Lemmas then compute those for the frames the tests use
 * ("café" and "tea", whole or in three frames), and one method per test
 * case combines the two into the exact outcomes the test case asserts.
 *
 * Where a test case runs a consumer in another thread, the consumer's call
 * is stepped once before the main thread acts, when it blocks (`Waiting`),
 * and stepped again afterwards, when it is woken.
 */
module Scenarios {
  import opened Wrappers
  import opened Utf8
  import opened Frames
  import opened Reassembly
  import opened FlowControl
  import opened Messages

  /** "café" and "tea" in UTF-8. */
  const Cafe: seq<byte> := [0x63, 0x61, 0x66, 0xC3, 0xA9]
  const Tea: seq<byte> := [0x74, 0x65, 0x61]

  /** "café" in one text frame, and in three frames that split the "é". */
  const CafeFrame := Frame(OpText, Cafe, true)
  const Ca := Frame(OpText, [0x63, 0x61], false)
  const FC3 := Frame(OpCont, [0x66, 0xC3], false)
  const A9 := Frame(OpCont, [0xA9], true)

  /** "tea" in one binary frame, and in three frames of a letter each. */
  const TeaFrame := Frame(OpBinary, Tea, true)
  const T := Frame(OpBinary, [0x74], false)
  const E := Frame(OpCont, [0x65], false)
  const A := Frame(OpCont, [0x61], true)

  /** The empty text message the concurrency tests use to unblock a consumer. */
  const EmptyFrame := Frame(OpText, [], true)

  // What get and get_iter make of the tests' frames

  /** The payload of a one-frame message is the frame's. */
  lemma OneFrame(f: Frame)
    ensures Payload([f]) == f.data
  {
    assert [f][..0] == [];
  }

  /** The payload of a three-frame message is the three payloads, in order. */
  lemma ThreeFrames(f1: Frame, f2: Frame, f3: Frame)
    ensures Payload([f1, f2, f3]) == f1.data + f2.data + f3.data
  {
    OneFrame(f1);
    assert [f1, f2][..1] == [f1];
    assert [f1, f2, f3][..2] == [f1, f2];
  }

  lemma CafeMessage()
    ensures Assemble(None, [CafeFrame]) == Some(Str("caf\U{E9}"))
  {
    OneFrame(CafeFrame);
    DecodeEncoding("caf\U{E9}", Cafe);
  }

  lemma FragmentedCafeMessage()
    ensures Assemble(None, [Ca, FC3, A9]) == Some(Str("caf\U{E9}"))
  {
    ThreeFrames(Ca, FC3, A9);
    assert Ca.data + FC3.data + A9.data == Cafe;
    DecodeEncoding("caf\U{E9}", Cafe);
  }

  lemma EncodedCafeMessage()
    ensures Assemble(Some(false), [CafeFrame]) == Some(Bytes(Cafe))
  {
    OneFrame(CafeFrame);
  }

  lemma TeaMessage()
    ensures Assemble(None, [TeaFrame]) == Some(Bytes(Tea))
  {
    OneFrame(TeaFrame);
  }

  lemma FragmentedTeaMessage()
    ensures Assemble(None, [T, E, A]) == Some(Bytes(Tea))
  {
    ThreeFrames(T, E, A);
    assert T.data + E.data + A.data == Tea;
  }

  lemma DecodedTeaMessage()
    ensures Assemble(Some(true), [TeaFrame]) == Some(Str("tea"))
  {
    OneFrame(TeaFrame);
    DecodeEncoding("tea", Tea);
  }

  lemma EmptyMessage()
    ensures Assemble(None, [EmptyFrame]) == Some(Str(""))
  {
    OneFrame(EmptyFrame);
    DecodeEncoding("", []);
  }

  /** The fragments of a one-frame message, from the fragments of nothing. */
  lemma OneFragment(decode: Option<bool>, f: Frame)
    ensures FragmentsOf(decode, [f]) ==
      if AsText(decode, f) then
        match Feed([], f.data, f.fin)
        case None => None
        case Some(d) => Some(Partial([Str(d.text)], d.rest))
      else Some(Partial([Bytes(f.data)], []))
  {
    assert [f][..0] == [];
    assert FragmentsOf(decode, []) == Some(Partial([], []));
    var none: seq<Data> := [];
    if AsText(decode, f) {
      match Feed([], f.data, f.fin)
      case None =>
      case Some(d) => assert none + [Str(d.text)] == [Str(d.text)];
    } else {
      assert none + [Bytes(f.data)] == [Bytes(f.data)];
    }
  }

  lemma CafeFragment()
    ensures FragmentsOf(None, [CafeFrame]) == Some(Partial([Str("caf\U{E9}")], []))
  {
    FeedEncoding([], Cafe, true, "caf\U{E9}", []);
    OneFragment(None, CafeFrame);
  }

  lemma EmptyFragment()
    ensures FragmentsOf(None, [EmptyFrame]) == Some(Partial([Str("")], []))
  {
    FeedEncoding([], [], true, "", []);
    OneFragment(None, EmptyFrame);
  }

  lemma TeaFragment()
    ensures FragmentsOf(None, [TeaFrame]) == Some(Partial([Bytes(Tea)], []))
  {
    OneFragment(None, TeaFrame);
  }

  /** "ca", then "f" holding back the first byte of "é", then "é". */
  lemma CafeFragments()
    ensures FragmentsOf(None, [Ca, FC3]) == Some(Partial([Str("ca"), Str("f")], [0xC3]))
    ensures FragmentsOf(None, [Ca, FC3, A9]) == Some(Partial([Str("ca"), Str("f"), Str("\U{E9}")], []))
  {
    FeedEncoding([], Ca.data, false, "ca", []);
    FeedEncoding([], FC3.data, false, "f", [0xC3]);
    FeedEncoding([0xC3], A9.data, true, "\U{E9}", []);
    OneFragment(None, Ca);
    FragmentsOfSnoc(None, [Ca], FC3);
    assert [Ca] + [FC3] == [Ca, FC3];
    assert [Str("ca")] + [Str("f")] == [Str("ca"), Str("f")];
    FragmentsOfSnoc(None, [Ca, FC3], A9);
    assert [Ca, FC3] + [A9] == [Ca, FC3, A9];
    assert [Str("ca"), Str("f")] + [Str("\U{E9}")] == [Str("ca"), Str("f"), Str("\U{E9}")];
  }

  lemma EncodedCafeFragments()
    ensures FragmentsOf(Some(false), [Ca, FC3, A9]) == Some(Partial([Bytes([0x63, 0x61]), Bytes([0x66, 0xC3]), Bytes([0xA9])], []))
  {
    OneFragment(Some(false), Ca);
    FragmentsOfSnoc(Some(false), [Ca], FC3);
    assert [Ca] + [FC3] == [Ca, FC3];
    assert [Bytes([0x63, 0x61])] + [Bytes(FC3.data)] == [Bytes([0x63, 0x61]), Bytes([0x66, 0xC3])];
    FragmentsOfSnoc(Some(false), [Ca, FC3], A9);
    assert [Ca, FC3] + [A9] == [Ca, FC3, A9];
    assert [Bytes([0x63, 0x61]), Bytes([0x66, 0xC3])] + [Bytes(A9.data)] == [Bytes([0x63, 0x61]), Bytes([0x66, 0xC3]), Bytes([0xA9])];
  }

  lemma TeaFragments()
    ensures FragmentsOf(None, [T, E, A]) == Some(Partial([Bytes([0x74]), Bytes([0x65]), Bytes([0x61])], []))
  {
    OneFragment(None, T);
    FragmentsOfSnoc(None, [T], E);
    assert [T] + [E] == [T, E];
    assert [Bytes([0x74])] + [Bytes(E.data)] == [Bytes([0x74]), Bytes([0x65])];
    FragmentsOfSnoc(None, [T, E], A);
    assert [T, E] + [A] == [T, E, A];
    assert [Bytes([0x74]), Bytes([0x65])] + [Bytes(A.data)] == [Bytes([0x74]), Bytes([0x65]), Bytes([0x61])];
  }

  lemma DecodedTeaFragments()
    ensures FragmentsOf(Some(true), [T, E, A]) == Some(Partial([Str("t"), Str("e"), Str("a")], []))
  {
    FeedEncoding([], T.data, false, "t", []);
    FeedEncoding([], E.data, false, "e", []);
    FeedEncoding([], A.data, true, "a", []);
    OneFragment(Some(true), T);
    FragmentsOfSnoc(Some(true), [T], E);
    assert [T] + [E] == [T, E];
    assert [Str("t")] + [Str("e")] == [Str("t"), Str("e")];
    FragmentsOfSnoc(Some(true), [T, E], A);
    assert [T, E] + [A] == [T, E, A];
    assert [Str("t"), Str("e")] + [Str("a")] == [Str("t"), Str("e"), Str("a")];
  }

  /**
   * When the three frames of a message decode, so do the first one and the
   * first two; each of the three is the one before with one frame added.
   */
  lemma FragmentsOfPrefixes(decode: Option<bool>, f1: Frame, f2: Frame, f3: Frame)
    requires FragmentsOf(decode, [f1, f2, f3]).Some?
    ensures FragmentsOf(decode, [f1, f2]).Some? && FragmentsOf(decode, [f1]).Some?
    ensures [] + [f1] == [f1] && [f1] + [f2] == [f1, f2] && [f1, f2] + [f3] == [f1, f2, f3]
  {
    assert [f1, f2, f3][..2] == [f1, f2];
    assert [f1, f2][..1] == [f1];
  }

  /**
   * Puts the frames `fs` one by one on an open assembler: they are queued in
   * order, and the producer's flow state is the one `AfterPuts` gives.
   */
  method PutEach(a: Assembler, fs: seq<Frame>)
    requires a.Valid() && !a.closed
    modifies a`frames, a`flow
    ensures a.Valid()
    ensures a.frames == old(a.frames) + fs
    ensures a.flow == AfterPuts(old(a.flow), |old(a.frames)|, |fs|, a.high)
  {
    for i := 0 to |fs|
      invariant a.Valid()
      invariant a.frames == old(a.frames) + fs[..i]
      invariant a.flow == AfterPuts(old(a.flow), |old(a.frames)|, i, a.high)
    {
      var _ := a.Put(fs[i]);
      assert fs[..i + 1] == fs[..i] + [fs[i]];
    }
    assert fs[..|fs|] == fs;
  }

  /** An assembler with marks 2 and 1 that has received three frames, the third of which paused reading. */
  method ReceiveThree(f1: Frame, f2: Frame, f3: Frame) returns (a: Assembler)
    ensures fresh(a) && a.Valid() && a.high == 2 && a.low == 1
    ensures a.frames == [f1, f2, f3] && a.flow == AfterPuts(Initial, 0, 3, 2)
    ensures a.flow == Flow(true, 1, 0)
    ensures !a.closed && !a.getInProgress
  {
    a := new Assembler(2, 1);
    PutEach(a, [f1, f2, f3]);
    PauseOnce(Initial, 0, 3, 2);
  }

  /**
   * One step of get_iter that takes the frame `f` at the head of the queue
   * and yields its fragment: the only outcome of `Next` when the iterator
   * may proceed, a frame is queued and its fragment decodes.
   */
  method YieldFragment(iter: FragmentIterator, f: Frame) returns (fragment: Data)
    requires iter.Valid() && iter.assembler.Valid() && !iter.assembler.closed
    requires iter.state == Running || (iter.state == Fresh && !iter.assembler.getInProgress)
    requires iter.assembler.frames != [] && iter.assembler.frames[0] == f
    requires FragmentsOf(iter.decode, iter.consumed + [f]).Some?
    modifies iter, iter.assembler
    ensures iter.Valid() && iter.assembler.Valid() && !iter.assembler.closed && iter.assembler.getInProgress
    ensures iter.consumed == old(iter.consumed) + [f]
    ensures iter.fragments == old(iter.fragments) + [fragment]
    ensures FragmentsOf(iter.decode, iter.consumed) == Some(Partial(iter.fragments, iter.pending))
    ensures iter.state == if f.fin then Draining else Running
    ensures iter.assembler.frames == old(iter.assembler.frames[1..])
    ensures iter.assembler.flow == MaybeResume(old(iter.assembler.flow), |iter.assembler.frames|, iter.assembler.low)
  {
    var r := iter.Next();
    fragment := r.value;
  }

  /**
   * The producer puts `f` while get_iter waits on an empty queue; the
   * iterator then takes it and yields its fragment.
   */
  method PutAndYield(iter: FragmentIterator, f: Frame) returns (fragment: Data)
    requires iter.Valid() && iter.assembler.Valid() && !iter.assembler.closed
    requires iter.state == Running || (iter.state == Fresh && !iter.assembler.getInProgress)
    requires iter.assembler.frames == []
    requires FragmentsOf(iter.decode, iter.consumed + [f]).Some?
    modifies iter, iter.assembler
    ensures iter.Valid() && iter.assembler.Valid() && !iter.assembler.closed && iter.assembler.getInProgress
    ensures iter.consumed == old(iter.consumed) + [f]
    ensures iter.fragments == old(iter.fragments) + [fragment]
    ensures FragmentsOf(iter.decode, iter.consumed) == Some(Partial(iter.fragments, iter.pending))
    ensures iter.state == if f.fin then Draining else Running
    ensures iter.assembler.frames == []
  {
    var _ := iter.assembler.Put(f);
    fragment := YieldFragment(iter, f);
  }

  // get, for any frames

  /** get returns the message already queued in one frame. */
  method GetMessageAlreadyReceived(f: Frame, decode: Option<bool>) returns (message: Outcome<Data>)
    requires f.fin
    ensures message == Deliver(Assemble(decode, [f]))
  {
    var a := new Assembler(2, 1);
    var _ := a.Put(f);
    assert a.frames == [f];
    MessageLengthOf(a.frames, 1);
    assert [] + a.frames[..1] == [f];
    var get := new GetCall(a, decode);
    message := get.Step(false);
  }

  /** get blocks on an empty queue, and returns the one-frame message put meanwhile. */
  method GetMessageNotReceivedYet(f: Frame) returns (blocked: Outcome<Data>, message: Outcome<Data>)
    requires f.fin
    ensures blocked == Waiting
    ensures message == Deliver(Assemble(None, [f]))
  {
    var a := new Assembler(2, 1);
    var get := new GetCall(a, None);
    blocked := get.Step(false);
    var _ := a.Put(f);
    message := get.Step(false);
  }

  /** get reassembles the message already queued in three frames. */
  method GetFragmentedMessageAlreadyReceived(f1: Frame, f2: Frame, f3: Frame) returns (message: Outcome<Data>)
    requires !f1.fin && !f2.fin && f3.fin
    ensures message == Deliver(Assemble(None, [f1, f2, f3]))
  {
    var a := ReceiveThree(f1, f2, f3);
    MessageLengthOf(a.frames, 3);
    assert [] + a.frames[..3] == [f1, f2, f3];
    var get := new GetCall(a, None);
    message := get.Step(false);
  }

  /** get blocks until each of three frames is put, then returns their message. */
  method GetFragmentedMessageNotReceivedYet(f1: Frame, f2: Frame, f3: Frame) returns (blocked: seq<Outcome<Data>>, message: Outcome<Data>)
    requires !f1.fin && !f2.fin && f3.fin
    ensures blocked == [Waiting, Waiting, Waiting]
    ensures message == Deliver(Assemble(None, [f1, f2, f3]))
  {
    var a := new Assembler(2, 1);
    var get := new GetCall(a, None);
    var r1 := get.Step(false);
    var _ := a.Put(f1);
    assert a.frames == [f1];
    var r2 := get.Step(false);
    assert get.taken == [f1];
    var _ := a.Put(f2);
    assert a.frames == [f2];
    var r3 := get.Step(false);
    assert get.taken == [f1, f2];
    var _ := a.Put(f3);
    assert a.frames == [f3];
    assert get.taken + a.frames[..1] == [f1, f2, f3];
    message := get.Step(false);
    blocked := [r1, r2, r3];
  }

  /** get takes the first queued frame, blocks until the other two are put, then returns their message. */
  method GetFragmentedMessageBeingReceived(f1: Frame, f2: Frame, f3: Frame) returns (blocked: seq<Outcome<Data>>, message: Outcome<Data>)
    requires !f1.fin && !f2.fin && f3.fin
    ensures blocked == [Waiting, Waiting]
    ensures message == Deliver(Assemble(None, [f1, f2, f3]))
  {
    var a := new Assembler(2, 1);
    var _ := a.Put(f1);
    assert a.frames == [f1];
    var get := new GetCall(a, None);
    var r1 := get.Step(false);
    assert get.taken == [f1];
    var _ := a.Put(f2);
    assert a.frames == [f2];
    var r2 := get.Step(false);
    assert get.taken == [f1, f2];
    var _ := a.Put(f3);
    assert a.frames == [f3];
    assert get.taken + a.frames[..1] == [f1, f2, f3];
    message := get.Step(false);
    blocked := [r1, r2];
  }

  /** With three messages queued, each get leaves resume's call count at 0, 1, 1. */
  method GetResumesReading(m1: Frame, m2: Frame, m3: Frame) returns (resumes: seq<nat>)
    requires m1.fin && m2.fin && m3.fin
    ensures resumes == [0, 1, 1]
  {
    var a := ReceiveThree(m1, m2, m3);
    MessageLengthOf(a.frames, 1);
    var get := new GetCall(a, None);
    var _ := get.Step(false);
    assert a.frames == [m2, m3] && a.flow == Flow(true, 1, 0);
    resumes := [a.flow.resumes];
    MessageLengthOf(a.frames, 1);
    get := new GetCall(a, None);
    var _ := get.Step(false);
    assert a.frames == [m3] && a.flow == Flow(false, 1, 1);
    resumes := resumes + [a.flow.resumes];
    MessageLengthOf(a.frames, 1);
    get := new GetCall(a, None);
    var _ := get.Step(false);
    resumes := resumes + [a.flow.resumes];
  }

  /** A get that times out on an empty queue leaves the next get to return the next message. */
  method GetTimeoutBeforeFirstFrame(f: Frame) returns (timedOut: Outcome<Data>, message: Outcome<Data>)
    requires f.fin
    ensures timedOut == Raised(TimeoutError)
    ensures message == Deliver(Assemble(None, [f]))
  {
    var a := new Assembler(2, 1);
    var first := new GetCall(a, None);
    timedOut := first.Step(true);
    var _ := a.Put(f);
    var second := new GetCall(a, None);
    message := second.Step(false);
  }

  /** A get that times out after taking a frame puts it back: the next get returns the whole message. */
  method GetTimeoutAfterFirstFrame(f1: Frame, f2: Frame, f3: Frame) returns (timedOut: Outcome<Data>, message: Outcome<Data>)
    requires !f1.fin && !f2.fin && f3.fin
    ensures timedOut == Raised(TimeoutError)
    ensures message == Deliver(Assemble(None, [f1, f2, f3]))
  {
    var a := new Assembler(2, 1);
    var _ := a.Put(f1);
    assert a.frames == [f1];
    var first := new GetCall(a, None);
    timedOut := first.Step(true);
    assert a.frames == [f1];
    var _ := a.Put(f2);
    var _ := a.Put(f3);
    assert a.frames == [f1, f2, f3];
    MessageLengthOf(a.frames, 3);
    assert [] + a.frames[..3] == [f1, f2, f3];
    var second := new GetCall(a, None);
    message := second.Step(false);
  }

  // get_iter, for any frames

  /** get_iter yields the fragment of the message already queued in one frame, then stops. */
  method GetIterMessageAlreadyReceived(f: Frame) returns (fragments: seq<Data>, end: Outcome<Data>)
    requires f.fin && FragmentsOf(None, [f]).Some?
    ensures fragments == FragmentsOf(None, [f]).value.fragments
    ensures end == Raised(StopIteration)
  {
    var a := new Assembler(2, 1);
    var _ := a.Put(f);
    var iter := new FragmentIterator(a, None);
    var r := iter.Next();
    end := iter.Next();
    fragments := [r.value];
  }

  /** get_iter blocks on an empty queue, then yields the fragment of the one-frame message put meanwhile, then stops. */
  method GetIterMessageNotReceivedYet(f: Frame) returns (blocked: Outcome<Data>, fragments: seq<Data>, end: Outcome<Data>)
    requires f.fin && FragmentsOf(None, [f]).Some?
    ensures blocked == Waiting
    ensures fragments == FragmentsOf(None, [f]).value.fragments
    ensures end == Raised(StopIteration)
  {
    var a := new Assembler(2, 1);
    var iter := new FragmentIterator(a, None);
    blocked := iter.Next();
    var _ := a.Put(f);
    var r := iter.Next();
    end := iter.Next();
    fragments := [r.value];
  }

  /** get_iter yields one fragment per frame of the message already queued in three frames, then stops. */
  method GetIterFragmentedMessageAlreadyReceived(f1: Frame, f2: Frame, f3: Frame, decode: Option<bool>) returns (fragments: seq<Data>, end: Outcome<Data>)
    requires !f1.fin && !f2.fin && f3.fin && FragmentsOf(decode, [f1, f2, f3]).Some?
    ensures fragments == FragmentsOf(decode, [f1, f2, f3]).value.fragments
    ensures end == Raised(StopIteration)
  {
    FragmentsOfPrefixes(decode, f1, f2, f3);
    var a := ReceiveThree(f1, f2, f3);
    var iter := new FragmentIterator(a, decode);
    var r1 := YieldFragment(iter, f1);
    assert a.frames == [f2, f3];
    var r2 := YieldFragment(iter, f2);
    assert a.frames == [f3];
    var r3 := YieldFragment(iter, f3);
    end := iter.Next();
    fragments := [r1, r2, r3];
  }

  /** get_iter yields each fragment as soon as its frame is put. */
  method GetIterFragmentedMessageNotReceivedYet(f1: Frame, f2: Frame, f3: Frame) returns (fragments: seq<Data>)
    requires !f1.fin && !f2.fin && f3.fin && FragmentsOf(None, [f1, f2, f3]).Some?
    ensures fragments == FragmentsOf(None, [f1, f2, f3]).value.fragments
  {
    FragmentsOfPrefixes(None, f1, f2, f3);
    var a := new Assembler(2, 1);
    var iter := new FragmentIterator(a, None);
    var r1 := PutAndYield(iter, f1);
    var r2 := PutAndYield(iter, f2);
    var r3 := PutAndYield(iter, f3);
    fragments := [r1, r2, r3];
  }

  /** get_iter yields the fragment of the frame already queued, then each next one as soon as it is put. */
  method GetIterFragmentedMessageBeingReceived(f1: Frame, f2: Frame, f3: Frame) returns (fragments: seq<Data>)
    requires !f1.fin && !f2.fin && f3.fin && FragmentsOf(None, [f1, f2, f3]).Some?
    ensures fragments == FragmentsOf(None, [f1, f2, f3]).value.fragments
  {
    FragmentsOfPrefixes(None, f1, f2, f3);
    var a := new Assembler(2, 1);
    var _ := a.Put(f1);
    var iter := new FragmentIterator(a, None);
    assert a.frames == [f1];
    var r1 := YieldFragment(iter, f1);
    var r2 := PutAndYield(iter, f2);
    var r3 := PutAndYield(iter, f3);
    fragments := [r1, r2, r3];
  }

  /** With a three-frame message queued, each step of get_iter leaves resume's call count at 0, 1, 1. */
  method GetIterResumesReading(f1: Frame, f2: Frame, f3: Frame) returns (resumes: seq<nat>)
    requires !f1.fin && !f2.fin && f3.fin && FragmentsOf(None, [f1, f2, f3]).Some?
    ensures resumes == [0, 1, 1]
  {
    FragmentsOfPrefixes(None, f1, f2, f3);
    var a := ReceiveThree(f1, f2, f3);
    assert a.frames == [f1, f2, f3] && a.flow == Flow(true, 1, 0);
    var iter := new FragmentIterator(a, None);
    var _ := YieldFragment(iter, f1);
    assert a.flow == Flow(true, 1, 0);
    resumes := [a.flow.resumes];
    assert a.frames == [f2, f3];
    var _ := YieldFragment(iter, f2);
    assert a.flow == Flow(false, 1, 1);
    resumes := resumes + [a.flow.resumes];
    assert a.frames == [f3];
    var _ := YieldFragment(iter, f3);
    resumes := resumes + [a.flow.resumes];
  }

  // put, close and the consumer role, for any frames

  /** Four frames put one by one leave pause's call count at 0, 0, 1, 1. */
  method PutPausesReading(f1: Frame, f2: Frame, f3: Frame, f4: Frame) returns (pauses: seq<nat>)
    ensures pauses == [0, 0, 1, 1]
  {
    var a := new Assembler(2, 1);
    var _ := a.Put(f1);
    pauses := [a.flow.pauses];
    var _ := a.Put(f2);
    pauses := pauses + [a.flow.pauses];
    var _ := a.Put(f3);
    pauses := pauses + [a.flow.pauses];
    var _ := a.Put(f4);
    pauses := pauses + [a.flow.pauses];
  }

  method GetFailsWhenInterruptedByClose() returns (blocked: Outcome<Data>, failure: Outcome<Data>)
    ensures blocked == Waiting
    ensures failure == Raised(EOFError)
  {
    var a := new Assembler(2, 1);
    var get := new GetCall(a, None);
    blocked := get.Step(false);
    a.Close();
    failure := get.Step(false);
  }

  method GetIterFailsWhenInterruptedByClose() returns (blocked: Outcome<Data>, failure: Outcome<Data>)
    ensures blocked == Waiting
    ensures failure == Raised(EOFError)
  {
    var a := new Assembler(2, 1);
    var iter := new FragmentIterator(a, None);
    blocked := iter.Next();
    a.Close();
    failure := iter.Next();
  }

  method GetFailsAfterClose() returns (failure: Outcome<Data>)
    ensures failure == Raised(EOFError)
  {
    var a := new Assembler(2, 1);
    a.Close();
    var get := new GetCall(a, None);
    failure := get.Step(false);
  }

  method GetIterFailsAfterClose() returns (failure: Outcome<Data>)
    ensures failure == Raised(EOFError)
  {
    var a := new Assembler(2, 1);
    a.Close();
    var iter := new FragmentIterator(a, None);
    failure := iter.Next();
  }

  /** put after close raises EOFError and queues nothing. */
  method PutFailsAfterClose(f: Frame) returns (failure: Outcome<()>, frames: seq<Frame>)
    ensures failure == Raised(EOFError)
    ensures frames == []
  {
    var a := new Assembler(2, 1);
    a.Close();
    failure := a.Put(f);
    frames := a.frames;
  }

  method CloseIsIdempotent() returns (closed: bool)
    ensures closed
  {
    var a := new Assembler(2, 1);
    a.Close();
    a.Close();
    closed := a.closed;
  }

  /** A second get fails while a first is blocked; the first then returns the message put to unblock it. */
  method GetFailsWhenGetIsRunning(f: Frame) returns (failure: Outcome<Data>, running: Outcome<Data>)
    requires f.fin
    ensures failure == Raised(ConcurrencyError)
    ensures running == Deliver(Assemble(None, [f]))
  {
    var a := new Assembler(2, 1);
    var first := new GetCall(a, None);
    var _ := first.Step(false);
    var second := new GetCall(a, None);
    failure := second.Step(false);
    var _ := a.Put(f);
    running := first.Step(false);
  }

  /** get fails while get_iter is blocked; get_iter then yields the message put to unblock it. */
  method GetFailsWhenGetIterIsRunning(f: Frame) returns (failure: Outcome<Data>, running: seq<Data>, end: Outcome<Data>)
    requires f.fin && FragmentsOf(None, [f]).Some?
    ensures failure == Raised(ConcurrencyError)
    ensures running == FragmentsOf(None, [f]).value.fragments
    ensures end == Raised(StopIteration)
  {
    var a := new Assembler(2, 1);
    var iter := new FragmentIterator(a, None);
    var _ := iter.Next();
    var get := new GetCall(a, None);
    failure := get.Step(false);
    var _ := a.Put(f);
    var r := iter.Next();
    running := [r.value];
    end := iter.Next();
  }

  /** get_iter fails while get is blocked; get then returns the message put to unblock it. */
  method GetIterFailsWhenGetIsRunning(f: Frame) returns (failure: Outcome<Data>, running: Outcome<Data>)
    requires f.fin
    ensures failure == Raised(ConcurrencyError)
    ensures running == Deliver(Assemble(None, [f]))
  {
    var a := new Assembler(2, 1);
    var get := new GetCall(a, None);
    var _ := get.Step(false);
    var iter := new FragmentIterator(a, None);
    failure := iter.Next();
    var _ := a.Put(f);
    running := get.Step(false);
  }

  /** A second get_iter fails while a first is blocked; the first then yields the message put to unblock it. */
  method GetIterFailsWhenGetIterIsRunning(f: Frame) returns (failure: Outcome<Data>, running: seq<Data>, end: Outcome<Data>)
    requires f.fin && FragmentsOf(None, [f]).Some?
    ensures failure == Raised(ConcurrencyError)
    ensures running == FragmentsOf(None, [f]).value.fragments
    ensures end == Raised(StopIteration)
  {
    var a := new Assembler(2, 1);
    var first := new FragmentIterator(a, None);
    var _ := first.Next();
    var second := new FragmentIterator(a, None);
    failure := second.Next();
    var _ := a.Put(f);
    var r := first.Next();
    running := [r.value];
    end := first.Next();
  }

  // limits

  /** With a high-water mark of 10, construction succeeds exactly for the low-water marks allowed, and keeps the mark. */
  method SetHighWaterMark(low: int) returns (r: Outcome<Assembler>)
    ensures r.Returned? <==> 0 <= low <= 10
    ensures r.Returned? ==> r.value.high == 10
  {
    r := Create(10, low);
  }

  method SetHighAndLowWaterMark() returns (high: int, low: int)
    ensures high == 10 && low == 5
  {
    var r := Create(10, 5);
    high, low := r.value.high, r.value.low;
  }

  /** A negative high-water mark is refused whatever the low-water mark. */
  method SetInvalidHighWaterMark(low: int) returns (r: Outcome<Assembler>)
    ensures r == Raised(ValueError)
  {
    r := Create(-1, low);
  }

  method SetInvalidLowWaterMark() returns (r: Outcome<Assembler>)
    ensures r == Raised(ValueError)
  {
    r := Create(5, 10);
  }

  // The test cases with the tests' own frames

  method GetTextMessageAlreadyReceived() returns (message: Outcome<Data>)
    ensures message == Returned(Str("caf\U{E9}"))
  {
    message := GetMessageAlreadyReceived(CafeFrame, None);
    CafeMessage();
  }

  method GetBinaryMessageAlreadyReceived() returns (message: Outcome<Data>)
    ensures message == Returned(Bytes(Tea))
  {
    message := GetMessageAlreadyReceived(TeaFrame, None);
    TeaMessage();
  }

  method GetTextMessageNotReceivedYet() returns (message: Outcome<Data>)
    ensures message == Returned(Str("caf\U{E9}"))
  {
    var _, m := GetMessageNotReceivedYet(CafeFrame);
    message := m;
    CafeMessage();
  }

  method GetBinaryMessageNotReceivedYet() returns (message: Outcome<Data>)
    ensures message == Returned(Bytes(Tea))
  {
    var _, m := GetMessageNotReceivedYet(TeaFrame);
    message := m;
    TeaMessage();
  }

  method GetFragmentedTextMessageAlreadyReceived() returns (message: Outcome<Data>)
    ensures message == Returned(Str("caf\U{E9}"))
  {
    message := GetFragmentedMessageAlreadyReceived(Ca, FC3, A9);
    FragmentedCafeMessage();
  }

  method GetFragmentedBinaryMessageAlreadyReceived() returns (message: Outcome<Data>)
    ensures message == Returned(Bytes(Tea))
  {
    message := GetFragmentedMessageAlreadyReceived(T, E, A);
    FragmentedTeaMessage();
  }

  method GetFragmentedTextMessageNotReceivedYet() returns (message: Outcome<Data>)
    ensures message == Returned(Str("caf\U{E9}"))
  {
    var _, m := GetFragmentedMessageNotReceivedYet(Ca, FC3, A9);
    message := m;
    FragmentedCafeMessage();
  }

  method GetFragmentedBinaryMessageNotReceivedYet() returns (message: Outcome<Data>)
    ensures message == Returned(Bytes(Tea))
  {
    var _, m := GetFragmentedMessageNotReceivedYet(T, E, A);
    message := m;
    FragmentedTeaMessage();
  }

  method GetFragmentedTextMessageBeingReceived() returns (message: Outcome<Data>)
    ensures message == Returned(Str("caf\U{E9}"))
  {
    var _, m := GetFragmentedMessageBeingReceived(Ca, FC3, A9);
    message := m;
    FragmentedCafeMessage();
  }

  method GetFragmentedBinaryMessageBeingReceived() returns (message: Outcome<Data>)
    ensures message == Returned(Bytes(Tea))
  {
    var _, m := GetFragmentedMessageBeingReceived(T, E, A);
    message := m;
    FragmentedTeaMessage();
  }

  method GetEncodedTextMessage() returns (message: Outcome<Data>)
    ensures message == Returned(Bytes(Cafe))
  {
    message := GetMessageAlreadyReceived(CafeFrame, Some(false));
    EncodedCafeMessage();
  }

  method GetDecodedBinaryMessage() returns (message: Outcome<Data>)
    ensures message == Returned(Str("tea"))
  {
    message := GetMessageAlreadyReceived(TeaFrame, Some(true));
    DecodedTeaMessage();
  }

  method GetTimeoutBeforeFirstTextFrame() returns (timedOut: Outcome<Data>, message: Outcome<Data>)
    ensures timedOut == Raised(TimeoutError)
    ensures message == Returned(Str("caf\U{E9}"))
  {
    timedOut, message := GetTimeoutBeforeFirstFrame(CafeFrame);
    CafeMessage();
  }

  method GetTimeoutAfterFirstTextFrame() returns (timedOut: Outcome<Data>, message: Outcome<Data>)
    ensures timedOut == Raised(TimeoutError)
    ensures message == Returned(Str("caf\U{E9}"))
  {
    timedOut, message := GetTimeoutAfterFirstFrame(Ca, FC3, A9);
    FragmentedCafeMessage();
  }

  method GetIterTextMessageAlreadyReceived() returns (fragments: seq<Data>)
    ensures fragments == [Str("caf\U{E9}")]
  {
    CafeFragment();
    var f, _ := GetIterMessageAlreadyReceived(CafeFrame);
    fragments := f;
  }

  method GetIterBinaryMessageAlreadyReceived() returns (fragments: seq<Data>)
    ensures fragments == [Bytes(Tea)]
  {
    TeaFragment();
    var f, _ := GetIterMessageAlreadyReceived(TeaFrame);
    fragments := f;
  }

  method GetIterTextMessageNotReceivedYet() returns (fragments: seq<Data>)
    ensures fragments == [Str("caf\U{E9}")]
  {
    CafeFragment();
    var _, f, _ := GetIterMessageNotReceivedYet(CafeFrame);
    fragments := f;
  }

  method GetIterBinaryMessageNotReceivedYet() returns (fragments: seq<Data>)
    ensures fragments == [Bytes(Tea)]
  {
    TeaFragment();
    var _, f, _ := GetIterMessageNotReceivedYet(TeaFrame);
    fragments := f;
  }

  method GetIterFragmentedTextMessageAlreadyReceived() returns (fragments: seq<Data>)
    ensures fragments == [Str("ca"), Str("f"), Str("\U{E9}")]
  {
    CafeFragments();
    var f, _ := GetIterFragmentedMessageAlreadyReceived(Ca, FC3, A9, None);
    fragments := f;
  }

  method GetIterFragmentedBinaryMessageAlreadyReceived() returns (fragments: seq<Data>)
    ensures fragments == [Bytes([0x74]), Bytes([0x65]), Bytes([0x61])]
  {
    TeaFragments();
    var f, _ := GetIterFragmentedMessageAlreadyReceived(T, E, A, None);
    fragments := f;
  }

  method GetIterFragmentedTextMessageNotReceivedYet() returns (fragments: seq<Data>)
    ensures fragments == [Str("ca"), Str("f"), Str("\U{E9}")]
  {
    CafeFragments();
    fragments := GetIterFragmentedMessageNotReceivedYet(Ca, FC3, A9);
  }

  method GetIterFragmentedBinaryMessageNotReceivedYet() returns (fragments: seq<Data>)
    ensures fragments == [Bytes([0x74]), Bytes([0x65]), Bytes([0x61])]
  {
    TeaFragments();
    fragments := GetIterFragmentedMessageNotReceivedYet(T, E, A);
  }

  method GetIterFragmentedTextMessageBeingReceived() returns (fragments: seq<Data>)
    ensures fragments == [Str("ca"), Str("f"), Str("\U{E9}")]
  {
    CafeFragments();
    fragments := GetIterFragmentedMessageBeingReceived(Ca, FC3, A9);
  }

  method GetIterFragmentedBinaryMessageBeingReceived() returns (fragments: seq<Data>)
    ensures fragments == [Bytes([0x74]), Bytes([0x65]), Bytes([0x61])]
  {
    TeaFragments();
    fragments := GetIterFragmentedMessageBeingReceived(T, E, A);
  }

  method GetIterEncodedTextMessage() returns (fragments: seq<Data>)
    ensures fragments == [Bytes([0x63, 0x61]), Bytes([0x66, 0xC3]), Bytes([0xA9])]
  {
    EncodedCafeFragments();
    var f, _ := GetIterFragmentedMessageAlreadyReceived(Ca, FC3, A9, Some(false));
    fragments := f;
  }

  method GetIterDecodedBinaryMessage() returns (fragments: seq<Data>)
    ensures fragments == [Str("t"), Str("e"), Str("a")]
  {
    DecodedTeaFragments();
    var f, _ := GetIterFragmentedMessageAlreadyReceived(T, E, A, Some(true));
    fragments := f;
  }

  method GetFailsWhenGetIsRunningWithEmptyText() returns (running: Outcome<Data>)
    ensures running == Returned(Str(""))
  {
    var _, r := GetFailsWhenGetIsRunning(EmptyFrame);
    running := r;
    EmptyMessage();
  }

  method GetFailsWhenGetIterIsRunningWithEmptyText() returns (failure: Outcome<Data>, running: seq<Data>, end: Outcome<Data>)
    ensures failure == Raised(ConcurrencyError)
    ensures running == [Str("")]
    ensures end == Raised(StopIteration)
  {
    EmptyFragment();
    failure, running, end := GetFailsWhenGetIterIsRunning(EmptyFrame);
  }
}
