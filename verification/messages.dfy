/**
 * The assembler of the synchronous WebSocket client and server
 * (`websockets.sync.messages.Assembler`): a producer `put`s data frames, a
 * consumer reads whole messages with `get` or streams one fragment per frame
 * with `get_iter`, the queue drives the producer's `pause` and `resume`
 * callbacks, and `close` ends the stream.
 *
 * The model is sequential. A call that would block waiting for a frame
 * instead returns `Waiting`; stepping it again after more frames were put,
 * or after `close`, continues it. A blocked `get` call is a `GetCall`
 * object, the generator `get_iter` returns is a `FragmentIterator` object.
 */
module Messages {
  import opened Wrappers
  import opened Utf8
  import opened Frames
  import opened Reassembly
  import opened FlowControl

  /** The exceptions the assembler raises. */
  datatype Error =
    | ValueError          // invalid high-water or low-water mark
    | EOFError            // the stream of frames ended: close was called
    | TimeoutError        // get gave up waiting for a frame
    | ConcurrencyError    // another get or get_iter is running
    | UnicodeDecodeError  // a text payload is not valid UTF-8
    | StopIteration       // get_iter has yielded the last fragment

  /** What one step of a call gives: a value, an exception, or nothing yet because it blocks. */
  datatype Outcome<+T> = Returned(value: T) | Raised(error: Error) | Waiting

  /** What `get` gives for a message: the assembled value, or UnicodeDecodeError; never a block. */
  function Deliver(m: Option<Data>): (r: Outcome<Data>)
    ensures r != Waiting
    ensures r.Returned? <==> m.Some?
    ensures r.Returned? ==> r.value == m.value
    ensures r.Raised? ==> r.error == UnicodeDecodeError
  {
    match m
    case Some(d) => Returned(d)
    case None => Raised(UnicodeDecodeError)
  }

  class Assembler {
    /** Queue depth above which the producer is asked to pause. */
    const high: nat
    /** Queue depth at or below which a paused producer is asked to resume. */
    const low: nat
    /** Frames put and not yet taken, oldest first. */
    var frames: seq<Frame>
    /** Whether the producer is paused, and how often pause and resume were called. */
    var flow: Flow
    var closed: bool
    /** A get or get_iter is running. */
    var getInProgress: bool

    ghost predicate Valid()
      reads this`frames, this`flow
    {
      low <= high && Alternating(flow) && (flow.paused ==> |frames| > low)
    }

    constructor(high: nat, low: nat)
      requires low <= high
      ensures Valid()
      ensures this.high == high && this.low == low
      ensures frames == [] && flow == Initial && !closed && !getInProgress
    {
      this.high := high;
      this.low := low;
      frames := [];
      flow := Initial;
      closed := false;
      getInProgress := false;
    }

    /** Queues a frame; pauses the producer when the queue grows past `high`. */
    method Put(frame: Frame) returns (r: Outcome<()>)
      requires Valid()
      modifies this`frames, this`flow
      ensures Valid()
      ensures old(closed) ==> r == Raised(EOFError) && frames == old(frames) && flow == old(flow)
      ensures !old(closed) ==>
        r == Returned(()) && frames == old(frames) + [frame] && flow == MaybePause(old(flow), |frames|, high)
    {
      if closed {
        return Raised(EOFError);
      }
      frames := frames + [frame];
      flow := MaybePause(flow, |frames|, high);
      r := Returned(());
    }

    /** Ends the stream of frames; calling it again does nothing. */
    method Close()
      modifies this`closed
      ensures closed
    {
      if closed {
        return;
      }
      closed := true;
    }

    /** Dequeues the oldest frame; resumes the producer when the queue drops to `low`. */
    method TakeFrame() returns (frame: Frame)
      requires Valid() && frames != []
      modifies this`frames, this`flow
      ensures Valid()
      ensures frame == old(frames[0]) && frames == old(frames[1..])
      ensures flow == MaybeResume(old(flow), |frames|, low)
    {
      frame := frames[0];
      frames := frames[1..];
      flow := MaybeResume(flow, |frames|, low);
    }

    /**
     * Dequeues frames until one ends a message or the queue is empty:
     * all of the first queued message if it is complete, else every frame.
     */
    method TakeUntilFin() returns (taken: seq<Frame>)
      requires Valid()
      modifies this`frames, this`flow
      ensures Valid()
      ensures old(frames) == taken + frames
      ensures forall i | 0 <= i < |taken| - 1 :: !taken[i].fin
      ensures frames == [] || (taken != [] && taken[|taken| - 1].fin)
      ensures flow == AfterTakes(old(flow), |old(frames)|, |taken|, low)
    {
      ghost var queue := frames;
      taken := [];
      while frames != [] && (taken == [] || !taken[|taken| - 1].fin)
        invariant Valid()
        invariant queue == taken + frames
        invariant forall i | 0 <= i < |taken| - 1 :: !taken[i].fin
        invariant flow == AfterTakes(old(flow), |queue|, |taken|, low)
        decreases |frames|
      {
        var frame := TakeFrame();
        taken := taken + [frame];
      }
    }

    /** Puts frames back at the front of the queue, oldest first. */
    method Restore(fs: seq<Frame>)
      requires Valid()
      modifies this`frames
      ensures Valid()
      ensures frames == fs + old(frames)
    {
      frames := fs + frames;
    }
  }

  /**
   * `Assembler(high, low, pause, resume)`: the marks must satisfy
   * 0 <= low <= high, else the constructor raises ValueError.
   */
  method Create(high: int, low: int) returns (r: Outcome<Assembler>)
    ensures high < 0 || low < 0 || low > high <==> r == Raised(ValueError)
    ensures r.Returned? ==>
      fresh(r.value) && r.value.Valid() && r.value.high == high && r.value.low == low &&
      r.value.frames == [] && r.value.flow == Initial && !r.value.closed && !r.value.getInProgress
    ensures r.Returned? <==> 0 <= low <= high
  {
    if high < 0 || low < 0 || low > high {
      return Raised(ValueError);
    }
    var a := new Assembler(high, low);
    r := Returned(a);
  }

  datatype CallState = Starting | Blocked | Finished

  /**
   * A call of `get(timeout, decode)`. It fails at once when the stream has
   * ended or another consumer is running; otherwise it takes frames until a
   * whole message is in. When it must wait for a frame it blocks; when
   * `timedOut` says its timeout elapsed while waiting, it puts back the
   * frames it took and raises TimeoutError.
   */
  class GetCall {
    const assembler: Assembler
    const decode: Option<bool>
    var state: CallState
    /** Frames of the message taken by this call so far. */
    var taken: seq<Frame>

    /** A blocked call holds the assembler's consumer role. */
    ghost predicate Valid()
      reads this, assembler`getInProgress
    {
      (state != Blocked ==> taken == []) && NoFin(taken) &&
      (state == Blocked ==> assembler.getInProgress)
    }

    constructor(assembler: Assembler, decode: Option<bool>)
      ensures Valid()
      ensures this.assembler == assembler && this.decode == decode
      ensures state == Starting && taken == []
    {
      this.assembler := assembler;
      this.decode := decode;
      state := Starting;
      taken := [];
    }

    /** Whether a step in the state given goes on to take frames. */
    static predicate Proceeds(state: CallState, closed: bool, inProgress: bool)
    {
      !closed && (state == Blocked || (state == Starting && !inProgress))
    }

    method Step(timedOut: bool) returns (r: Outcome<Data>)
      requires Valid() && assembler.Valid() && state != Finished
      modifies this, assembler
      ensures Valid() && assembler.Valid()
      ensures assembler.closed == old(assembler.closed)
      ensures old(state) == Starting && old(assembler.closed) ==>
        r == Raised(EOFError) && state == Finished && unchanged(assembler)
      ensures old(state) == Starting && !old(assembler.closed) && old(assembler.getInProgress) ==>
        r == Raised(ConcurrencyError) && state == Finished && unchanged(assembler)
      ensures old(state) == Blocked && old(assembler.closed) ==>
        r == Raised(EOFError) && state == Finished && !assembler.getInProgress &&
        assembler.frames == old(assembler.frames) && assembler.flow == old(assembler.flow)
      ensures Proceeds(old(state), old(assembler.closed), old(assembler.getInProgress)) ==>
        var queue := old(assembler.frames);
        match MessageLength(queue)
        case Some(n) =>
          r == Deliver(Assemble(decode, old(taken) + queue[..n])) &&
          state == Finished && !assembler.getInProgress &&
          assembler.frames == queue[n..] &&
          assembler.flow == AfterTakes(old(assembler.flow), |queue|, n, assembler.low)
        case None =>
          assembler.flow == AfterTakes(old(assembler.flow), |queue|, |queue|, assembler.low) &&
          if timedOut then
            r == Raised(TimeoutError) && state == Finished && !assembler.getInProgress &&
            assembler.frames == old(taken) + queue
          else
            r == Waiting && state == Blocked && assembler.getInProgress &&
            assembler.frames == [] && taken == old(taken) + queue
    {
      if state == Starting {
        if assembler.closed {
          state := Finished;
          return Raised(EOFError);
        }
        if assembler.getInProgress {
          state := Finished;
          return Raised(ConcurrencyError);
        }
        assembler.getInProgress := true;
      } else if assembler.closed {
        assembler.getInProgress := false;
        state, taken := Finished, [];
        return Raised(EOFError);
      }
      ghost var queue := assembler.frames;
      var more := assembler.TakeUntilFin();
      FirstMessage(queue, more, assembler.frames);
      if more != [] && more[|more| - 1].fin {
        var message := taken + more;
        assembler.getInProgress := false;
        state, taken := Finished, [];
        r := Deliver(Assemble(decode, message));
      } else if timedOut {
        assembler.Restore(taken + more);
        assembler.getInProgress := false;
        state, taken := Finished, [];
        r := Raised(TimeoutError);
      } else {
        state, taken := Blocked, taken + more;
        r := Waiting;
      }
    }
  }

  datatype IterState = Fresh | Running | Draining | Exhausted

  /**
   * The generator `get_iter(decode)` returns. Nothing happens until the
   * first `next`: that one fails when the stream has ended or another
   * consumer is running. Each `next` then takes one frame and yields its
   * fragment, blocking while the queue is empty; the `next` after the final
   * frame's fragment releases the assembler and stops the iteration.
   */
  class FragmentIterator {
    const assembler: Assembler
    const decode: Option<bool>
    var state: IterState
    /** Whether the first frame was taken, and then whether fragments are decoded to text. */
    var started: bool
    var asText: bool
    /** Bytes of a character split across frames, held back by the decoder. */
    var pending: seq<byte>
    /** The frames taken so far, and the fragments yielded for them. */
    ghost var consumed: seq<Frame>
    ghost var fragments: seq<Data>

    /** A running or draining iterator holds the assembler's consumer role. */
    ghost predicate Valid()
      reads this, assembler`getInProgress
    {
      (state == Running || state == Draining ==> assembler.getInProgress) &&
      (state == Fresh ==> consumed == [] && fragments == [] && pending == []) &&
      (started <==> consumed != []) &&
      (consumed != [] ==> asText == AsText(decode, consumed[0])) &&
      (state == Running ==> NoFin(consumed)) &&
      (state == Draining ==> IsMessage(consumed)) &&
      (state == Running || state == Draining ==> FragmentsOf(decode, consumed) == Some(Partial(fragments, pending)))
    }

    constructor(assembler: Assembler, decode: Option<bool>)
      ensures Valid()
      ensures this.assembler == assembler && this.decode == decode
      ensures state == Fresh && consumed == [] && fragments == []
    {
      this.assembler := assembler;
      this.decode := decode;
      state := Fresh;
      started, asText := false, false;
      pending := [];
      consumed := [];
      fragments := [];
    }

    /** Whether `next` in the state given goes on to take a frame. */
    static predicate Proceeds(state: IterState, closed: bool, inProgress: bool)
    {
      !closed && (state == Running || (state == Fresh && !inProgress))
    }

    method Next() returns (r: Outcome<Data>)
      requires Valid() && assembler.Valid()
      modifies this, assembler
      ensures Valid() && assembler.Valid()
      ensures assembler.closed == old(assembler.closed)
      ensures old(state) == Exhausted ==>
        r == Raised(StopIteration) && state == Exhausted && unchanged(assembler)
      ensures old(state) == Fresh && old(assembler.closed) ==>
        r == Raised(EOFError) && state == Exhausted && unchanged(assembler)
      ensures old(state) == Fresh && !old(assembler.closed) && old(assembler.getInProgress) ==>
        r == Raised(ConcurrencyError) && state == Exhausted && unchanged(assembler)
      ensures old(state) == Running && old(assembler.closed) ==>
        r == Raised(EOFError) && state == Exhausted && !assembler.getInProgress &&
        assembler.frames == old(assembler.frames) && assembler.flow == old(assembler.flow)
      ensures old(state) == Draining ==>
        r == Raised(StopIteration) && state == Exhausted && !assembler.getInProgress &&
        assembler.frames == old(assembler.frames) && assembler.flow == old(assembler.flow)
      // A next that takes no frame yields nothing new.
      ensures !Proceeds(old(state), old(assembler.closed), old(assembler.getInProgress)) || old(assembler.frames) == [] ==>
        consumed == old(consumed) && fragments == old(fragments)
      ensures Proceeds(old(state), old(assembler.closed), old(assembler.getInProgress)) && old(assembler.frames) == [] ==>
        r == Waiting && state == Running && assembler.getInProgress &&
        assembler.frames == [] && assembler.flow == old(assembler.flow)
      ensures Proceeds(old(state), old(assembler.closed), old(assembler.getInProgress)) && old(assembler.frames) != [] ==>
        assembler.frames == old(assembler.frames)[1..] &&
        assembler.flow == MaybeResume(old(assembler.flow), |assembler.frames|, assembler.low) &&
        Yielded(old(consumed), old(fragments), old(assembler.frames)[0], r)
    {
      if Proceeds(state, assembler.closed, assembler.getInProgress) {
        if state == Fresh {
          assembler.getInProgress := true;
          state := Running;
        }
        r := Take();
      } else {
        r := Stop();
      }
    }

    /**
     * A next that goes on, holding the consumer role: a frame is taken and
     * its fragment yielded, or the call blocks on an empty queue.
     */
    method Take() returns (r: Outcome<Data>)
      requires Valid() && assembler.Valid() && state == Running && !assembler.closed
      modifies this, assembler
      ensures Valid() && assembler.Valid()
      ensures assembler.closed == old(assembler.closed)
      ensures old(assembler.frames) == [] ==>
        r == Waiting && state == Running && assembler.getInProgress &&
        consumed == old(consumed) && fragments == old(fragments) &&
        assembler.frames == [] && assembler.flow == old(assembler.flow)
      ensures old(assembler.frames) != [] ==>
        assembler.frames == old(assembler.frames)[1..] &&
        assembler.flow == MaybeResume(old(assembler.flow), |assembler.frames|, assembler.low) &&
        Yielded(old(consumed), old(fragments), old(assembler.frames)[0], r)
    {
      if assembler.frames == [] {
        return Waiting;
      }
      var frame := assembler.TakeFrame();
      r := Yield(frame);
    }

    /**
     * A next that takes no frame: it ends the iteration with the exception
     * the state calls for, giving up the consumer role if it held it.
     */
    method Stop() returns (r: Outcome<Data>)
      requires Valid() && !Proceeds(state, assembler.closed, assembler.getInProgress)
      modifies this, assembler`getInProgress
      ensures Valid() && state == Exhausted
      ensures consumed == old(consumed) && fragments == old(fragments)
      ensures old(state) == Exhausted ==>
        r == Raised(StopIteration) && assembler.getInProgress == old(assembler.getInProgress)
      ensures old(state) == Fresh && assembler.closed ==>
        r == Raised(EOFError) && assembler.getInProgress == old(assembler.getInProgress)
      ensures old(state) == Fresh && !assembler.closed ==>
        r == Raised(ConcurrencyError) && assembler.getInProgress == old(assembler.getInProgress)
      ensures old(state) == Running ==> r == Raised(EOFError) && !assembler.getInProgress
      ensures old(state) == Draining ==> r == Raised(StopIteration) && !assembler.getInProgress
    {
      match state {
        case Exhausted =>
          r := Raised(StopIteration);
        case Fresh =>
          r := if assembler.closed then Raised(EOFError) else Raised(ConcurrencyError);
        case Running =>
          assembler.getInProgress := false;
          r := Raised(EOFError);
        case Draining =>
          assembler.getInProgress := false;
          r := Raised(StopIteration);
      }
      state := Exhausted;
    }

    /**
     * The outcome of yielding for `frame`, taken after the frames `before`
     * that gave the fragments `earlier`: the frame is consumed, and either
     * its fragment extends the fragments as `FragmentsOf` says, the iterator
     * going on to drain after a final frame, or decoding failed and the
     * iteration ended, giving up the consumer role.
     */
    ghost predicate Yielded(before: seq<Frame>, earlier: seq<Data>, frame: Frame, r: Outcome<Data>)
      reads this, assembler`getInProgress
    {
      consumed == before + [frame] &&
      match FragmentsOf(decode, consumed)
      case Some(p) =>
        r.Returned? && fragments == earlier + [r.value] && p.fragments == fragments &&
        state == (if frame.fin then Draining else Running) && assembler.getInProgress
      case None =>
        r == Raised(UnicodeDecodeError) && state == Exhausted && !assembler.getInProgress
    }

    /**
     * Yields the fragment of `frame`, just taken from the queue: its payload,
     * or for a text message what the incremental decoder makes of it. A
     * decoding failure ends the iteration and gives up the consumer role.
     */
    method Yield(frame: Frame) returns (r: Outcome<Data>)
      requires Valid() && state == Running
      modifies this, assembler`getInProgress
      ensures Valid()
      ensures Yielded(old(consumed), old(fragments), frame, r)
    {
      if !started {
        started, asText := true, AsText(decode, frame);
      }
      ghost var before := consumed;
      consumed := consumed + [frame];
      assert consumed[0] == if before == [] then frame else before[0];
      FragmentsOfSnoc(decode, before, frame);
      Snoc(before, frame);
      if asText {
        match Feed(pending, frame.data, frame.fin)
        case None =>
          assembler.getInProgress := false;
          state := Exhausted;
          r := Raised(UnicodeDecodeError);
        case Some(d) =>
          pending := d.rest;
          r := Returned(Str(d.text));
          fragments := fragments + [r.value];
          state := if frame.fin then Draining else Running;
      } else {
        r := Returned(Bytes(frame.data));
        fragments := fragments + [r.value];
        state := if frame.fin then Draining else Running;
      }
    }
  }
}
