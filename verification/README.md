# The synchronous message assembler of `websockets`

This project models `websockets.sync.messages.Assembler`, the component that
sits between a connection's frame reader and the application in the
synchronous client and server:

- the reader `put`s data frames (text, binary, continuation; the last frame of
  a message is marked final);
- the application reads whole messages with `get(timeout, decode)` or streams
  one fragment per frame with `get_iter(decode)`;
- text is decoded from UTF-8, incrementally for `get_iter`, and the `decode`
  flag overrides whether a message is decoded;
- the queue of frames drives two callbacks: `pause` when more than `high`
  frames are queued, `resume` when a paused queue drops to `low` frames;
- only one `get` or `get_iter` may run at a time (`ConcurrencyError`);
- `close` ends the stream: a blocked reader and every later `put`, `get` or
  first `next` of a `get_iter` raise `EOFError`.

The behaviour is taken from the assembler's test suite,
`tests/sync/test_messages.py`, whose every test case is replayed on the model.

Files:

- `utf8.dfy` (`Utf8`): a strict UTF-8 encoder and decoder, the decoder proved
  to be the encoder's exact inverse, and the incremental decoder `Feed`.
- `frames.dfy` (`Frames`): frames, message boundaries in a queue of frames,
  payload concatenation.
- `flow_control.dfy` (`FlowControl`): the edge-triggered `pause`/`resume`
  logic, with the callbacks counted.
- `reassembly.dfy` (`Reassembly`): what `get` returns for a message
  (`Assemble`) and what `get_iter` yields (`FragmentsOf`), and the proof that
  the two agree.
- `messages.dfy` (`Messages`): the `Assembler` class, with the blocking `get`
  call as a `GetCall` object and the `get_iter` generator as a
  `FragmentIterator` object.
- `scenarios.dfy` (`Scenarios`): the test cases, each as a method over any
  frames and, where a test asserts a value that depends on its frames, as a
  method with the tests' own frames.

Threads are modelled sequentially. A call that would block returns `Waiting`.
Stepping it again after the other thread has acted continues it, as the
blocked thread does when it is woken. The `timeout` of `get` becomes a
`timedOut` flag: whether the timeout elapsed while the call waited.

## Model

| member | source | states |
|---|---|---|
| Utf8.Decode | tests/sync/test_messages.py:21-25 | a decoded text re-encodes to exactly the bytes decoded |
| Utf8.DecodeInvertsEncode | tests/sync/test_messages.py:21-25 | decoding succeeds exactly on the encodings of strings, and gives back the string encoded |
| Utf8.DecodePrefix | tests/sync/test_messages.py:230-236 | the strict decoder of a frame's bytes: when it succeeds, what it holds back is nothing or the start of one incomplete character |
| Utf8.DecodePrefixEncode | tests/sync/test_messages.py:230-236 | decoding the encoding of a string followed by the start of one character gives the string and holds back that start |
| Utf8.Feed | tests/sync/test_messages.py:246-254 | the incremental decoder's text, encoded, followed by the bytes it holds back, is the held-back bytes plus the new data; after a final frame it holds back nothing, otherwise at most an incomplete character |
| Utf8.DecodeEncoding | tests/sync/test_messages.py:21-25 | a payload that is the encoding of a string decodes to that string |
| Utf8.DecodePrefixAppend | tests/sync/test_messages.py:230-236 | decoding is incremental: decoding `a + b` is decoding `a`, then decoding what `a` held back followed by `b`; a malformed `a` stays malformed |
| Utf8.FeedEncoding | tests/sync/test_messages.py:246-254 | the incremental decoder succeeds on every split of a string's encoding across frames, giving the text completed so far and holding back only the start of a character cut by a non-final frame |
| Frames.Snoc | tests/sync/test_messages.py:75-88 | adding a frame ends the message exactly when the frame is final and no earlier frame was |
| Frames.Payload | tests/sync/test_messages.py:59-65 | a one-frame message's payload is that frame's data; with `PayloadAppend`, every payload is its frames' data concatenated in order |
| Frames.PayloadAppend | tests/sync/test_messages.py:59-65 | the payload of two runs of frames is the two payloads concatenated |
| Frames.MessageLength | tests/sync/test_messages.py:59-65 | the first message in a queue is found exactly when a final frame is queued, and is the frames up to the first final one |
| Frames.MessageLengthOf | tests/sync/test_messages.py:147-163 | a whole message at the front of a queue is the first message found |
| Frames.FirstMessage | tests/sync/test_messages.py:105-118 | frames taken from the front up to the first final one are the first message exactly when the last taken is final; otherwise the queue was emptied |
| FlowControl.MaybePause | tests/sync/test_messages.py:324-337 | after a put, the producer is paused exactly when it was or the queue holds more than `high` frames; pause and resume keep alternating |
| FlowControl.MaybeResume | tests/sync/test_messages.py:147-163 | after a frame is taken, the producer stays paused exactly when it was and more than `low` frames remain; pause and resume keep alternating |
| FlowControl.PauseOnce | tests/sync/test_messages.py:324-337 | however many frames are put, pause is called at most once, and only when the queue grows past `high` while not paused |
| FlowControl.ResumeOnce | tests/sync/test_messages.py:302-320 | however many frames are taken, resume is called at most once, and only when a paused queue drops to `low` |
| Reassembly.AsText | tests/sync/test_messages.py:135-145 | a message is delivered as text exactly when `decode` says so, and when `decode` is not given exactly when its first frame is a text frame |
| Reassembly.Assemble | tests/sync/test_messages.py:135-145 | a message not decoded is its payload; a decoded one is the text whose encoding is the payload, and there is none exactly when no text encodes to it; `decode` overrides the opcode |
| Reassembly.FragmentsOf | tests/sync/test_messages.py:286-300 | one fragment per frame; byte fragments are the frames' payloads, text fragments are strings; a binary message always has its fragments |
| Reassembly.JoinBytesPayload | tests/sync/test_messages.py:238-244 | the byte fragments of a message, joined, are its payload |
| Reassembly.TextFragmentsStep | tests/sync/test_messages.py:230-236 | one frame on, the text fragments remain exactly the decoding of the payload so far, with nothing held back once the frame is final |
| Reassembly.TextFragments | tests/sync/test_messages.py:230-236 | the text fragments of an incomplete message are the decoding of its payload so far, with an incomplete character held back; for a whole message they are the decoded message, and the decoder fails exactly when decoding the payload fails |
| Reassembly.IterMatchesGet | tests/sync/test_messages.py:230-244 | `get_iter` and `get` agree: the fragments exist exactly when `get` returns a value, and joined they are that value |
| Messages.Deliver | tests/sync/test_messages.py:21-31 | get gives the assembled message when there is one and raises UnicodeDecodeError when there is none; it never blocks |
| Messages.Create | tests/sync/test_messages.py:420-439 | construction raises ValueError exactly when a mark is negative or `low > high`; otherwise it keeps the marks and starts empty, not paused, not closed |
| Messages.Assembler.constructor | tests/sync/test_messages.py:14-17 | a new assembler has an empty queue, no callback called, and is neither closed nor in use |
| Messages.Assembler.Put | tests/sync/test_messages.py:324-337 | put appends the frame and applies the pause check, or raises EOFError and changes nothing once closed |
| Messages.Assembler.Close | tests/sync/test_messages.py:383-386 | close leaves the assembler closed, whether or not it was |
| Messages.Assembler.TakeFrame | tests/sync/test_messages.py:302-320 | taking a frame removes the oldest and applies the resume check |
| Messages.Assembler.TakeUntilFin | tests/sync/test_messages.py:59-65 | the frames taken and the frames left make up the old queue; the taken frames hold no final frame except the last, and they stop at the first final frame unless the queue ran out; resume is checked once per frame |
| Messages.Assembler.Restore | tests/sync/test_messages.py:175-186 | the frames given are put back in front of the queue, in order |
| Messages.GetCall.constructor | tests/sync/test_messages.py:33-44 | a get call that has not run yet has taken nothing and has made no check |
| Messages.GetCall.Step | tests/sync/test_messages.py:105-118 | get raises EOFError when closed and ConcurrencyError when another reader runs; otherwise it returns the first whole message once queued, or blocks holding the frames taken, or on timeout puts them back and raises TimeoutError; the reader role is held exactly while blocked |
| Messages.FragmentIterator.constructor | tests/sync/test_messages.py:370-375 | get_iter does nothing until its first next: no check is made and nothing is taken or yielded |
| Messages.FragmentIterator.Next | tests/sync/test_messages.py:266-274 | the first next raises EOFError when closed and ConcurrencyError when another reader runs; each next takes one frame and yields its fragment, or blocks on an empty queue; the next after the final fragment raises StopIteration and releases the reader role; a next that takes no frame leaves the frames consumed and the fragments yielded as they were |
| Messages.FragmentIterator.Take | tests/sync/test_messages.py:202-228 | a next that goes on takes the oldest frame and yields its fragment, applying the resume check, or blocks on an empty queue holding the reader role and changing nothing |
| Messages.FragmentIterator.Stop | tests/sync/test_messages.py:352-375 | a next that takes no frame ends the iteration: StopIteration after the last fragment, EOFError once closed, ConcurrencyError on a first next while another reader runs; it yields nothing new and gives up the reader role only if it held it |
| Messages.FragmentIterator.Yield | tests/sync/test_messages.py:246-254 | the fragment yielded for a frame extends the fragments so far exactly as `FragmentsOf` says, and a decoding failure ends the iteration |
| Scenarios.CafeMessage | tests/sync/test_messages.py:21-25 | a text frame of `caf\xc3\xa9` assembles to "café" |
| Scenarios.FragmentedCafeMessage | tests/sync/test_messages.py:59-65 | the three frames `ca`, `f\xc3`, `\xa9` assemble to "café" |
| Scenarios.EncodedCafeMessage | tests/sync/test_messages.py:135-139 | with `decode=False` the text frame assembles to its bytes |
| Scenarios.TeaMessage | tests/sync/test_messages.py:27-31 | a binary frame of `tea` assembles to its bytes |
| Scenarios.FragmentedTeaMessage | tests/sync/test_messages.py:67-73 | the binary frames `t`, `e`, `a` assemble to `tea` |
| Scenarios.DecodedTeaMessage | tests/sync/test_messages.py:141-145 | with `decode=True` the binary frame assembles to "tea" |
| Scenarios.EmptyMessage | tests/sync/test_messages.py:390-395 | an empty text frame assembles to "" |
| Scenarios.CafeFragment | tests/sync/test_messages.py:190-194 | get_iter yields ["café"] for the one text frame |
| Scenarios.TeaFragment | tests/sync/test_messages.py:196-200 | get_iter yields [b"tea"] for the one binary frame |
| Scenarios.EmptyFragment | tests/sync/test_messages.py:397-402 | get_iter yields [""] for the empty text frame |
| Scenarios.CafeFragments | tests/sync/test_messages.py:230-236 | get_iter yields "ca", "f", "é" for the three text frames, holding back the first byte of "é" after the second |
| Scenarios.EncodedCafeFragments | tests/sync/test_messages.py:286-292 | with `decode=False` get_iter yields the three payloads |
| Scenarios.TeaFragments | tests/sync/test_messages.py:238-244 | get_iter yields b"t", b"e", b"a" for the three binary frames |
| Scenarios.DecodedTeaFragments | tests/sync/test_messages.py:294-300 | with `decode=True` get_iter yields "t", "e", "a" |
| Scenarios.GetMessageAlreadyReceived | tests/sync/test_messages.py:21-31 | for any one-frame message already queued, get returns what `Assemble` gives for it |
| Scenarios.GetMessageNotReceivedYet | tests/sync/test_messages.py:33-57 | for any one-frame message, get blocks on the empty queue, then returns the message put meanwhile |
| Scenarios.GetFragmentedMessageAlreadyReceived | tests/sync/test_messages.py:59-73 | for any three-frame message already queued, get returns the assembled message |
| Scenarios.GetFragmentedMessageNotReceivedYet | tests/sync/test_messages.py:75-103 | for any three-frame message, get blocks three times, once before each frame, then returns the assembled message |
| Scenarios.GetFragmentedMessageBeingReceived | tests/sync/test_messages.py:105-133 | for any three-frame message whose first frame is queued, get blocks twice, then returns the assembled message |
| Scenarios.GetResumesReading | tests/sync/test_messages.py:147-163 | with three one-frame messages queued, resume's call count after each get is 0, 1, 1 |
| Scenarios.GetTimeoutBeforeFirstFrame | tests/sync/test_messages.py:165-173 | a get on an empty queue that times out raises TimeoutError; the next get returns the next message |
| Scenarios.GetTimeoutAfterFirstFrame | tests/sync/test_messages.py:175-186 | a get that times out after taking the first frame raises TimeoutError, and the next get still returns the whole message |
| Scenarios.GetIterMessageAlreadyReceived | tests/sync/test_messages.py:190-200 | for any one-frame message already queued, get_iter yields its fragment, then stops |
| Scenarios.GetIterMessageNotReceivedYet | tests/sync/test_messages.py:202-228 | for any one-frame message, get_iter blocks, yields the fragment of the message put meanwhile, then stops |
| Scenarios.GetIterFragmentedMessageAlreadyReceived | tests/sync/test_messages.py:230-244 | for any three-frame message already queued, get_iter yields its fragments, then stops |
| Scenarios.GetIterFragmentedMessageNotReceivedYet | tests/sync/test_messages.py:246-264 | for any three-frame message put one frame at a time, get_iter yields each fragment as its frame arrives |
| Scenarios.GetIterFragmentedMessageBeingReceived | tests/sync/test_messages.py:266-284 | for any three-frame message whose first frame is queued, get_iter yields each fragment as its frame arrives |
| Scenarios.GetIterResumesReading | tests/sync/test_messages.py:302-320 | with a three-frame message queued, resume's call count after each next is 0, 1, 1 |
| Scenarios.PutEach | tests/sync/test_messages.py:324-337 | a run of puts on an open assembler queues the frames in order and leaves the flow state `AfterPuts` gives, so `PauseOnce` applies to the assembler's own puts |
| Scenarios.ReceiveThree | tests/sync/test_messages.py:59-65 | three frames put on a new assembler with marks 2 and 1 are queued in order, and pause has been called once, as `PauseOnce` gives |
| Scenarios.PutPausesReading | tests/sync/test_messages.py:324-337 | pause's call count after each of four puts is 0, 0, 1, 1 |
| Scenarios.GetFailsWhenInterruptedByClose | tests/sync/test_messages.py:341-350 | a blocked get raises EOFError once close is called |
| Scenarios.GetIterFailsWhenInterruptedByClose | tests/sync/test_messages.py:352-362 | a blocked get_iter raises EOFError once close is called, yielding nothing |
| Scenarios.GetFailsAfterClose | tests/sync/test_messages.py:364-368 | get after close raises EOFError |
| Scenarios.GetIterFailsAfterClose | tests/sync/test_messages.py:370-375 | get_iter after close raises EOFError, yielding nothing |
| Scenarios.PutFailsAfterClose | tests/sync/test_messages.py:377-381 | put after close raises EOFError and queues nothing |
| Scenarios.CloseIsIdempotent | tests/sync/test_messages.py:383-386 | closing twice leaves the assembler closed |
| Scenarios.GetFailsWhenGetIsRunning | tests/sync/test_messages.py:390-395 | get raises ConcurrencyError while another get is blocked; the blocked get then returns the message put |
| Scenarios.GetFailsWhenGetIterIsRunning | tests/sync/test_messages.py:397-402 | get raises ConcurrencyError while get_iter is blocked; get_iter then yields the message put, then stops |
| Scenarios.GetIterFailsWhenGetIsRunning | tests/sync/test_messages.py:404-409 | get_iter raises ConcurrencyError while get is blocked; get then returns the message put |
| Scenarios.GetIterFailsWhenGetIterIsRunning | tests/sync/test_messages.py:411-416 | get_iter raises ConcurrencyError while another get_iter is blocked; the first then yields the message put, then stops |
| Scenarios.SetHighWaterMark | tests/sync/test_messages.py:420-423 | with `high=10`, construction succeeds exactly for the low-water marks from 0 to 10, and keeps `high` |
| Scenarios.SetHighAndLowWaterMark | tests/sync/test_messages.py:425-429 | `high=10, low=5` gives marks 10 and 5 |
| Scenarios.SetInvalidHighWaterMark | tests/sync/test_messages.py:431-434 | `high=-1` raises ValueError whatever the low-water mark |
| Scenarios.SetInvalidLowWaterMark | tests/sync/test_messages.py:436-439 | `high=5, low=10` raises ValueError |
| Scenarios.GetTextMessageAlreadyReceived | tests/sync/test_messages.py:21-25 | get returns "café" |
| Scenarios.GetBinaryMessageAlreadyReceived | tests/sync/test_messages.py:27-31 | get returns b"tea" |
| Scenarios.GetTextMessageNotReceivedYet | tests/sync/test_messages.py:33-44 | the blocked get returns "café" |
| Scenarios.GetBinaryMessageNotReceivedYet | tests/sync/test_messages.py:46-57 | the blocked get returns b"tea" |
| Scenarios.GetFragmentedTextMessageAlreadyReceived | tests/sync/test_messages.py:59-65 | get returns "café" from three frames |
| Scenarios.GetFragmentedBinaryMessageAlreadyReceived | tests/sync/test_messages.py:67-73 | get returns b"tea" from three frames |
| Scenarios.GetFragmentedTextMessageNotReceivedYet | tests/sync/test_messages.py:75-88 | the blocked get returns "café" |
| Scenarios.GetFragmentedBinaryMessageNotReceivedYet | tests/sync/test_messages.py:90-103 | the blocked get returns b"tea" |
| Scenarios.GetFragmentedTextMessageBeingReceived | tests/sync/test_messages.py:105-118 | the blocked get returns "café" |
| Scenarios.GetFragmentedBinaryMessageBeingReceived | tests/sync/test_messages.py:120-133 | the blocked get returns b"tea" |
| Scenarios.GetEncodedTextMessage | tests/sync/test_messages.py:135-139 | get with `decode=False` returns b"caf\xc3\xa9" |
| Scenarios.GetDecodedBinaryMessage | tests/sync/test_messages.py:141-145 | get with `decode=True` returns "tea" |
| Scenarios.GetTimeoutBeforeFirstTextFrame | tests/sync/test_messages.py:165-173 | the first get raises TimeoutError and the second returns "café" |
| Scenarios.GetTimeoutAfterFirstTextFrame | tests/sync/test_messages.py:175-186 | the first get raises TimeoutError and the second returns "café" |
| Scenarios.GetIterTextMessageAlreadyReceived | tests/sync/test_messages.py:190-194 | get_iter yields ["café"] |
| Scenarios.GetIterBinaryMessageAlreadyReceived | tests/sync/test_messages.py:196-200 | get_iter yields [b"tea"] |
| Scenarios.GetIterTextMessageNotReceivedYet | tests/sync/test_messages.py:202-214 | the blocked get_iter yields ["café"] |
| Scenarios.GetIterBinaryMessageNotReceivedYet | tests/sync/test_messages.py:216-228 | the blocked get_iter yields [b"tea"] |
| Scenarios.GetIterFragmentedTextMessageAlreadyReceived | tests/sync/test_messages.py:230-236 | get_iter yields "ca", "f", "é" |
| Scenarios.GetIterFragmentedBinaryMessageAlreadyReceived | tests/sync/test_messages.py:238-244 | get_iter yields b"t", b"e", b"a" |
| Scenarios.GetIterFragmentedTextMessageNotReceivedYet | tests/sync/test_messages.py:246-254 | get_iter yields "ca", "f", "é" as the frames arrive |
| Scenarios.GetIterFragmentedBinaryMessageNotReceivedYet | tests/sync/test_messages.py:256-264 | get_iter yields b"t", b"e", b"a" as the frames arrive |
| Scenarios.GetIterFragmentedTextMessageBeingReceived | tests/sync/test_messages.py:266-274 | get_iter yields "ca", "f", "é" |
| Scenarios.GetIterFragmentedBinaryMessageBeingReceived | tests/sync/test_messages.py:276-284 | get_iter yields b"t", b"e", b"a" |
| Scenarios.GetIterEncodedTextMessage | tests/sync/test_messages.py:286-292 | get_iter with `decode=False` yields b"ca", b"f\xc3", b"\xa9" |
| Scenarios.GetIterDecodedBinaryMessage | tests/sync/test_messages.py:294-300 | get_iter with `decode=True` yields "t", "e", "a" |
| Scenarios.GetFailsWhenGetIsRunningWithEmptyText | tests/sync/test_messages.py:390-395 | the blocked get returns "" for the empty text frame put to unblock it |
| Scenarios.GetFailsWhenGetIterIsRunningWithEmptyText | tests/sync/test_messages.py:397-402 | get raises ConcurrencyError while get_iter is blocked; get_iter then yields [""] for the empty text frame put to unblock it, then stops |

## Left out

- Threads, locks and condition variables: a blocking call is a `Waiting` step, continued by stepping it again. Only the interleavings the tests use are replayed.
- Clocks: `get`'s timeout becomes the `timedOut` flag. A timeout that elapses before the call first blocks is not distinguished from one that elapses while it waits.
- The `pause` and `resume` callbacks: only the number of calls of each is kept. These counts are what the tests' mocks check.
- The default marks: `Create` takes both marks explicitly. A default `low` derived from `high`, and a `high` left unset to disable flow control, are not modelled. The tests that omit one mark (420-423, 431-434) are replayed for every value of the other.
- The pause threshold: pause is called when the queue holds more than `high` frames. The comment at line 331 calls the third of three queued frames, with `high=2`, "at the high-water mark", which reads as pausing at `high` frames; the calls checked at 326-337 pause only on that third frame, above `high`, and the model follows the calls.
- `high = 0`: the model pauses as soon as one frame is queued. A `high` of 0 that disables flow control is not modelled; no test case builds an assembler with it.
- Timeouts after frames were taken: `get` puts back the frames it took, so the next `get` sees the whole message (175-186). A `get` that dropped the frames it took on a timeout would make that next `get` return the wrong message, one starting at a continuation frame; the model puts them back, as the test requires.
- `Messages.Assembler.Restore`: putting frames back does not call `pause`, even when the queue then holds more than `high` frames.
- A `get` interrupted by `close` drops the frames it had taken.
- Order of the checks: `closed` is checked before the consumer role, so a call on a closed assembler raises EOFError even while another reader runs. No test case separates the two.
- Invalid UTF-8: `get` raises UnicodeDecodeError and releases the reader role after taking all of the message's frames. `get_iter` raises it at the frame that fails to decode and releases the reader role; the message's remaining frames stay queued, so a later `get` or `get_iter` takes them as a message of its own, starting at a continuation frame. No test case covers this, and the exception's message and the position it reports are not modelled.
- Frame validation: the checks that a message starts with a text or binary frame and continues with continuation frames are not modelled. The model relies on the frame reader to sequence frames correctly, which is not part of this model. Control frames never reach the assembler.
- Scenarios.GetIterMessageAlreadyReceived, Scenarios.GetIterMessageNotReceivedYet, Scenarios.GetIterFragmentedMessageAlreadyReceived, Scenarios.GetIterFragmentedMessageNotReceivedYet, Scenarios.GetIterFragmentedMessageBeingReceived, Scenarios.GetIterResumesReading, Scenarios.GetFailsWhenGetIterIsRunning, Scenarios.GetIterFailsWhenGetIterIsRunning: these require the frames to decode. The decoding failure path is stated by `Messages.FragmentIterator.Next`.
- Scenarios.GetIterFragmentedMessageNotReceivedYet, Scenarios.GetIterFragmentedMessageBeingReceived, Scenarios.GetIterResumesReading: like the tests they replay, these do not call `next` after the last fragment.
