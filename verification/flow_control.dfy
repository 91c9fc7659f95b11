/**
 * Flow control between the assembler and the connection that feeds it.
 * When more than `high` frames are queued the producer is asked to pause;
 * once the queue is back down to `low` frames it is asked to resume. Both
 * calls are edge-triggered by the `paused` flag: a call happens only when
 * the flag flips, however far past a mark the queue then moves.
 *
 * The two callbacks are modelled by how many times each has been called.
 */
module FlowControl {

  datatype Flow = Flow(paused: bool, pauses: nat, resumes: nat)

  /** The initial state: not paused, neither callback called. */
  const Initial := Flow(false, 0, 0)

  /** pause and resume alternate, starting with pause: each resume answers one earlier pause. */
  predicate Alternating(f: Flow)
  {
    f.pauses == f.resumes + (if f.paused then 1 else 0)
  }

  /** The check made after a frame is queued, leaving `depth` frames in the queue. */
  function MaybePause(f: Flow, depth: nat, high: nat): (r: Flow)
    ensures Alternating(f) ==> Alternating(r)
    ensures r.resumes == f.resumes
    ensures r.paused <==> f.paused || depth > high
  {
    if depth > high && !f.paused then Flow(true, f.pauses + 1, f.resumes) else f
  }

  /** The check made after a frame is dequeued, leaving `depth` frames in the queue. */
  function MaybeResume(f: Flow, depth: nat, low: nat): (r: Flow)
    ensures Alternating(f) ==> Alternating(r)
    ensures r.pauses == f.pauses
    ensures r.paused <==> f.paused && depth > low
  {
    if depth <= low && f.paused then Flow(false, f.pauses, f.resumes + 1) else f
  }

  /** The state after `n` frames are queued one by one onto `depth` queued frames. */
  function AfterPuts(f: Flow, depth: nat, n: nat, high: nat): (r: Flow)
    decreases n
  {
    if n == 0 then f else MaybePause(AfterPuts(f, depth, n - 1, high), depth + n, high)
  }

  /** The state after `n` frames are dequeued one by one from `depth` queued frames. */
  function AfterTakes(f: Flow, depth: nat, n: nat, low: nat): (r: Flow)
    requires n <= depth
    decreases n
  {
    if n == 0 then f else MaybeResume(AfterTakes(f, depth, n - 1, low), depth - n, low)
  }

  /**
   * pause is edge-triggered: however many frames are queued, it is called
   * once, when the queue first grows past `high`, and only if the producer
   * was not paused already.
   */
  lemma {:induction false} PauseOnce(f: Flow, depth: nat, n: nat, high: nat)
    requires 0 < n
    ensures AfterPuts(f, depth, n, high) ==
      Flow(f.paused || depth + n > high,
           f.pauses + (if !f.paused && depth + n > high then 1 else 0),
           f.resumes)
    decreases n
  {
    if n > 1 {
      PauseOnce(f, depth, n - 1, high);
    }
  }

  /**
   * resume is edge-triggered: however many frames are dequeued, it is called
   * once, when the queue first drops to `low`, and only if the producer was
   * paused. A paused producer always has more than `low` frames queued.
   */
  lemma {:induction false} ResumeOnce(f: Flow, depth: nat, n: nat, low: nat)
    requires n <= depth
    requires f.paused ==> depth > low
    ensures AfterTakes(f, depth, n, low) ==
      Flow(f.paused && depth - n > low,
           f.pauses,
           f.resumes + (if f.paused && depth - n <= low then 1 else 0))
    decreases n
  {
    if n > 0 {
      ResumeOnce(f, depth, n - 1, low);
    }
  }
}
