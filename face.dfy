/**
 * The presence guard of face.py: a loop that reads camera frames, counts
 * consecutive frames in which the detector finds no face, and asks the
 * operating system to lock all sessions once that count reaches 50.
 *
 * The face detector, the camera device, the lock script and the log are
 * outside the model: a read is given as its outcome (a frame together with
 * the number of faces found in it, or a failed read), and a lock request is
 * recorded as the index of the read on which it was made.
 */
module Face {

  /** Number of consecutive face-less frames after which a lock is requested. */
  const THRESHOLD: nat := 50

  /** Outcome of one `cap.read()` followed by face detection. */
  datatype Read =
    | Frame(faces: nat)   // a frame was captured; `faces` regions were detected in it
    | ReadFail            // `cap.read()` reported failure

  predicate IsEmptyFrame(r: Read) {
    r.Frame? && r.faces == 0
  }

  /** Counter value and lock decision after one loop iteration. */
  datatype Step = Step(count: nat, lock: bool)

  /** Counter value after a run of reads, and the indices of the reads on which a lock was requested. */
  datatype Trace = Trace(count: nat, locks: seq<nat>)

  predicate Increasing(s: seq<nat>) {
    forall j, k :: 0 <= j < k < |s| ==> s[j] < s[k]
  }

  // ---------------------------------------------------------------------
  // Specification of the loop
  // ---------------------------------------------------------------------

  /**
   * One iteration of the loop, on the counter `count` and the read `r`.
   * A failed read is skipped; otherwise the counter is bumped or cleared and,
   * when it has reached the threshold (tested with `>=`), a lock is requested
   * and the counter is cleared.
   */
  function Observe(count: nat, r: Read): (s: Step)
    ensures r.Frame? ==> s.count < THRESHOLD
    ensures s.lock ==> IsEmptyFrame(r) && s.count == 0
  {
    match r
    case ReadFail => Step(count, false)
    case Frame(faces) =>
      var c := if faces == 0 then count + 1 else 0;
      if c >= THRESHOLD then Step(0, true) else Step(c, false)
  }

  /**
   * The loop run over `history`, starting from counter `count`. Defined on the
   * last read so that a prefix of the reads is a prefix of the run.
   */
  function Run(count: nat, history: seq<Read>): (t: Trace)
    ensures count < THRESHOLD ==> t.count < THRESHOLD
    ensures Increasing(t.locks)
    ensures forall k :: 0 <= k < |t.locks| ==> t.locks[k] < |history|
    ensures forall k :: 0 <= k < |t.locks| ==> IsEmptyFrame(history[t.locks[k]])
    decreases |history|
  {
    if history == [] then Trace(count, [])
    else
      var n := |history| - 1;
      var prev := Run(count, history[..n]);
      var s := Observe(prev.count, history[n]);
      Trace(s.count, if s.lock then prev.locks + [n] else prev.locks)
  }

  /**
   * Reference definition: the number of face-less frames since the last frame
   * with a face, or since the start. Failed reads are not frames and neither
   * extend nor break the streak.
   */
  function AbsentStreak(history: seq<Read>): (streak: nat)
    decreases |history|
  {
    if history == [] then 0
    else
      var n := |history| - 1;
      match history[n]
      case ReadFail => AbsentStreak(history[..n])
      case Frame(faces) => if faces == 0 then AbsentStreak(history[..n]) + 1 else 0
  }

  /** The reads that delivered a frame, in order. */
  function Frames(history: seq<Read>): (fs: seq<Read>)
    ensures |fs| <= |history|
    ensures forall k :: 0 <= k < |fs| ==> fs[k].Frame?
    decreases |history|
  {
    if history == [] then []
    else
      var n := |history| - 1;
      if history[n].ReadFail? then Frames(history[..n]) else Frames(history[..n]) + [history[n]]
  }

  /** The lock positions of an uninterrupted absence of `n` frames: reads 49, 99, 149, ... */
  function EveryThreshold(n: nat): (ps: seq<nat>) {
    seq(n / THRESHOLD, k => THRESHOLD * (k + 1) - 1)
  }

  // ---------------------------------------------------------------------
  // Properties of a single iteration
  // ---------------------------------------------------------------------

  /** A face-less frame below the threshold adds exactly one to the counter and requests no lock. */
  lemma EmptyFrameIncrements(count: nat)
    requires count + 1 < THRESHOLD
    ensures Observe(count, Frame(0)) == Step(count + 1, false)
  {
  }

  /** A frame with at least one face clears the counter, whatever it was, and requests no lock. */
  lemma FaceClearsCounter(count: nat, faces: nat)
    requires faces > 0
    ensures Observe(count, Frame(faces)) == Step(0, false)
  {
  }

  /** The face-less frame that brings the counter to the threshold requests one lock and clears the counter. */
  lemma ThresholdLocksAndClears(count: nat)
    requires count + 1 == THRESHOLD
    ensures Observe(count, Frame(0)) == Step(0, true)
  {
  }

  /** A failed read neither changes the counter nor requests a lock. */
  lemma ReadFailIsSkipped(count: nat)
    ensures Observe(count, ReadFail) == Step(count, false)
  {
  }

  /** On every counter value the loop can reach, the `>=` test fires exactly when the counter hits 50. */
  lemma AtLeastActsAsEquals(count: nat, r: Read)
    requires count < THRESHOLD
    ensures Observe(count, r).lock <==> IsEmptyFrame(r) && count + 1 == THRESHOLD
  {
  }

  // ---------------------------------------------------------------------
  // Properties of a whole run
  // ---------------------------------------------------------------------

  /** A prefix of the reads yields a prefix of the lock requests. */
  lemma {:induction false} RunPrefix(count: nat, history: seq<Read>, m: nat)
    requires m <= |history|
    ensures Run(count, history[..m]).locks <= Run(count, history).locks
    decreases |history|
  {
    if m < |history| {
      var n := |history| - 1;
      RunPrefix(count, history[..n], m);
      assert history[..n][..m] == history[..m];
    } else {
      assert history[..m] == history;
    }
  }

  /**
   * Starting from 0, the counter after any run equals the current absence
   * streak modulo the threshold.
   */
  lemma {:induction false} CounterIsStreakModThreshold(history: seq<Read>)
    ensures Run(0, history).count == AbsentStreak(history) % THRESHOLD
    decreases |history|
  {
    if history != [] {
      var n := |history| - 1;
      CounterIsStreakModThreshold(history[..n]);
    }
  }

  /**
   * Starting from 0, a lock is requested on read `i` exactly when read `i` is a
   * face-less frame that brings the absence streak to a multiple of 50.
   */
  lemma {:induction false} LockIffStreakReachesMultiple(history: seq<Read>, i: nat)
    requires i < |history|
    ensures i in Run(0, history).locks
        <==> IsEmptyFrame(history[i]) && AbsentStreak(history[..i + 1]) % THRESHOLD == 0
    decreases |history|
  {
    var n := |history| - 1;
    var prev := Run(0, history[..n]);
    if i < n {
      LockIffStreakReachesMultiple(history[..n], i);
      assert history[..n][..i + 1] == history[..i + 1];
      assert history[..n][i] == history[i];
    } else {
      assert history[..i + 1] == history;
      assert i !in prev.locks;
      CounterIsStreakModThreshold(history[..n]);
    }
  }

  /** The counter after a run depends only on the frames: failed reads leave no trace in it. */
  lemma {:induction false} ReadFailsAreTransparent(count: nat, history: seq<Read>)
    ensures Run(count, Frames(history)).count == Run(count, history).count
    ensures |Run(count, Frames(history)).locks| == |Run(count, history).locks|
    decreases |history|
  {
    if history != [] {
      var n := |history| - 1;
      ReadFailsAreTransparent(count, history[..n]);
      if history[n].Frame? {
        var fs := Frames(history[..n]) + [history[n]];
        assert fs[..|fs| - 1] == Frames(history[..n]);
      }
    }
  }

  lemma NextDivMod(n: nat)
    ensures (n + 1) % THRESHOLD == (if n % THRESHOLD == THRESHOLD - 1 then 0 else n % THRESHOLD + 1)
    ensures (n + 1) / THRESHOLD == (if n % THRESHOLD == THRESHOLD - 1 then n / THRESHOLD + 1 else n / THRESHOLD)
  {
  }

  /**
   * From a cleared counter, N face-less frames in a row request exactly
   * floor(N / 50) locks, on reads 49, 99, ..., and leave N mod 50 in the counter.
   */
  lemma {:induction false} SustainedAbsence(history: seq<Read>)
    requires forall k :: 0 <= k < |history| ==> history[k] == Frame(0)
    ensures Run(0, history) == Trace(|history| % THRESHOLD, EveryThreshold(|history|))
    ensures |Run(0, history).locks| == |history| / THRESHOLD
    decreases |history|
  {
    if history != [] {
      var n := |history| - 1;
      SustainedAbsence(history[..n]);
      NextDivMod(n);
      var prev := EveryThreshold(n);
      if n % THRESHOLD == THRESHOLD - 1 {
        assert EveryThreshold(n + 1) == prev + [n];
      } else {
        assert EveryThreshold(n + 1) == prev;
      }
    }
  }

  // ---------------------------------------------------------------------
  // The loop and the session (main() in face.py)
  // ---------------------------------------------------------------------

  /** What the session does to the outside world, in order. */
  datatype Event =
    | LockRequested(read: nat)  // lock_all_sessions was called on read `read`
    | Released                  // cap.release() was called

  /** The lock requests made on the reads `locks`, in order. */
  function LockEvents(locks: seq<nat>): (es: seq<Event>)
  {
    seq(|locks|, k requires 0 <= k < |locks| => LockRequested(locks[k]))
  }

  /** The capture device handle opened by `cv2.VideoCapture(0)`. */
  class Capture {
    /** What `cap.isOpened()` reports. */
    const isOpened: bool
    /** How many times `cap.release()` has been called. */
    var releaseCount: nat
    /** The session's lock requests and the release of this capture, in the order they happened. */
    ghost var events: seq<Event>

    constructor (opens: bool)
      ensures isOpened == opens && releaseCount == 0 && events == []
    {
      isOpened := opens;
      releaseCount := 0;
      events := [];
    }

    method Release()
      modifies this
      ensures releaseCount == old(releaseCount) + 1
      ensures events == old(events) + [Released]
    {
      releaseCount := releaseCount + 1;
      events := events + [Released];
    }
  }

  /** How main() ends. */
  datatype Exit =
    | CameraNotOpened                          // returned before the loop
    | Interrupted(count: nat, locks: seq<nat>) // left the loop on KeyboardInterrupt

  /**
   * main(): open the capture and give up if it did not open; otherwise run the
   * `while True` loop over the reads made before the keyboard interrupt,
   * requesting a lock each time the counter reaches the threshold, and release
   * the capture once the loop is over.
   */
  method MonitorSession(opens: bool, history: seq<Read>) returns (cap: Capture, exit: Exit)
    ensures fresh(cap) && cap.isOpened == opens
    ensures !opens ==> exit == CameraNotOpened && cap.releaseCount == 0 && cap.events == []
    ensures opens ==> exit == Interrupted(Run(0, history).count, Run(0, history).locks)
    ensures opens ==> cap.releaseCount == 1
    ensures opens ==> cap.events == LockEvents(Run(0, history).locks) + [Released]
  {
    cap := new Capture(opens);
    if !cap.isOpened {
      return cap, CameraNotOpened;
    }
    var count: nat := 0;
    var locks: seq<nat> := [];
    var i := 0;
    while i < |history|
      invariant i <= |history|
      invariant Trace(count, locks) == Run(0, history[..i])
      invariant cap.releaseCount == 0
      invariant cap.events == LockEvents(locks)
    {
      var r := history[i];
      assert history[..i + 1][..i] == history[..i];
      if r.ReadFail? {
        i := i + 1;
        continue;
      }
      if r.faces == 0 {
        count := count + 1;
      } else {
        count := 0;
      }
      if count >= THRESHOLD {
        // lock_all_sessions: start the lock script, fire-and-forget
        cap.events := cap.events + [LockRequested(i)];
        assert LockEvents(locks + [i]) == LockEvents(locks) + [LockRequested(i)];
        locks := locks + [i];
        count := 0;
      }
      i := i + 1;
    }
    assert history[..i] == history;
    cap.Release();
    exit := Interrupted(count, locks);
  }
}
