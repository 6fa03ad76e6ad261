# Face presence guard — Dafny model

`face.py` watches the default camera and locks every workstation session once no
face has been seen for a while. Its `main()` loop reads a frame. It skips the
frame if the read failed. Otherwise it runs the face detector. A frame without
faces adds one to `no_face_count`, and a frame with a face clears it. When the
counter reaches 50, the loop starts the lock script and clears the counter. The
loop runs until a keyboard interrupt; then the capture is released. If the
camera does not open, `main()` returns before the loop.

This project (`face.dfy`, module `Face`) models that loop and the capture's
lifecycle:

- `Read` is the outcome of one `cap.read()` plus detection: `Frame(faces)` carries
  the number of detected faces (`len(faces)`), and `ReadFail` is a failed read.
- `Observe` is one iteration, as a function. `Run` is the loop over a finite
  sequence of reads. Its result is the final counter and the indices of the reads
  on which the lock script was started. `AbsentStreak` is an independent
  definition of "face-less frames since the last face, or since the start".
- `Capture` is the `cv2.VideoCapture` handle. `isOpened` is what `cap.isOpened()`
  reports, and `releaseCount` counts calls to `cap.release()`. A ghost log
  `events` records, in order, each lock request and the release.
- `MonitorSession` is `main()`. It creates the capture, and its `while` loop does
  the source's work step by step. The loop is proved to compute `Run`. The
  keyboard interrupt is the end of the read sequence.

The threshold is the constant `THRESHOLD == 50`, and the lock test keeps the
source's `>=`.

## Model

| member | source | states |
|---|---|---|
| `Face.Observe` | face.py:37-56 | after a delivered frame the counter is below 50; a lock is only requested on a face-less frame and always leaves the counter at 0 |
| `Face.Run` | face.py:35-56 | from a counter below 50 the counter stays below 50 after every iteration; lock requests are made at most once per read, in read order, and only on face-less frames |
| `Face.EmptyFrameIncrements` | face.py:46-47 | a face-less frame below the threshold raises the counter by exactly one and requests no lock |
| `Face.FaceClearsCounter` | face.py:49-50 | a frame with at least one face sets the counter to 0 whatever its previous value, with no lock |
| `Face.ThresholdLocksAndClears` | face.py:53-56 | the face-less frame that brings the counter to 50 requests exactly one lock and resets the counter to 0 |
| `Face.ReadFailIsSkipped` | face.py:38-41 | a failed read leaves the counter unchanged and requests no lock |
| `Face.AtLeastActsAsEquals` | face.py:46-56 | on every counter value the loop can reach (0 to 49), the `>= 50` test fires exactly when a face-less frame brings the counter to 50 |
| `Face.RunPrefix` | face.py:37-56 | the lock requests of a prefix of the reads are a prefix of the lock requests of the whole run: later reads never undo earlier decisions |
| `Face.CounterIsStreakModThreshold` | face.py:35-56 | starting from 0, the counter after any run equals the number of face-less frames since the last face (or the start) modulo 50 |
| `Face.LockIffStreakReachesMultiple` | face.py:46-56 | starting from 0, a lock is requested on read i if and only if read i is a face-less frame that brings that streak to a multiple of 50 |
| `Face.ReadFailsAreTransparent` | face.py:38-56 | dropping every failed read from the input changes neither the final counter nor the number of locks: a failed read is not an absence |
| `Face.Capture.constructor` | face.py:29 | a new capture reports the given open status, has not been released and has an empty event log |
| `Face.Capture.Release` | face.py:62 | releasing the capture adds one release and appends `Released` to the event log |
| `Face.MonitorSession` | face.py:29-63 | the capture is created inside the call. If it fails to open, no read is processed, no lock is requested and the capture is not released. Otherwise the loop yields the counter and lock requests of `Run` from 0. The event log is then exactly those lock requests, in read order, followed by a single `Released`. So the release comes after the loop, happens once, and is never followed by a lock request |
| `Face.SustainedAbsence` | face.py:46-56 | from 0, N face-less frames in a row request exactly floor(N/50) locks, on reads 49, 99, 149, ..., and leave N mod 50 in the counter |

## Left out

- Face detection (`CascadeClassifier`, `cvtColor`, `detectMultiScale`) is a foreign library. Only its result is modelled, as the face count of a `Frame`.
- Camera I/O (`cv2.VideoCapture`, `cap.read()`) is modelled as an input sequence of reads. `cv2.destroyAllWindows()` is window teardown and is not modelled.
- `lock_all_sessions`: starting the PowerShell script with `subprocess.Popen` and catching its failure is an OS process spawn. It is modelled only as a lock request: the read index is added to `locks`, and a `LockRequested` event is appended to the ordered event log. Its outcome never affects the counter.
- Logging (`setup_logging` and every `logger` call) is file output with no effect on control flow.
- `time.sleep(0.1)` is wall-clock pacing. The model counts frames, not seconds.
- `KeyboardInterrupt` is an asynchronous signal. It is modelled only as the end of a finite read sequence, that is, between two iterations. An interrupt that lands inside an iteration (for example, after the counter update but before the lock test) is not modelled.
- Exceptions other than `KeyboardInterrupt` raised inside the loop (for example, by OpenCV on a malformed frame) are not modelled. In `face.py` they escape `main()` without reaching `cap.release()`. A design in which the capture is released on every exit path would differ from this code. The model follows the code and covers only the interrupt exit.
- The camera index is fixed at 0 and the threshold at 50 frames, as in `face.py`. There is no delay-to-frames conversion, no camera selector, and no start/stop controller that could be started twice. Those are not part of this model because `face.py` does not have them.
