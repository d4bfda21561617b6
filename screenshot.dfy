/**
 * The retry loop of `capture_screenshot` (learn.py).  The network and
 * the file system are not modelled: what each attempt observes is given
 * as `outcome(k)` for attempt k (counted from 0).
 */
module Screenshot {

  /** What one pass through the `try` block observes. */
  datatype AttemptOutcome =
    | Response(status: int, writeCompleted: bool)  // `requests.get` returned; on a 200, whether opening the file and streaming the body to it finished without raising
    | RequestRaised                                // `requests.get` raised

  /** The attempt returns `True`: status 200 and the whole body written. */
  predicate Succeeds(o: AttemptOutcome)
  {
    o.Response? && o.status == 200 && o.writeCompleted
  }

  /**
   * The attempt reaches `open(output_path, 'wb')` (status 200); whether
   * `open` itself then succeeds is part of `writeCompleted`.
   */
  predicate CallsOpen(o: AttemptOutcome)
  {
    o.Response? && o.status == 200
  }

  /** One of the first `retries` attempts succeeds. */
  predicate CaptureSucceeds(retries: int, outcome: nat -> AttemptOutcome)
  {
    exists k: nat :: k < retries && Succeeds(outcome(k))
  }

  /**
   * `capture_screenshot(url, width, height, output_path, retries)`.
   * `attempts` counts the requests made, `sleeps` the calls of
   * `time.sleep(2)`, and `openCalled` says whether some attempt reached the
   * `open` of the output file.
   */
  method CaptureScreenshot(retries: int, outcome: nat -> AttemptOutcome)
    returns (ok: bool, attempts: nat, sleeps: nat, openCalled: bool)
    ensures ok == CaptureSucceeds(retries, outcome)
    ensures ok ==> 0 < attempts <= retries && Succeeds(outcome(attempts - 1))
    ensures !ok ==> attempts == if retries > 0 then retries else 0
    ensures forall k: nat :: k < attempts - 1 ==> !Succeeds(outcome(k))
    ensures sleeps == if ok then attempts - 1 else attempts
    ensures openCalled <==> exists k: nat :: k < attempts && CallsOpen(outcome(k))
  {
    var attempt: nat := 0;
    sleeps, openCalled := 0, false;
    while attempt < retries
      invariant retries > 0 ==> attempt <= retries
      invariant retries <= 0 ==> attempt == 0
      invariant forall k: nat :: k < attempt ==> !Succeeds(outcome(k))
      invariant sleeps == attempt
      invariant openCalled <==> exists k: nat :: k < attempt && CallsOpen(outcome(k))
    {
      var o := outcome(attempt);
      if o.Response? && o.status == 200 {
        openCalled := true;
        if o.writeCompleted {
          return true, attempt + 1, sleeps, openCalled;
        }
        // the write raised: the handler reports it and the loop retries
      }
      attempt := attempt + 1;
      sleeps := sleeps + 1;
    }
    ok, attempts := false, attempt;
  }

  /** A run where every attempt gets HTTP 404 fails after three attempts without writing anything. */
  method AllAttemptsNotFound() returns (ok: bool, attempts: nat, openCalled: bool)
    ensures !ok && attempts == 3 && !openCalled
  {
    var sleeps;
    ok, attempts, sleeps, openCalled := CaptureScreenshot(3, _ => Response(404, false));
  }
}
