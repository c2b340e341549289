/**
 * The scanner's module-level hold state as an object: the three variables
 * that `processScan`, `showScreen` and the button handlers update in place.
 * Every method is specified by the pure transition of the same name in
 * `HoldConfirm`, whose properties are proved there.
 */
module Scanner {
  import opened Wrappers
  import opened ColorDetection
  import opened HoldConfirm

  class HoldTracker {
    var isScanning: bool
    var heldColor: Option<Label>
    var holdStartTime: Option<int>

    /** The tracker's variables as a value. */
    function State(): HoldState
      reads this
    {
      HoldState(heldColor, holdStartTime, isScanning)
    }

    ghost predicate Valid()
      reads this
    {
      Consistent(State())
    }

    /** The variables as the page loads them: not scanning, nothing held. */
    constructor ()
      ensures Valid() && State() == Loaded
    {
      isScanning := false;
      heldColor := None;
      holdStartTime := None;
    }

    /**
     * `showScreen`: leaving for any screen but the scanning one drops the
     * hold, which makes the state valid again even when the caller has just
     * cleared `isScanning` with a label still held.
     */
    method ShowScreen(screen: Screen)
      modifies this
      ensures old(Valid()) ==> Valid()
      ensures screen != Scanning ==> Valid()
      ensures State() == HoldConfirm.ShowScreen(old(State()), screen)
    {
      if screen != Scanning {
        heldColor := None;
        holdStartTime := None;
      }
    }

    /** The start and back-to-scan buttons, once the camera is ready. */
    method StartScan()
      requires Valid()
      modifies this
      ensures Valid() && State() == HoldConfirm.StartScan(old(State()))
    {
      isScanning := true;
      ShowScreen(Scanning);
    }

    /** The stop button: scanning ends and the landing screen drops the hold. */
    method StopScan()
      modifies this
      ensures Valid() && State() == HoldConfirm.StopScan(old(State()))
    {
      isScanning := false;
      ShowScreen(Landing);
    }

    /**
     * The hold logic of one `processScan` frame, given the label of the
     * sampled pixel and the current time in milliseconds.
     */
    method Observe(color: Option<Label>, now: int) returns (out: Outcome)
      requires Valid()
      modifies this
      ensures Valid()
      ensures (State(), out) == Tick(old(State()), color, now)
    {
      if !isScanning {
        return NotScanning;
      }
      if color.Some? {
        if color != heldColor {
          heldColor := color;
          holdStartTime := Some(now);
        }
        var start := if holdStartTime.Some? then holdStartTime.value else 0;
        var elapsed := now - start;
        var remaining := Countdown(elapsed);
        if elapsed >= HoldDuration {
          isScanning := false;
          ShowScreen(Results);
          return Confirmed(color.value);
        }
        return Pending(remaining);
      } else {
        if heldColor.Some? {
          heldColor := None;
          holdStartTime := None;
        }
        return NoColor;
      }
    }

    /** One whole `processScan` frame: classify the sampled pixel, then run the hold logic on its label. */
    method ProcessScan(r: Channel, g: Channel, b: Channel, now: int) returns (out: Outcome)
      requires Valid()
      modifies this
      ensures Valid()
      ensures (State(), out) == Tick(old(State()), DetectColor(r, g, b), now)
    {
      out := Observe(DetectColor(r, g, b), now);
    }
  }

  /** A page that scans a red pixel for five seconds shows the red result and stops scanning. */
  method RedHeldFiveSeconds() returns (out: Outcome)
    ensures out == Confirmed(Red)
  {
    var tracker := new HoldTracker();
    tracker.StartScan();
    DarkRedPixel();
    out := tracker.ProcessScan(220, 30, 30, 1000);
    assert out == Pending(5);
    out := tracker.ProcessScan(220, 30, 30, 6000);
  }
}
