/**
 * The hold-to-confirm debouncer of the scanner, as pure state transitions.
 *
 * Each animation frame classifies one pixel and hands the label (or no
 * label) to the hold logic together with the current time in milliseconds.
 * A label must be read on every frame for `HoldDuration` milliseconds before
 * it is confirmed; a different label restarts the hold, and a frame with no
 * label drops it.
 */
module HoldConfirm {
  import opened Wrappers
  import opened ColorDetection

  /** How long, in milliseconds, one label must be held before it is confirmed. */
  const HoldDuration: int := 5000

  /**
   * The three module-level variables of the scanner: the label being held,
   * the time its hold started, and whether frames are being scanned.
   */
  datatype HoldState = HoldState(held: Option<Label>, since: Option<int>, scanning: bool)

  /** What one frame reports: skipped, no label read, the seconds still to hold, or a confirmed label. */
  datatype Outcome = NotScanning | NoColor | Pending(remaining: nat) | Confirmed(color: Label)

  datatype Screen = Landing | Scanning | Results

  /** One frame's reading: the label of the sampled pixel and the time it was taken. */
  datatype Reading = Reading(color: Option<Label>, now: int)

  /**
   * The state invariant: a label and its start time are set and cleared
   * together, and nothing is held while no scan is running.
   */
  ghost predicate Consistent(s: HoldState)
  {
    (s.held.None? <==> s.since.None?) && (!s.scanning ==> s.held.None?)
  }

  /** The state when the page loads. */
  const Loaded: HoldState := HoldState(None, None, false)

  /** `Math.ceil(x / 1000)` for an integer `x`: the least multiple of 1000 not below `x`, in thousands. */
  function CeilThousandths(x: int): (q: int)
    ensures (q - 1) * 1000 < x <= q * 1000
  {
    (x + 999) / 1000
  }

  /**
   * The whole seconds still to hold after `elapsed` milliseconds, never
   * negative: zero exactly when the hold is complete, and at most five while
   * the elapsed time is not negative.
   */
  function Countdown(elapsed: int): (n: nat)
    ensures n == 0 <==> elapsed >= HoldDuration
    ensures n > 0 ==> (n - 1) * 1000 < HoldDuration - elapsed <= n * 1000
    ensures elapsed >= 0 ==> n <= 5
  {
    var q := CeilThousandths(HoldDuration - elapsed);
    if q > 0 then q else 0
  }

  /** `showScreen`: any screen but the scanning one drops the hold; the scanning flag is untouched. */
  function ShowScreen(s: HoldState, screen: Screen): (t: HoldState)
    ensures Consistent(s) ==> Consistent(t)
    ensures screen != Scanning ==> Consistent(t)
    ensures t.scanning == s.scanning
    ensures screen != Scanning ==> t.held == None && t.since == None
    ensures screen == Scanning ==> t == s
  {
    if screen != Scanning then s.(held := None, since := None) else s
  }

  /** The start (and back-to-scan) button: scanning begins on the scanning screen, the hold kept as it was. */
  function StartScan(s: HoldState): (t: HoldState)
    ensures Consistent(s) ==> Consistent(t)
    ensures t.scanning && t.held == s.held && t.since == s.since
  {
    ShowScreen(s.(scanning := true), Scanning)
  }

  /** The stop button: scanning ends and the landing screen drops the hold. */
  function StopScan(s: HoldState): (t: HoldState)
    ensures t == Loaded
  {
    ShowScreen(s.(scanning := false), Landing)
  }

  /** The state right after the start button on a freshly loaded page. */
  const ScanStart: HoldState := StartScan(Loaded)

  /** The start time of the hold as the frame code reads it: JavaScript turns `null` into 0 in `now - null`. */
  function StartTime(s: HoldState): int
  {
    if s.since.Some? then s.since.value else 0
  }

  /**
   * One animation frame of `processScan`, from the label of the sampled
   * pixel on. Frames are skipped while no scan runs. A label different from
   * the held one starts a new hold at `now`, so it is never confirmed on
   * that frame. The held label is confirmed exactly when it has been held
   * for `HoldDuration` milliseconds; confirming stops the scan and the
   * results screen drops the hold. A frame with no label is never
   * confirmed and drops any hold.
   */
  function Tick(s: HoldState, color: Option<Label>, now: int): (r: (HoldState, Outcome))
    ensures Consistent(s) ==> Consistent(r.0)
    ensures !s.scanning ==> r == (s, NotScanning)
    ensures Consistent(s) ==>
              (r.1.Confirmed? <==>
                 s.scanning && color.Some? && color == s.held && now - s.since.value >= HoldDuration)
    ensures r.1.Confirmed? ==> color == Some(r.1.color) && r.0 == HoldState(None, None, false)
    ensures s.scanning && color.None? ==>
              r.1 == NoColor && r.0.scanning && r.0.held == None && (s.held == None ==> r.0 == s)
    ensures s.scanning && color.Some? && color != s.held ==>
              r == (HoldState(color, Some(now), true), Pending(5))
    ensures s.scanning && color.Some? && color == s.held && !r.1.Confirmed? ==>
              r.0 == s && r.1 == Pending(Countdown(now - StartTime(s)))
    ensures Consistent(s) && (s.since.Some? ==> s.since.value <= now) && r.1.Pending? ==>
              1 <= r.1.remaining <= 5
    ensures (s.since.Some? ==> s.since.value <= now) ==> (r.0.since.Some? ==> r.0.since.value <= now)
  {
    if !s.scanning then (s, NotScanning)
    else if color.Some? then
      var t := if color != s.held then s.(held := color, since := Some(now)) else s;
      var elapsed := now - StartTime(t);
      if elapsed >= HoldDuration then (ShowScreen(t.(scanning := false), Results), Confirmed(color.value))
      else (t, Pending(Countdown(elapsed)))
    else if s.held.Some? then (s.(held := None, since := None), NoColor)
    else (s, NoColor)
  }

  /** The state after feeding the readings `rs` to `Tick`, one frame each, in order. */
  function Run(s: HoldState, rs: seq<Reading>): (t: HoldState)
    ensures Consistent(s) ==> Consistent(t)
    decreases |rs|
  {
    if rs == [] then s
    else
      var last := rs[|rs| - 1];
      Tick(Run(s, rs[..|rs| - 1]), last.color, last.now).0
  }

  /** What the frame of reading `rs[k]` reports, after a scan started on a fresh page. */
  function OutcomeAt(rs: seq<Reading>, k: nat): Outcome
    requires k < |rs|
  {
    Tick(Run(ScanStart, rs[..k]), rs[k].color, rs[k].now).1
  }

  /** Frame times never go backwards. */
  ghost predicate Monotone(rs: seq<Reading>)
  {
    forall i, j :: 0 <= i <= j < |rs| ==> rs[i].now <= rs[j].now
  }

  /** Running one more reading is one more `Tick`. */
  lemma RunStep(s: HoldState, rs: seq<Reading>, k: nat)
    requires k < |rs|
    ensures Run(s, rs[..k + 1]) == Tick(Run(s, rs[..k]), rs[k].color, rs[k].now).0
  {
    assert rs[..k + 1][..k] == rs[..k];
  }

  /**
   * A held label has been read on every frame since its hold started: the
   * hold's start time is the time of some earlier reading, and that reading
   * and all later ones carry the held label.
   */
  lemma {:induction false} HoldWitness(rs: seq<Reading>)
    ensures var s := Run(ScanStart, rs);
            s.held.Some? ==>
              exists j :: 0 <= j < |rs| && s.since == Some(rs[j].now)
                          && forall i :: j <= i < |rs| ==> rs[i].color == s.held
  {
    if rs != [] {
      var n := |rs|;
      var pre, last := rs[..n - 1], rs[n - 1];
      var p := Run(ScanStart, pre);
      var s := Run(ScanStart, rs);
      assert s == Tick(p, last.color, last.now).0;
      HoldWitness(pre);
      if s.held.Some? {
        if last.color.Some? && last.color != p.held {
          assert s.since == Some(rs[n - 1].now);
          assert forall i :: n - 1 <= i < n ==> rs[i].color == s.held;
        } else {
          assert s == p && last.color == p.held;
          var j :| 0 <= j < n - 1 && p.since == Some(pre[j].now)
                   && forall i :: j <= i < n - 1 ==> pre[i].color == p.held;
          assert forall i :: j <= i < n ==> rs[i].color == s.held by {
            forall i | j <= i < n ensures rs[i].color == s.held {
              if i < n - 1 {
                assert pre[i] == rs[i];
              }
            }
          }
          assert s.since == Some(rs[j].now);
        }
      }
    }
  }

  /**
   * No confirmation without a steady hold: when the frame of reading `rs[k]`
   * confirms a label, that label was read on every frame from some earlier
   * reading `rs[j]` on, and at least `HoldDuration` milliseconds separate
   * the two readings.
   */
  lemma ConfirmedOnlyAfterSteadyHold(rs: seq<Reading>, k: nat)
    requires k < |rs| && OutcomeAt(rs, k).Confirmed?
    ensures var c := OutcomeAt(rs, k).color;
            exists j :: 0 <= j < k && rs[k].now - rs[j].now >= HoldDuration
                        && forall i :: j <= i <= k ==> rs[i].color == Some(c)
  {
    var c := OutcomeAt(rs, k).color;
    var pre := rs[..k];
    var p := Run(ScanStart, pre);
    assert p.held == Some(c) && rs[k].now - p.since.value >= HoldDuration;
    HoldWitness(pre);
    var j :| 0 <= j < k && p.since == Some(pre[j].now)
             && forall i :: j <= i < k ==> pre[i].color == p.held;
    assert forall i :: j <= i <= k ==> rs[i].color == Some(c) by {
      forall i | j <= i <= k ensures rs[i].color == Some(c) {
        if i < k {
          assert pre[i] == rs[i];
        }
      }
    }
    assert rs[k].now - rs[j].now >= HoldDuration;
  }

  /** With frame times that never go backwards, a hold's start time is never after the frame being read. */
  lemma HoldNotInFuture(rs: seq<Reading>, k: nat)
    requires Monotone(rs) && k < |rs|
    ensures var p := Run(ScanStart, rs[..k]);
            p.since.Some? ==> p.since.value <= rs[k].now
  {
    var pre := rs[..k];
    var p := Run(ScanStart, pre);
    HoldWitness(pre);
    if p.since.Some? {
      var j :| 0 <= j < k && p.since == Some(pre[j].now)
               && forall i :: j <= i < k ==> pre[i].color == p.held;
      assert pre[j] == rs[j];
    }
  }

  /** With frame times that never go backwards, every countdown shown is between one and five seconds. */
  lemma CountdownWithinFive(rs: seq<Reading>, k: nat)
    requires Monotone(rs) && k < |rs| && OutcomeAt(rs, k).Pending?
    ensures 1 <= OutcomeAt(rs, k).remaining <= 5
  {
    HoldNotInFuture(rs, k);
  }

  /**
   * While one label `c` is read on every frame from reading `rs[j]` on, the
   * scan either has confirmed `c` already or is still holding `c`, with a
   * start time no later than that of `rs[j]`.
   */
  lemma {:induction false} HoldOrConfirmed(rs: seq<Reading>, j: nat, m: nat, c: Label)
    requires Monotone(rs) && j <= m < |rs|
    requires Run(ScanStart, rs[..j]).scanning
    requires forall i :: j <= i <= m ==> rs[i].color == Some(c)
    ensures (exists i :: j <= i <= m && OutcomeAt(rs, i) == Confirmed(c))
            || (var s := Run(ScanStart, rs[..m + 1]);
                s.scanning && s.held == Some(c) && s.since.Some? && s.since.value <= rs[j].now)
    decreases m - j
  {
    RunStep(ScanStart, rs, m);
    if m == j {
      HoldNotInFuture(rs, j);
      if OutcomeAt(rs, j) == Confirmed(c) {
        assert j <= j <= m;
      }
    } else {
      HoldOrConfirmed(rs, j, m - 1, c);
      assert m - 1 + 1 == m;
      if OutcomeAt(rs, m) == Confirmed(c) {
        assert j <= m <= m;
      }
    }
  }

  /**
   * A steady hold is confirmed: when a scan is running at reading `rs[j]`
   * and label `c` is read on every frame from `rs[j]` to a reading `rs[k]`
   * taken at least `HoldDuration` milliseconds later, one of those frames
   * confirms `c`.
   */
  lemma SteadyHoldConfirms(rs: seq<Reading>, j: nat, k: nat, c: Label)
    requires Monotone(rs) && j <= k < |rs|
    requires Run(ScanStart, rs[..j]).scanning
    requires forall i :: j <= i <= k ==> rs[i].color == Some(c)
    requires rs[k].now - rs[j].now >= HoldDuration
    ensures exists i :: j <= i <= k && OutcomeAt(rs, i) == Confirmed(c)
  {
    HoldOrConfirmed(rs, j, k - 1, c);
    if !exists i :: j <= i <= k - 1 && OutcomeAt(rs, i) == Confirmed(c) {
      assert k - 1 + 1 == k;
      assert OutcomeAt(rs, k) == Confirmed(c);
    }
  }

  /** Red read from 0 ms on counts down 5, 4, 3, 2, 1, 1 and is confirmed at exactly 5000 ms. */
  lemma SteadyRedScenario()
    ensures var t1 := Tick(ScanStart, Some(Red), 0);
            var t2 := Tick(t1.0, Some(Red), 1000);
            var t3 := Tick(t2.0, Some(Red), 2000);
            var t4 := Tick(t3.0, Some(Red), 3000);
            var t5 := Tick(t4.0, Some(Red), 4000);
            var t6 := Tick(t5.0, Some(Red), 4999);
            var t7 := Tick(t6.0, Some(Red), 5000);
            t1.1 == Pending(5) && t2.1 == Pending(4) && t3.1 == Pending(3) && t4.1 == Pending(2)
            && t5.1 == Pending(1) && t6.1 == Pending(1) && t7 == (Loaded, Confirmed(Red))
  {
  }

  /** A frame with no label in between restarts the hold: confirmation comes at 7002 ms, not 5002 ms. */
  lemma InterruptedRedScenario()
    ensures var t1 := Tick(ScanStart, Some(Red), 0);
            var t2 := Tick(t1.0, Some(Red), 2000);
            var t3 := Tick(t2.0, None, 2001);
            var t4 := Tick(t3.0, Some(Red), 2002);
            var t5 := Tick(t4.0, Some(Red), 5002);
            var t6 := Tick(t5.0, Some(Red), 7002);
            t3.1 == NoColor && t3.0 == ScanStart
            && t4 == (HoldState(Some(Red), Some(2002), true), Pending(5))
            && t5.1 == Pending(2) && t6 == (Loaded, Confirmed(Red))
  {
  }

  /** Switching from red to yellow restarts the hold for yellow at the time of the switch. */
  lemma SwitchedLabelScenario()
    ensures var t1 := Tick(ScanStart, Some(Red), 0);
            var t2 := Tick(t1.0, Some(Yellow), 3000);
            t2 == (HoldState(Some(Yellow), Some(3000), true), Pending(5))
  {
  }
}
