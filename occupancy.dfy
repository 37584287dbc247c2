/**
 * The occupancy state machine of the per-frame loop in `infer_on_stream`
 * (main.py:91-223), written as functions on a state value. One call of
 * `Next` is one successfully inferred frame. The class in people_counter.dfy
 * runs the same steps imperatively and is proved to agree with `Next`.
 *
 * A frame is reduced to its people count and the clock reading `now`
 * (an integer tick standing in for `time.time()`). The confirmation window
 * is the parameter `k`; the program uses the literal `ConfirmFrames`.
 */
module Occupancy {
  import opened Wrappers
  import opened Rounding

  /** Consecutive consistent frames needed to flip presence (main.py:196, 204). */
  const ConfirmFrames: nat := 20

  /** The loop's long-lived locals (main.py:94-107). */
  datatype State = State(
    present: bool,   // is_person_in_frame
    detRun: nat,     // frame_detection_counter
    emptyRun: nat,   // none_detection_counter
    lastCount: nat,  // last_count_of_people_in_frame
    total: nat,      // total_people_count
    tracker: int,    // time_tracker
    timeAvg: int,    // time_avg
    duration: int)   // duration

  /** The values the locals start with (main.py:94-107). */
  function Init(): State { State(false, 0, 0, 0, 0, 0, 0, 0) }

  /** One inferred frame: its people count and the clock reading. */
  datatype Frame = Frame(count: nat, now: int)

  /** What a frame does to presence: nothing, start an episode, or end one. */
  datatype Event = Quiet | Started(at: int) | Ended(elapsed: int, peak: nat)

  /** The payloads published for a frame (main.py:221-223). */
  datatype PersonMsg = PersonMsg(count: nat, total: nat)
  datatype Publication = Publication(person: PersonMsg, duration: Option<int>)

  /** What holds of the locals after every frame, for a window k >= 1. */
  predicate Inv(s: State, k: nat)
  {
    && (s.detRun == 0 || s.emptyRun == 0)
    && (!s.present ==> s.detRun < k && s.tracker == 0)
    && (s.present ==> s.emptyRun < k && s.lastCount >= 1)
    && (s.total == 0 ==> s.timeAvg == 0 && s.duration == 0)
    && (s.total > 0 ==> s.duration == RoundDiv(s.timeAvg, s.total))
  }

  /** Peak update and run-length update (main.py:179-190). */
  function Counted(s: State, count: nat): State
  {
    s.(lastCount := if s.lastCount < count then count else s.lastCount,
       detRun := if count > 0 then s.detRun + 1 else 0,
       emptyRun := if count > 0 then 0 else s.emptyRun + 1)
  }

  /** Which branch of the `if`/`elif` at main.py:196-215 the frame takes. */
  function EventOf(s: State, f: Frame, k: nat): Event
  {
    var c := Counted(s, f.count);
    if c.detRun == k && !c.present then Started(f.now)
    else if c.emptyRun == k && c.present then Ended(f.now - c.tracker, c.lastCount)
    else Quiet
  }

  /** The state after one inferred frame (main.py:168-215). The division at
      main.py:211 is reached only with a positive divisor: RoundDiv's
      precondition is proved here from Inv. */
  function Next(s: State, f: Frame, k: nat): (r: State)
    requires k >= 1 && Inv(s, k)
    ensures Inv(r, k)
  {
    var c := Counted(s, f.count);
    match EventOf(s, f, k)
    case Started(at) =>
      c.(present := true, tracker := at, detRun := 0, emptyRun := 0)
    case Ended(elapsed, peak) =>
      var total := c.total + peak;
      c.(present := false, total := total, timeAvg := c.timeAvg + elapsed,
         duration := RoundDiv(c.timeAvg + elapsed, total),
         detRun := 0, emptyRun := 0, tracker := 0)
    case Quiet => c
  }

  /** The state after a sequence of frames. */
  function Run(s: State, fs: seq<Frame>, k: nat): (r: State)
    requires k >= 1 && Inv(s, k)
    ensures Inv(r, k)
    decreases |fs|
  {
    if fs == [] then s else Next(Run(s, fs[..|fs| - 1], k), fs[|fs| - 1], k)
  }

  /** The episode ends, in order, that a sequence of frames triggers. */
  function Episodes(s: State, fs: seq<Frame>, k: nat): (r: seq<Event>)
    requires k >= 1 && Inv(s, k)
    ensures forall i :: 0 <= i < |r| ==> r[i].Ended? && r[i].peak >= 1
    decreases |fs|
  {
    if fs == [] then []
    else
      var e := EventOf(Run(s, fs[..|fs| - 1], k), fs[|fs| - 1], k);
      Episodes(s, fs[..|fs| - 1], k) + (if e.Ended? then [e] else [])
  }

  /** Sum of the elapsed times of a list of episode ends. */
  function TotalElapsed(es: seq<Event>): int
  {
    if es == [] then 0
    else TotalElapsed(es[..|es| - 1]) + (if es[|es| - 1].Ended? then es[|es| - 1].elapsed else 0)
  }

  /** Sum of the peak counts of a list of episode ends. */
  function TotalPeak(es: seq<Event>): nat
  {
    if es == [] then 0
    else TotalPeak(es[..|es| - 1]) + (if es[|es| - 1].Ended? then es[|es| - 1].peak else 0)
  }

  /** Largest people count in a sequence of frames (0 for none). */
  function MaxCount(fs: seq<Frame>): nat
  {
    if fs == [] then 0
    else var m := MaxCount(fs[..|fs| - 1]); if m < fs[|fs| - 1].count then fs[|fs| - 1].count else m
  }

  /** Number of frames at the end of fs with a positive count. */
  function TrailingDetections(fs: seq<Frame>): nat
  {
    if fs == [] || fs[|fs| - 1].count == 0 then 0 else TrailingDetections(fs[..|fs| - 1]) + 1
  }

  /** Number of frames at the end of fs with count zero. */
  function TrailingEmpty(fs: seq<Frame>): nat
  {
    if fs == [] || fs[|fs| - 1].count > 0 then 0 else TrailingEmpty(fs[..|fs| - 1]) + 1
  }

  /** The payloads of one frame, given the state after it and its live count (main.py:221-223). */
  function Publish(s: State, count: nat): Publication
  {
    Publication(PersonMsg(count, s.total), if s.duration != 0 then Some(s.duration) else None)
  }

  // ---------------------------------------------------------------------
  // One frame
  // ---------------------------------------------------------------------

  /** Run-length update: a detection frame extends the detection run and
      clears the empty run, an empty frame the reverse; a transition clears
      both. After every frame at least one run is zero. */
  lemma CountersStep(s: State, f: Frame, k: nat)
    requires k >= 1 && Inv(s, k)
    ensures var r := Next(s, f, k);
      && (r.detRun == 0 || r.emptyRun == 0)
      && (EventOf(s, f, k) != Quiet ==> r.detRun == 0 && r.emptyRun == 0)
      && (EventOf(s, f, k) == Quiet && f.count > 0 ==> r.detRun == s.detRun + 1 && r.emptyRun == 0)
      && (EventOf(s, f, k) == Quiet && f.count == 0 ==> r.emptyRun == s.emptyRun + 1 && r.detRun == 0)
  {
  }

  /** Absent to present fires exactly on the k-th consecutive detection frame,
      records the clock and clears both runs; it never fires while present. */
  lemma StartIff(s: State, f: Frame, k: nat)
    requires k >= 1 && Inv(s, k)
    ensures EventOf(s, f, k).Started? <==> !s.present && f.count > 0 && s.detRun + 1 == k
    ensures EventOf(s, f, k).Started? ==>
      var r := Next(s, f, k);
      r.present && r.tracker == f.now && r.detRun == 0 && r.emptyRun == 0
      && r.total == s.total && r.timeAvg == s.timeAvg && r.duration == s.duration
  {
  }

  /** Present to absent fires exactly on the k-th consecutive empty frame; it
      adds the peak to the total, the elapsed time to the sum, recomputes the
      rounded average and clears the runs and the tracker. */
  lemma EndIff(s: State, f: Frame, k: nat)
    requires k >= 1 && Inv(s, k)
    ensures EventOf(s, f, k).Ended? <==> s.present && f.count == 0 && s.emptyRun + 1 == k
    ensures EventOf(s, f, k).Ended? ==>
      var r := Next(s, f, k);
      && EventOf(s, f, k) == Ended(f.now - s.tracker, s.lastCount)
      && !r.present && r.tracker == 0 && r.detRun == 0 && r.emptyRun == 0
      && r.total == s.total + s.lastCount && r.total >= 1
      && r.timeAvg == s.timeAvg + (f.now - s.tracker)
      && r.duration == RoundDiv(r.timeAvg, r.total)
  {
  }

  /** The totals, the time sum and the published duration change only when an episode ends. */
  lemma StatsOnlyOnEnd(s: State, f: Frame, k: nat)
    requires k >= 1 && Inv(s, k)
    ensures !EventOf(s, f, k).Ended? ==>
      var r := Next(s, f, k);
      r.total == s.total && r.timeAvg == s.timeAvg && r.duration == s.duration
  {
  }

  // ---------------------------------------------------------------------
  // Runs of frames
  // ---------------------------------------------------------------------

  /** From absent, a run of detection frames starts an episode exactly when
      it completes the window, and not one frame earlier. */
  lemma {:induction false} StartsAfterWindow(s: State, fs: seq<Frame>, k: nat)
    requires k >= 1 && Inv(s, k) && !s.present
    requires s.detRun + |fs| <= k
    requires forall i :: 0 <= i < |fs| ==> fs[i].count > 0
    ensures Run(s, fs, k).present <==> s.detRun + |fs| == k
    ensures !Run(s, fs, k).present ==> Run(s, fs, k).detRun == s.detRun + |fs|
    ensures Run(s, fs, k).present ==> Run(s, fs, k).tracker == fs[|fs| - 1].now
    ensures Episodes(s, fs, k) == []
  {
    if fs != [] {
      var front := fs[..|fs| - 1];
      StartsAfterWindow(s, front, k);
    }
  }

  /** From present, a run of empty frames ends the episode exactly when it
      completes the window, with the time since the start and the peak. */
  lemma {:induction false} EndsAfterWindow(s: State, fs: seq<Frame>, k: nat)
    requires k >= 1 && Inv(s, k) && s.present
    requires s.emptyRun + |fs| <= k
    requires forall i :: 0 <= i < |fs| ==> fs[i].count == 0
    ensures Run(s, fs, k).present <==> s.emptyRun + |fs| < k
    ensures Run(s, fs, k).present ==>
      Run(s, fs, k).emptyRun == s.emptyRun + |fs| && Run(s, fs, k).tracker == s.tracker
      && Run(s, fs, k).lastCount == s.lastCount
    ensures Episodes(s, fs, k) ==
      if s.emptyRun + |fs| == k then [Ended(fs[|fs| - 1].now - s.tracker, s.lastCount)] else []
  {
    if fs != [] {
      var front := fs[..|fs| - 1];
      EndsAfterWindow(s, front, k);
    }
  }

  /** Flicker tolerance: while present, a gap of fewer than k empty frames
      followed by a detection frame does not end the episode; the gap is
      forgotten and nothing is accounted. */
  lemma FlickerIgnored(s: State, gap: seq<Frame>, f: Frame, k: nat)
    requires k >= 1 && Inv(s, k) && s.present && s.emptyRun == 0
    requires |gap| < k
    requires forall i :: 0 <= i < |gap| ==> gap[i].count == 0
    requires f.count > 0
    ensures var r := Run(s, gap + [f], k);
      r.present && r.emptyRun == 0 && r.tracker == s.tracker
      && r.total == s.total && r.timeAvg == s.timeAvg && r.duration == s.duration
    ensures Episodes(s, gap + [f], k) == []
  {
    EndsAfterWindow(s, gap, k);
    assert (gap + [f])[..|gap + [f]| - 1] == gap;
    StatsUnchangedWithoutEpisodes(s, gap, k);
  }

  /** With no episode end, the totals, the time sum and the duration stay as they were. */
  lemma {:induction false} StatsUnchangedWithoutEpisodes(s: State, fs: seq<Frame>, k: nat)
    requires k >= 1 && Inv(s, k)
    requires Episodes(s, fs, k) == []
    ensures var r := Run(s, fs, k); r.total == s.total && r.timeAvg == s.timeAvg && r.duration == s.duration
  {
    if fs != [] {
      StatsUnchangedWithoutEpisodes(s, fs[..|fs| - 1], k);
    }
  }

  /** The totals are the sums over the episodes ended so far. */
  lemma {:induction false} RunStats(s: State, fs: seq<Frame>, k: nat)
    requires k >= 1 && Inv(s, k)
    ensures var es := Episodes(s, fs, k);
      && Run(s, fs, k).total == s.total + TotalPeak(es)
      && Run(s, fs, k).timeAvg == s.timeAvg + TotalElapsed(es)
      && TotalPeak(es) >= |es|
  {
    if fs != [] {
      var front := fs[..|fs| - 1];
      RunStats(s, front, k);
      var es0 := Episodes(s, front, k);
      var e := EventOf(Run(s, front, k), fs[|fs| - 1], k);
      if e.Ended? {
        var es := es0 + [e];
        assert es[..|es| - 1] == es0;
      } else {
        assert Episodes(s, fs, k) == es0;
      }
    }
  }

  /** From the initial state the published duration is Python's round of the
      summed dwell time divided by the summed peak counts (not by the number
      of episodes), and it is 0 until an episode has ended. */
  lemma AverageFromStart(fs: seq<Frame>, k: nat)
    requires k >= 1
    ensures var es := Episodes(Init(), fs, k);
      && Run(Init(), fs, k).total == TotalPeak(es) >= |es|
      && Run(Init(), fs, k).duration ==
           if es == [] then 0 else RoundDiv(TotalElapsed(es), TotalPeak(es))
  {
    RunStats(Init(), fs, k);
  }

  /** The duration topic is published exactly when some episode has ended and
      the rounded average is non-zero, and then carries that average; the person topic always carries the live
      count of the frame and the running total. */
  lemma PublishPolicy(fs: seq<Frame>, f: Frame, k: nat)
    requires k >= 1
    ensures var s := Run(Init(), fs + [f], k);
      var es := Episodes(Init(), fs + [f], k);
      var p := Publish(s, f.count);
      && p.person == PersonMsg(f.count, TotalPeak(es))
      && (p.duration.Some? ==> es != [] && p.duration.value == RoundDiv(TotalElapsed(es), TotalPeak(es)))
      && (es == [] ==> p.duration == None)
      && (es != [] && RoundDiv(TotalElapsed(es), TotalPeak(es)) != 0 ==>
            p.duration == Some(RoundDiv(TotalElapsed(es), TotalPeak(es))))
  {
    AverageFromStart(fs + [f], k);
  }

  /** The lifetime peak is never reset: it is the largest count seen so far. */
  lemma {:induction false} PeakIsMaximum(s: State, fs: seq<Frame>, k: nat)
    requires k >= 1 && Inv(s, k)
    ensures Run(s, fs, k).lastCount == if s.lastCount < MaxCount(fs) then MaxCount(fs) else s.lastCount
  {
    if fs != [] {
      PeakIsMaximum(s, fs[..|fs| - 1], k);
    }
  }

  /** Hence, from the start, the peak never decreases. */
  lemma PeakMonotone(fs: seq<Frame>, gs: seq<Frame>, k: nat)
    requires k >= 1
    ensures Run(Init(), fs, k).lastCount <= Run(Init(), fs + gs, k).lastCount
  {
    PeakIsMaximum(Init(), fs, k);
    PeakIsMaximum(Init(), fs + gs, k);
    MaxCountPrefix(fs, gs);
  }

  lemma {:induction false} MaxCountPrefix(fs: seq<Frame>, gs: seq<Frame>)
    ensures MaxCount(fs) <= MaxCount(fs + gs)
  {
    if gs == [] {
      assert fs + gs == fs;
    } else {
      MaxCountPrefix(fs, gs[..|gs| - 1]);
      assert (fs + gs)[..|fs + gs| - 1] == fs + gs[..|gs| - 1];
    }
  }

  /** The run counters never exceed the actual consecutive runs in the frames. */
  lemma {:induction false} RunsBounded(fs: seq<Frame>, k: nat)
    requires k >= 1
    ensures Run(Init(), fs, k).detRun <= TrailingDetections(fs)
    ensures Run(Init(), fs, k).emptyRun <= TrailingEmpty(fs)
  {
    if fs != [] {
      RunsBounded(fs[..|fs| - 1], k);
    }
  }

  /** An episode starts only after k consecutive detection frames, and ends
      only after k consecutive empty frames: shorter flicker in either
      direction never changes presence. */
  lemma TransitionsNeedWindow(fs: seq<Frame>, f: Frame, k: nat)
    requires k >= 1
    ensures EventOf(Run(Init(), fs, k), f, k).Started? ==> TrailingDetections(fs + [f]) >= k
    ensures EventOf(Run(Init(), fs, k), f, k).Ended? ==> TrailingEmpty(fs + [f]) >= k
  {
    RunsBounded(fs, k);
    assert (fs + [f])[..|fs + [f]| - 1] == fs;
  }

  /** While an episode is open the tracker keeps its start time. */
  lemma {:induction false} PresentKeepsStart(s: State, fs: seq<Frame>, k: nat)
    requires k >= 1 && Inv(s, k) && s.present
    requires Episodes(s, fs, k) == []
    ensures Run(s, fs, k).present && Run(s, fs, k).tracker == s.tracker
  {
    if fs != [] {
      PresentKeepsStart(s, fs[..|fs| - 1], k);
    }
  }

  /** An episode's dwell time is the clock at its end minus the clock at its start. */
  lemma EpisodeElapsed(s: State, start: Frame, mid: seq<Frame>, end: Frame, k: nat)
    requires k >= 1 && Inv(s, k)
    requires EventOf(s, start, k).Started?
    requires Episodes(Next(s, start, k), mid, k) == []
    ensures var e := EventOf(Run(Next(s, start, k), mid, k), end, k);
      e.Ended? ==> e.elapsed == end.now - start.now
  {
    PresentKeepsStart(Next(s, start, k), mid, k);
  }

  /** Appending one frame takes one more step. */
  lemma RunSnoc(s: State, fs: seq<Frame>, f: Frame, k: nat)
    requires k >= 1 && Inv(s, k)
    ensures Run(s, fs + [f], k) == Next(Run(s, fs, k), f, k)
    ensures var e := EventOf(Run(s, fs, k), f, k);
      Episodes(s, fs + [f], k) == Episodes(s, fs, k) + (if e.Ended? then [e] else [])
  {
    assert (fs + [f])[..|fs + [f]| - 1] == fs;
  }

  /** Running two sequences one after the other is running their concatenation. */
  lemma {:induction false} RunAppend(s: State, fs: seq<Frame>, gs: seq<Frame>, k: nat)
    requires k >= 1 && Inv(s, k)
    ensures Run(s, fs + gs, k) == Run(Run(s, fs, k), gs, k)
    decreases |gs|
  {
    if gs == [] {
      assert fs + gs == fs;
    } else {
      var front := gs[..|gs| - 1];
      RunAppend(s, fs, front, k);
      assert (fs + gs)[..|fs + gs| - 1] == fs + front;
    }
  }

  /** The episodes of a concatenation are those of its two parts, in order. */
  lemma {:induction false} EpisodesAppend(s: State, fs: seq<Frame>, gs: seq<Frame>, k: nat)
    requires k >= 1 && Inv(s, k)
    ensures Episodes(s, fs + gs, k) == Episodes(s, fs, k) + Episodes(Run(s, fs, k), gs, k)
    decreases |gs|
  {
    if gs == [] {
      assert fs + gs == fs;
    } else {
      var front := gs[..|gs| - 1];
      EpisodesAppend(s, fs, front, k);
      RunAppend(s, fs, front, k);
      assert (fs + gs)[..|fs + gs| - 1] == fs + front;
    }
  }

  /** The first four frames of ExampleRun: an episode from t + 1 to t + 3. */
  lemma ExampleFirstEpisode(t: int)
    ensures Run(Init(), [Frame(1, t), Frame(1, t + 1), Frame(0, t + 2), Frame(0, t + 3)], 2) == State(false, 0, 0, 1, 1, 0, 2, 2)
    ensures Episodes(Init(), [Frame(1, t), Frame(1, t + 1), Frame(0, t + 2), Frame(0, t + 3)], 2) == [Ended(2, 1)]
  {
    var p0: seq<Frame> := [];
    var p1 := p0 + [Frame(1, t)];
    RunSnoc(Init(), p0, Frame(1, t), 2);
    assert Run(Init(), p1, 2) == State(false, 1, 0, 1, 0, 0, 0, 0);
    assert Episodes(Init(), p1, 2) == [];
    var p2 := p1 + [Frame(1, t + 1)];
    RunSnoc(Init(), p1, Frame(1, t + 1), 2);
    assert Run(Init(), p2, 2) == State(true, 0, 0, 1, 0, t + 1, 0, 0);
    assert Episodes(Init(), p2, 2) == [];
    var p3 := p2 + [Frame(0, t + 2)];
    RunSnoc(Init(), p2, Frame(0, t + 2), 2);
    assert Run(Init(), p3, 2) == State(true, 0, 1, 1, 0, t + 1, 0, 0);
    assert Episodes(Init(), p3, 2) == [];
    var p4 := p3 + [Frame(0, t + 3)];
    RunSnoc(Init(), p3, Frame(0, t + 3), 2);
    assert Run(Init(), p4, 2) == State(false, 0, 0, 1, 1, 0, 2, 2);
    assert Episodes(Init(), p4, 2) == [Ended(2, 1)];
    assert p4 == [Frame(1, t), Frame(1, t + 1), Frame(0, t + 2), Frame(0, t + 3)];
  }

  /** The last five frames of ExampleRun: an episode from t + 5 to t + 8. */
  lemma ExampleSecondEpisode(t: int)
    ensures Run(State(false, 0, 0, 1, 1, 0, 2, 2), [Frame(1, t + 4), Frame(1, t + 5), Frame(1, t + 6), Frame(0, t + 7), Frame(0, t + 8)], 2) == State(false, 0, 0, 1, 2, 0, 5, 2)
    ensures Episodes(State(false, 0, 0, 1, 1, 0, 2, 2), [Frame(1, t + 4), Frame(1, t + 5), Frame(1, t + 6), Frame(0, t + 7), Frame(0, t + 8)], 2) == [Ended(3, 1)]
  {
    var p0: seq<Frame> := [];
    var p1 := p0 + [Frame(1, t + 4)];
    RunSnoc(State(false, 0, 0, 1, 1, 0, 2, 2), p0, Frame(1, t + 4), 2);
    assert Run(State(false, 0, 0, 1, 1, 0, 2, 2), p1, 2) == State(false, 1, 0, 1, 1, 0, 2, 2);
    assert Episodes(State(false, 0, 0, 1, 1, 0, 2, 2), p1, 2) == [];
    var p2 := p1 + [Frame(1, t + 5)];
    RunSnoc(State(false, 0, 0, 1, 1, 0, 2, 2), p1, Frame(1, t + 5), 2);
    assert Run(State(false, 0, 0, 1, 1, 0, 2, 2), p2, 2) == State(true, 0, 0, 1, 1, t + 5, 2, 2);
    assert Episodes(State(false, 0, 0, 1, 1, 0, 2, 2), p2, 2) == [];
    var p3 := p2 + [Frame(1, t + 6)];
    RunSnoc(State(false, 0, 0, 1, 1, 0, 2, 2), p2, Frame(1, t + 6), 2);
    assert Run(State(false, 0, 0, 1, 1, 0, 2, 2), p3, 2) == State(true, 1, 0, 1, 1, t + 5, 2, 2);
    assert Episodes(State(false, 0, 0, 1, 1, 0, 2, 2), p3, 2) == [];
    var p4 := p3 + [Frame(0, t + 7)];
    RunSnoc(State(false, 0, 0, 1, 1, 0, 2, 2), p3, Frame(0, t + 7), 2);
    assert Run(State(false, 0, 0, 1, 1, 0, 2, 2), p4, 2) == State(true, 0, 1, 1, 1, t + 5, 2, 2);
    assert Episodes(State(false, 0, 0, 1, 1, 0, 2, 2), p4, 2) == [];
    var p5 := p4 + [Frame(0, t + 8)];
    RunSnoc(State(false, 0, 0, 1, 1, 0, 2, 2), p4, Frame(0, t + 8), 2);
    assert Run(State(false, 0, 0, 1, 1, 0, 2, 2), p5, 2) == State(false, 0, 0, 1, 2, 0, 5, 2);
    assert Episodes(State(false, 0, 0, 1, 1, 0, 2, 2), p5, 2) == [Ended(3, 1)];
    assert p5 == [Frame(1, t + 4), Frame(1, t + 5), Frame(1, t + 6), Frame(0, t + 7), Frame(0, t + 8)];
  }

  /** The example of a window of 2 with detection flags T,T,F,F,T,T,T,F,F and
      the clock advancing by 1 per frame from t: episodes from t + 1 to t + 3
      and from t + 5 to t + 8; the average 5 / 2 rounds to the even 2. */
  lemma ExampleRun(t: int)
    ensures var fs := [Frame(1, t), Frame(1, t + 1), Frame(0, t + 2), Frame(0, t + 3), Frame(1, t + 4),
                       Frame(1, t + 5), Frame(1, t + 6), Frame(0, t + 7), Frame(0, t + 8)];
      && Episodes(Init(), fs, 2) == [Ended(2, 1), Ended(3, 1)]
      && Run(Init(), fs, 2) == State(false, 0, 0, 1, 2, 0, 5, 2)
  {
    var a, b := [Frame(1, t), Frame(1, t + 1), Frame(0, t + 2), Frame(0, t + 3)],
                [Frame(1, t + 4), Frame(1, t + 5), Frame(1, t + 6), Frame(0, t + 7), Frame(0, t + 8)];
    ExampleFirstEpisode(t);
    ExampleSecondEpisode(t);
    RunAppend(Init(), a, b, 2);
    EpisodesAppend(Init(), a, b, 2);
    assert a + b == [Frame(1, t), Frame(1, t + 1), Frame(0, t + 2), Frame(0, t + 3), Frame(1, t + 4),
                    Frame(1, t + 5), Frame(1, t + 6), Frame(0, t + 7), Frame(0, t + 8)];
  }
}
