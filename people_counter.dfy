/**
 * The per-frame loop body of `infer_on_stream` (main.py:91-223) in its own
 * imperative form: the loop's long-lived locals are the fields of a counter
 * object, and `Step` is one successfully inferred frame. A ghost history of
 * the frames seen so far ties the fields to the state machine of module
 * Occupancy, so every lemma proved there holds of the object.
 */
module PeopleCounter {
  import opened Wrappers
  import opened Rounding
  import opened Detections
  import opened Occupancy

  class Counter {
    var isPersonInFrame: bool
    var frameDetectionCounter: nat
    var noneDetectionCounter: nat
    var lastCount: nat
    var totalPeopleCount: nat
    var timeTracker: int
    var timeAvg: int
    var duration: int

    /** The people count and clock reading of every frame processed so far. */
    ghost var history: seq<Frame>

    /** The fields as a state value. */
    ghost function Snapshot(): State
      reads this
    {
      State(isPersonInFrame, frameDetectionCounter, noneDetectionCounter, lastCount,
            totalPeopleCount, timeTracker, timeAvg, duration)
    }

    /** The fields are what the state machine reaches on the frames seen so far. */
    ghost predicate Valid()
      reads this
    {
      Snapshot() == Run(Init(), history, ConfirmFrames)
    }

    /** State initialisation (main.py:94-107). */
    constructor ()
      ensures Valid() && history == []
      ensures Snapshot() == Init()
    {
      isPersonInFrame := false;
      frameDetectionCounter, noneDetectionCounter := 0, 0;
      lastCount, totalPeopleCount := 0, 0;
      timeTracker, timeAvg, duration := 0, 0, 0;
      history := [];
    }

    /**
     * One inferred frame (main.py:168-223): count the scores above the
     * threshold, update the peak and the run lengths, take at most one
     * presence transition, and return the payload for topic "person" and,
     * when the duration is non-zero, the payload for "person/duration".
     */
    method Step(probs: seq<real>, threshold: real, now: int) returns (person: PersonMsg, published: Option<int>)
      requires Valid()
      modifies this
      ensures Valid()
      ensures history == old(history) + [Frame(CountAbove(probs, threshold), now)]
      ensures Snapshot() == Next(old(Snapshot()), Frame(CountAbove(probs, threshold), now), ConfirmFrames)
      ensures Publication(person, published) == Publish(Snapshot(), CountAbove(probs, threshold))
    {
      ghost var before := Snapshot();
      var people := CountFrame(probs, threshold);
      Transition(now, before, people);
      RunSnoc(Init(), history, Frame(people, now), ConfirmFrames);
      history := history + [Frame(people, now)];
      person := PersonMsg(people, totalPeopleCount);
      published := if duration != 0 then Some(duration) else None;
    }

    /** Counting, peak and run-length update of one frame (main.py:168-193). */
    method CountFrame(probs: seq<real>, threshold: real) returns (people: nat)
      modifies this
      ensures people == CountAbove(probs, threshold)
      ensures Snapshot() == Counted(old(Snapshot()), people)
      ensures history == old(history)
    {
      var detectionInFrame: bool;
      people, lastCount, detectionInFrame := ScanFrame(probs, threshold, lastCount);
      DetectionFrameIff(probs, threshold);
      if detectionInFrame {
        frameDetectionCounter := frameDetectionCounter + 1;
        noneDetectionCounter := 0;
      } else {
        noneDetectionCounter := noneDetectionCounter + 1;
        frameDetectionCounter := 0;
      }
    }

    /** The `if`/`elif` of main.py:196-215, applied to the counted state of
        a frame whose state before counting was `before`. */
    method Transition(now: int, ghost before: State, ghost people: nat)
      requires Inv(before, ConfirmFrames)
      requires Snapshot() == Counted(before, people)
      modifies this
      ensures Snapshot() == Next(before, Frame(people, now), ConfirmFrames)
      ensures history == old(history)
    {
      if frameDetectionCounter == ConfirmFrames && !isPersonInFrame {
        isPersonInFrame := true;
        timeTracker := now;
        frameDetectionCounter, noneDetectionCounter := 0, 0;
      } else if noneDetectionCounter == ConfirmFrames && isPersonInFrame {
        isPersonInFrame := false;
        totalPeopleCount := totalPeopleCount + lastCount;
        timeTracker := now - timeTracker;
        timeAvg := timeAvg + timeTracker;
        duration := RoundDiv(timeAvg, totalPeopleCount);
        frameDetectionCounter, noneDetectionCounter := 0, 0;
        timeTracker := 0;
      }
    }
  }
}
