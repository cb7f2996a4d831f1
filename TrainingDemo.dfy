/** The training demo's activity: per frame, the classified blobs decide whether a palm is
    present; two palm frames in a row toggle `visState`, and the icon shows the new state.
    The ghost `frames` field records the palm flags seen so far, so that the invariant can
    tie the fields to the whole history. */
module TrainingDemo {
  import opened Classification
  import opened Debounce

  /** The two images the activity shows. */
  datatype Icon = IconClosed | IconOpened

  class TrainingActivity {
    var consecPalmCounter: int
    var visState: bool
    var icon: Icon
    ghost var frames: seq<bool>

    /** The counter follows the palm history, `visState` is the parity of the number of
        reactions fired so far, and the icon shows `visState`. */
    ghost predicate Valid()
      reads this
    {
      && consecPalmCounter == CounterAfter(frames)
      && visState == (FireCount(frames) % 2 == 1)
      && icon == (if visState then IconOpened else IconClosed)
    }

    /** Field initialisers and `onCreate`: counter 0, `visState` false, icon closed. */
    constructor ()
      ensures Valid() && frames == []
      ensures consecPalmCounter == 0 && !visState && icon == IconClosed
    {
      consecPalmCounter := 0;
      visState := false;
      icon := IconClosed;
      frames := [];
    }

    /** `handlePalmDetection`: update the counter; when it reaches `CONSECUTIVE_PALMS`, flip
        `visState` and show the matching icon (the posted UI update is taken as immediate). */
    method HandlePalmDetection(palmAvailable: bool)
      requires Valid()
      modifies this
      ensures Valid() && frames == old(frames) + [palmAvailable]
      ensures consecPalmCounter == CounterStep(old(consecPalmCounter), palmAvailable)
      ensures visState == (old(visState) != (consecPalmCounter == CONSECUTIVE_PALMS))
    {
      if palmAvailable {
        consecPalmCounter := CounterStep(consecPalmCounter, true);
      } else {
        consecPalmCounter := 0;
      }
      frames := frames + [palmAvailable];
      assert frames[..|frames| - 1] == old(frames);

      if consecPalmCounter == CONSECUTIVE_PALMS {
        visState := !visState;
        if visState {
          icon := IconOpened;
        } else {
          icon := IconClosed;
        }
      }
    }

    /** `onLocalCapImg` from the classifications onward: aggregate, then debounce. */
    method OnClassifiedFrame(results: seq<ClassificationResult>)
      requires Valid()
      modifies this
      ensures Valid()
      ensures frames == old(frames) + [exists i :: 0 <= i < |results| && results[i].index == 1]
    {
      var palmFound := PalmFound(results);
      HandlePalmDetection(palmFound);
    }
  }
}
