/** The consecutive-palm debouncer shared by the use-case service and the training demo:
    a frame counts as "palm" when any blob is classified as class 1; `consecPalmCounter`
    (a Java `int`) grows on palm frames and drops to 0 otherwise, and the reaction fires
    when the updated counter equals `CONSECUTIVE_PALMS`. */
module Debounce {
  import opened JavaInt
  import opened Classification

  const CONSECUTIVE_PALMS: int := 2

  /** The `palmFound` loop: true as soon as one classification has index 1. */
  method PalmFound(results: seq<ClassificationResult>) returns (palmFound: bool)
    ensures palmFound <==> exists i :: 0 <= i < |results| && results[i].index == 1
    ensures |results| == 0 ==> !palmFound
  {
    palmFound := false;
    for i := 0 to |results|
      invariant palmFound <==> exists j :: 0 <= j < i && results[j].index == 1
    {
      if results[i].index == 1 {
        palmFound := true;
      }
    }
  }

  /** The counter update of `handlePalmDetection`: `consecPalmCounter++` in `int` arithmetic
      on a palm frame, `consecPalmCounter = 0` otherwise. */
  function CounterStep(counter: int, palm: bool): (r: int)
    ensures IsInt32(r)
    ensures !palm ==> r == 0
    ensures palm && IsInt32(counter) && counter < MAX_INT ==> r == counter + 1
    ensures palm && counter == MAX_INT ==> r == MIN_INT
  {
    if palm then Wrap32(counter + 1) else 0
  }

  /** The counter after a sequence of frames (true = palm), starting from 0. */
  function CounterAfter(frames: seq<bool>): int {
    if |frames| == 0 then 0
    else CounterStep(CounterAfter(frames[..|frames| - 1]), frames[|frames| - 1])
  }

  /** The length of the run of palm frames that ends the sequence. */
  function TrailingPalms(frames: seq<bool>): (n: nat)
    ensures n <= |frames|
  {
    if |frames| == 0 || !frames[|frames| - 1] then 0
    else TrailingPalms(frames[..|frames| - 1]) + 1
  }

  /** The number of frames after which the reaction fired. */
  function FireCount(frames: seq<bool>): nat {
    if |frames| == 0 then 0
    else FireCount(frames[..|frames| - 1]) + (if CounterAfter(frames) == CONSECUTIVE_PALMS then 1 else 0)
  }

  /** `count` palm frames in a row. */
  function Palms(count: nat): (s: seq<bool>)
    ensures |s| == count && forall i :: 0 <= i < count ==> s[i]
  {
    seq(count, _ => true)
  }

  /** The counter is the length of the current palm run, taken as a Java `int`. */
  lemma {:induction false} CounterIsTrailingRun(frames: seq<bool>)
    ensures CounterAfter(frames) == Wrap32(TrailingPalms(frames))
  {
    if |frames| > 0 {
      var init := frames[..|frames| - 1];
      CounterIsTrailingRun(init);
      if frames[|frames| - 1] {
        var t := TrailingPalms(init);
        WrapCongruent(Wrap32(t) + 1, t + 1);
      }
    }
  }

  /** Among run lengths 1 .. 2^32 + 1, only 2 wraps to 2. */
  lemma WrapIsTwo(n: int)
    requires 1 <= n < TWO_32 + 2
    ensures Wrap32(n) == CONSECUTIVE_PALMS <==> n == 2
  {
    if Wrap32(n) == 2 {
      var k := (n - 2) / TWO_32;
      assert n - 2 == k * TWO_32;
    }
  }

  /** After a non-palm frame (or at the start), a run of `k` palm frames fires exactly once
      when `k >= 2` and never when `k < 2` (for runs shorter than 2^32 + 2 frames, after which
      the Java counter has wrapped around to 2 once more). */
  lemma {:induction false} RunFiresOnce(prefix: seq<bool>, k: nat)
    requires |prefix| == 0 || !prefix[|prefix| - 1]
    requires k < TWO_32 + 2
    ensures FireCount(prefix + Palms(k)) == FireCount(prefix) + (if k >= 2 then 1 else 0)
  {
    if k == 0 {
      assert prefix + Palms(0) == prefix;
    } else {
      var frames := prefix + Palms(k);
      assert frames[..|frames| - 1] == prefix + Palms(k - 1);
      RunFiresOnce(prefix, k - 1);
      TrailingRun(prefix, k);
      CounterIsTrailingRun(frames);
      WrapIsTwo(k);
    }
  }

  lemma {:induction false} TrailingRun(prefix: seq<bool>, k: nat)
    requires |prefix| == 0 || !prefix[|prefix| - 1]
    ensures TrailingPalms(prefix + Palms(k)) == k
  {
    if k > 0 {
      var frames := prefix + Palms(k);
      assert frames[..|frames| - 1] == prefix + Palms(k - 1);
      TrailingRun(prefix, k - 1);
    } else {
      assert prefix + Palms(0) == prefix;
    }
  }

  /** The reaction fires exactly on the second palm frame of a run: the frame is palm, the
      one before it is palm, and the one before that (if any) is not (again for runs shorter
      than 2^32 + 2 frames). */
  lemma FiresOnSecondPalm(frames: seq<bool>)
    requires |frames| > 0
    requires TrailingPalms(frames) < TWO_32 + 2
    ensures CounterAfter(frames) == CONSECUTIVE_PALMS <==>
              && |frames| >= 2 && frames[|frames| - 1] && frames[|frames| - 2]
              && (|frames| == 2 || !frames[|frames| - 3])
  {
    CounterIsTrailingRun(frames);
    var n := |frames|;
    if frames[n - 1] {
      WrapIsTwo(TrailingPalms(frames));
      var init := frames[..n - 1];
      if n >= 2 {
        assert init[|init| - 1] == frames[n - 2];
        if frames[n - 2] {
          assert init[..|init| - 1] == frames[..n - 2];
          if n >= 3 {
            assert frames[..n - 2][n - 3] == frames[n - 3];
          }
        }
      }
    }
  }

  /** A non-palm frame never fires and resets the counter. */
  lemma NonPalmResets(frames: seq<bool>)
    ensures CounterAfter(frames + [false]) == 0
    ensures FireCount(frames + [false]) == FireCount(frames)
  {
    assert (frames + [false])[..|frames|] == frames;
  }
}
