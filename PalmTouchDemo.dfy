/** The per-frame work of the PalmTouch demo activity: detect the blobs of a frame, copy each
    into a 27 x 15 patch, flatten the patch row by row into 405 values, classify it, and
    name the class for display. */
module PalmTouchDemo {
  import opened BoundingBoxes
  import opened BlobDetection
  import opened ArgMax
  import opened PalmDetection

  /** The length of the flattened patch, `new float[405]`. */
  const PATCH_SIZE: int := 405

  /** The text shown for a classifier result. */
  function Label(detection: int): (text: string)
    ensures detection == -1 <==> text == "No Touch Input"
    ensures detection == 0 <==> text == "Finger"
    ensures detection != -1 && detection != 0 <==> text == "Palm"
  {
    if detection == -1 then "No Touch Input" else if detection == 0 then "Finger" else "Palm"
  }

  /** The nested for-each over the patch's rows and values, `arr[index++] = (float) val`,
      on the 27 x 15 patch `getBlobContent` returns: cell `(r, c)` lands at `r * 15 + c`, so
      the 405 writes fill the buffer exactly. */
  method Flatten(content: array2<int>) returns (arr: array<real>)
    requires content.Length0 == BLOB_ROWS && content.Length1 == BLOB_COLS
    ensures arr.Length == PATCH_SIZE
    ensures forall r, c :: 0 <= r < BLOB_ROWS && 0 <= c < BLOB_COLS ==>
              arr[r * BLOB_COLS + c] == content[r, c] as real
    ensures forall k :: 0 <= k < PATCH_SIZE ==> arr[k] == content[k / BLOB_COLS, k % BLOB_COLS] as real
  {
    arr := new real[PATCH_SIZE];
    var index := 0;
    for r := 0 to BLOB_ROWS
      invariant index == r * BLOB_COLS
      invariant forall k :: 0 <= k < index ==> arr[k] == content[k / BLOB_COLS, k % BLOB_COLS] as real
    {
      for c := 0 to BLOB_COLS
        invariant index == r * BLOB_COLS + c
        invariant forall k :: 0 <= k < index ==> arr[k] == content[k / BLOB_COLS, k % BLOB_COLS] as real
      {
        assert index / BLOB_COLS == r && index % BLOB_COLS == c;
        arr[index] := content[r, c] as real;
        index := index + 1;
      }
    }
    forall r, c | 0 <= r < BLOB_ROWS && 0 <= c < BLOB_COLS
      ensures arr[r * BLOB_COLS + c] == content[r, c] as real
    {
      var k := r * BLOB_COLS + c;
      assert k / BLOB_COLS == r && k % BLOB_COLS == c;
    }
  }

  /** The 405 values fed to the classifier for box `b`: the copied patch, row by row. */
  function PatchOf(m: Frame, b: BlobBoundingBox): (p: seq<real>)
    requires JavaMatrix(m) && ContentReadable(m, b)
    ensures |p| == PATCH_SIZE
  {
    seq(PATCH_SIZE, k requires 0 <= k < PATCH_SIZE => ContentAt(m, b, k / BLOB_COLS, k % BLOB_COLS) as real)
  }

  /** How a frame's processing ends: the boxes and their labels are drawn, or copying a box
      that does not fit the 27 x 15 buffer throws an `ArrayIndexOutOfBoundsException` that
      nothing catches. */
  datatype FrameOutcome =
    | Drawn(boxes: seq<BlobBoundingBox>, labels: seq<string>)
    | ContentOutOfRange(box: BlobBoundingBox)

  /** The loop of `onLocalCapImg` over the detected boxes: copy, flatten and classify each box
      in turn, one label per box in box order; the first box that does not fit the 27 x 15
      buffer throws, so no later box is processed. */
  method LabelBoxes(m: Frame, classifier: PalmClassifier, boxes: seq<BlobBoundingBox>) returns (outcome: FrameOutcome)
    requires JavaMatrix(m) && classifier.Valid()
    ensures outcome.Drawn? ==>
              && outcome.boxes == boxes
              && |outcome.labels| == |boxes|
              && (forall i :: 0 <= i < |boxes| ==>
                    ContentReadable(m, boxes[i]) &&
                    outcome.labels[i] == Label(FirstMaxIndex(classifier.net(PatchOf(m, boxes[i])), FLOAT_MIN_VALUE)))
    ensures outcome.ContentOutOfRange? ==>
              && !ContentReadable(m, outcome.box)
              && exists i :: 0 <= i < |boxes| && boxes[i] == outcome.box &&
                   forall j :: 0 <= j < i ==> ContentReadable(m, boxes[j])
    ensures (forall b :: b in boxes ==> ContentReadable(m, b)) ==> outcome.Drawn?
  {
    var labels: seq<string> := [];
    for i := 0 to |boxes|
      invariant |labels| == i
      invariant forall j :: 0 <= j < i ==>
                  ContentReadable(m, boxes[j]) &&
                  labels[j] == Label(FirstMaxIndex(classifier.net(PatchOf(m, boxes[j])), FLOAT_MIN_VALUE))
    {
      var bbb := boxes[i];
      if !ContentReadable(m, bbb) {
        return ContentOutOfRange(bbb);
      }
      var blobContent := GetBlobContent(bbb, m);
      var arr := Flatten(blobContent);
      assert arr[..] == PatchOf(m, bbb);
      var detection := classifier.Classify(arr);
      labels := labels + [Label(detection)];
    }
    return Drawn(boxes, labels);
  }

  /** `onLocalCapImg`: the boxes are those the detector returns for the frame (one per region
      whose box passes the size filter), and there is one label per box, in box order, naming
      the class the classifier gives that box's patch. A frame without qualifying cells draws
      nothing, and on frames of at most 27 x 15 cells no copy fails. */
  method OnLocalCapImg(m: Frame, classifier: PalmClassifier) returns (outcome: FrameOutcome)
    requires JavaMatrix(m) && classifier.Valid()
    ensures outcome.Drawn? ==>
              && |outcome.labels| == |outcome.boxes|
              && Distinct(outcome.boxes)
              && (forall b :: b in outcome.boxes ==> Kept(b) && InFrame(m, b))
              && (forall b :: b in outcome.boxes ==> exists c :: Qualifies(m, c) && IsBoxOf(Component(m, c), b))
              && (forall c, b :: Qualifies(m, c) && IsBoxOf(Component(m, c), b) && Kept(b) ==> b in outcome.boxes)
              && (forall i :: 0 <= i < |outcome.boxes| ==>
                    ContentReadable(m, outcome.boxes[i]) &&
                    outcome.labels[i] == Label(FirstMaxIndex(classifier.net(PatchOf(m, outcome.boxes[i])), FLOAT_MIN_VALUE)))
    ensures outcome.ContentOutOfRange? ==>
              && !ContentReadable(m, outcome.box) && Kept(outcome.box) && InFrame(m, outcome.box)
              && exists c :: Qualifies(m, c) && IsBoxOf(Component(m, c), outcome.box)
    ensures (forall c :: !Qualifies(m, c)) ==> outcome == Drawn([], [])
    ensures |m| <= BLOB_ROWS && Cols(m) <= BLOB_COLS ==> outcome.Drawn?
  {
    var bbbl := GetBlobs(m);
    if |m| <= BLOB_ROWS && Cols(m) <= BLOB_COLS {
      forall b | b in bbbl
        ensures ContentReadable(m, b)
      {
        DetectedBoxReadable(m, b);
      }
    }
    outcome := LabelBoxes(m, classifier, bbbl);
    if outcome.ContentOutOfRange? {
      var i :| 0 <= i < |bbbl| && bbbl[i] == outcome.box;
      assert outcome.box in bbbl;
    }
  }
}
