# PalmTouch: the per-frame touch pipeline and its decision rules, in Dafny

PalmTouch tells finger touches from palm touches on a phone's capacitive screen. Every
capacitive frame, an integer matrix of intensities, goes through the same steps:

- The blob detector (`BlobDetectionUtils`) flood-fills the 4-connected regions of cells
  brighter than 30. It turns each region into a bounding box grown by one cell on each
  side. It drops small boxes, drops duplicates, and copies each box into a 27 x 15 patch.
- The demo activity flattens each patch row by row into 405 values.
- A neural network classifies those values. Its outputs are decoded by a first-maximum
  arg-max against the sentinel `Float.MIN_VALUE` (`PalmClassifier`, `BlobClassifier`).
- The demo activity labels the result "No Touch Input", "Finger" or "Palm".

The use-case service (`PalmTouchService`) and the training demo build on the
classifications:

- A frame counts as "palm" when any blob is classified as class 1.
- A counter debounces these frames. A reaction fires on the frame where the counter
  equals 2.
- The training demo's reaction toggles an icon.
- The service's reaction vibrates. Depending on the configured action, it then shows a
  four-button pie menu or pulls down the notification bar.
- Action 0 decides between the two by the foreground application. `ProcessManager` picks
  that application from a process listing.

Modules, one per source file or shared concept:

- `Wrappers`: the `Option` type, used wherever the Java code returns or stores null.
- `JavaInt`: Java `int` arithmetic (`Wrap32`), decimal printing (`IntToString`) and
  `Integer.valueOf` (`ParseInt`), with their round trip.
- `Coordinates`, `BoundingBoxes`: the value types `BlobCoordinates` and `BlobBoundingBox`,
  with their `equals`, `hashCode` and `toString`. The Java constructors only store their
  arguments, so they are the datatype constructors.
- `BlobDetection`: the detector and the patch copy.
  - The shared `found` list is a class that the recursive `BlobDetection` method appends to.
  - `GetBlobs` is proved sound and complete against the ghost notion of a 4-connected
    region (`Component`) and of a region's expanded box (`IsBoxOf`).
- `Inference`: the `Network` type, the inference graph both classifiers call.
- `ArgMax`: the decoding loop, proved against the reference function `FirstMaxIndex`.
- `PalmDetection`, `Classification`: the two classifiers.
  - The inference graph is a function parameter (`Network`).
  - Java's exceptions in `BlobClassifier.classify` are outcomes: no model, or an index
    outside the label arrays.
- `PalmTouchDemo`: the per-frame loop of the demo activity (flatten, classify, label).
- `Processes`: the line filter, the parsing of the `ps` listing and the foreground-app
  rule of `ProcessManager`.
  - The selection loop is shown to be the arg-max decoding with sentinel 0.
  - `SelectionMeaning` restates the result without scores.
- `Debounce`: palm aggregation and the counter, with lemmas over whole frame histories.
  - A run of k palm frames fires exactly once when k >= 2.
  - The reaction fires exactly on the second palm frame of a run.
- `TrainingDemo`, `UseCaseService`: the training demo's activity and the use-case service, as
  classes holding their state.
  - A ghost history of palm flags lets their invariants tie the counter, `visState` and
    the icon to the frames seen so far.

Details of the code the model keeps:

- The flood fill excludes only row 0 and column 0; the last row and the last column
  qualify. It does not exclude the whole outer ring.
- The visited list is rebuilt for every scanned cell rather than shared across the scan.
  Deduplication therefore rests entirely on `blobs.contains`, which `GetBlobs` proves
  sufficient: one box per region.
- The size filter compares the product of the unexpanded extents with 1. It is not a
  cell count. Regions one cell wide or tall are dropped, and so are 2 x 2 extents
  (`KeptExtents`).
- Boxes are not clamped. Boxes always lie inside `[0, cols] x [0, rows]` (`GetBlobs`,
  `InFrame`), so reading the frame never goes out of range. A box larger than 27 x 15
  overruns the patch buffer, and `getBlobContent` throws an `ArrayIndexOutOfBoundsException`
  that nothing catches. The model reports that case as the outcome `ContentOutOfRange`, and proves it cannot happen on frames of at
  most 27 x 15 cells.

## Model

| member | source | states |
|---|---|---|
| JavaInt.Wrap32 | Android/PalmTouchDemo/app/src/main/java/io/interactionlab/palmtouchdemo/processing/blobdetection/BlobBoundingBox.java:38-46 | The result is a 32-bit value congruent to the input modulo 2^32, and is the input itself when that fits in an `int`, as Java `int` arithmetic does. |
| JavaInt.IntToString | Android/PalmTouchDemo/app/src/main/java/io/interactionlab/palmtouchdemo/processing/blobdetection/BlobBoundingBox.java:50 | The decimal text of an `int` is non-empty and made of digits and a minus sign; `DecimalRoundTrip` and `IntToStringInjective` show it denotes the number. |
| JavaInt.ParseInt | Android/MobileHCI18-Demo/PalmTouchUseCaseDemos/app/src/main/java/io/interactionlab/palmtouchusecasedemos/ProcessManager.java:91 | `Integer.valueOf` yields only `int` values, and none (NumberFormatException) for empty text, a lone sign, a non-digit or a value out of range; `ParseIntRoundTrip` shows it reads back every printed `int`. |
| JavaInt.ParseIntRoundTrip | Android/MobileHCI18-Demo/PalmTouchUseCaseDemos/app/src/main/java/io/interactionlab/palmtouchusecasedemos/ProcessManager.java:91 | `Integer.valueOf` reads back every `int` printed in decimal. |
| JavaInt.IntToStringInjective | Android/PalmTouchDemo/app/src/main/java/io/interactionlab/palmtouchdemo/processing/blobdetection/BlobBoundingBox.java:50 | Distinct integers print differently. |
| Coordinates.CoordEquals | Android/PalmTouchDemo/app/src/main/java/io/interactionlab/palmtouchdemo/processing/blobdetection/BlobCoordinates.java:17-30 | `equals(v)` holds iff `v` is a `BlobCoordinates` object with the same `x1` and `y1`. |
| Coordinates.CoordHash | Android/PalmTouchDemo/app/src/main/java/io/interactionlab/palmtouchdemo/processing/blobdetection/BlobCoordinates.java:34-39 | `hashCode` is always an `int`; `CoordHashClosedForm` gives its closed form and `CoordEqualsContract` shows equal coordinates hash alike. |
| Coordinates.CoordEqualsContract | Android/PalmTouchDemo/app/src/main/java/io/interactionlab/palmtouchdemo/processing/blobdetection/BlobCoordinates.java:17-39 | `equals` is reflexive, symmetric and transitive, false for null and for other classes, and equal coordinates have equal hashes. |
| Coordinates.CoordHashClosedForm | Android/PalmTouchDemo/app/src/main/java/io/interactionlab/palmtouchdemo/processing/blobdetection/BlobCoordinates.java:34-39 | `hashCode`, computed step by step in `int`, equals `(23*31 + x1)*31 + y1` wrapped once to 32 bits. |
| BoundingBoxes.BoxEquals | Android/PalmTouchDemo/app/src/main/java/io/interactionlab/palmtouchdemo/processing/blobdetection/BlobBoundingBox.java:21-35 | `equals(v)` holds iff `v` is a `BlobBoundingBox` object with the same four fields. |
| BoundingBoxes.BoxHash | Android/PalmTouchDemo/app/src/main/java/io/interactionlab/palmtouchdemo/processing/blobdetection/BlobBoundingBox.java:38-46 | `hashCode` is always an `int`; `BoxHashClosedForm` gives its closed form and `BoxEqualsContract` shows equal boxes hash alike. |
| BoundingBoxes.BoxToString | Android/PalmTouchDemo/app/src/main/java/io/interactionlab/palmtouchdemo/processing/blobdetection/BlobBoundingBox.java:49-51 | The text starts with "x1:" and ends with ";"; `BoxToStringInjective` shows it determines the box. |
| BoundingBoxes.BoxEqualsContract | Android/PalmTouchDemo/app/src/main/java/io/interactionlab/palmtouchdemo/processing/blobdetection/BlobBoundingBox.java:21-46 | `equals` is an equivalence, false for null and for other classes, and equal boxes have equal hashes. |
| BoundingBoxes.BoxHashClosedForm | Android/PalmTouchDemo/app/src/main/java/io/interactionlab/palmtouchdemo/processing/blobdetection/BlobBoundingBox.java:38-46 | `hashCode`, wrapping at every step, equals `(((23*31 + x1)*31 + y1)*31 + x2)*31 + y2` wrapped once. |
| BoundingBoxes.BoxToStringInjective | Android/PalmTouchDemo/app/src/main/java/io/interactionlab/palmtouchdemo/processing/blobdetection/BlobBoundingBox.java:49-51 | `toString` ("x1:…; y1:…; x2:…; y2:…;") determines the box: equal strings mean equal boxes. |
| BlobDetection.BlobDetection | Android/PalmTouchDemo/app/src/main/java/io/interactionlab/palmtouchdemo/processing/blobdetection/BlobDetectionUtils.java:75-85 | The recursive fill only appends qualifying cells (`0 < x < cols`, `0 < y < rows`, value > 30) not yet listed, so `found` stays duplicate-free. Afterwards the start cell is listed when it qualifies; the list is unchanged when the start cell does not qualify or was already listed. Every appended cell is connected to the start, with all its qualifying neighbours listed. The recursion terminates, measured by the qualifying cells not yet listed. |
| BlobDetection.FoundBound | Android/PalmTouchDemo/app/src/main/java/io/interactionlab/palmtouchdemo/processing/blobdetection/BlobDetectionUtils.java:78 | A duplicate-free list of qualifying cells is no longer than the frame's set of qualifying cells (the termination measure is a natural number). |
| BlobDetection.ClosedListIsComponent | Android/PalmTouchDemo/app/src/main/java/io/interactionlab/palmtouchdemo/processing/blobdetection/BlobDetectionUtils.java:78-84 | A list of qualifying cells connected to `a` and closed under qualifying neighbours is exactly `a`'s 4-connected region, so a fill from a qualifying cell with an empty list ends with that region. |
| BlobDetection.RegionExtent | Android/PalmTouchDemo/app/src/main/java/io/interactionlab/palmtouchdemo/processing/blobdetection/BlobDetectionUtils.java:29-49 | The min/max loop returns bounds that every cell lies within and that some cell attains, on each of the four sides. |
| BlobDetection.ExtentIsBox | Android/PalmTouchDemo/app/src/main/java/io/interactionlab/palmtouchdemo/processing/blobdetection/BlobDetectionUtils.java:29-51 | The box `(x_min-1, y_min-1, x_max+1, y_max+1)` is the region's expanded bounding box, and it lies within `[0, cols] x [0, rows]`. |
| BlobDetection.BoxOfUnique | Android/PalmTouchDemo/app/src/main/java/io/interactionlab/palmtouchdemo/processing/blobdetection/BlobDetectionUtils.java:51-53 | A region has one expanded box, so re-filling the region from each of its cells yields the same box, which `contains` rejects. |
| BlobDetection.KeptOfExtent | Android/PalmTouchDemo/app/src/main/java/io/interactionlab/palmtouchdemo/processing/blobdetection/BlobDetectionUtils.java:52 | The filter on the expanded box is the source's test `(x_max-x_min)*(y_max-y_min) > 1` in `int` arithmetic. |
| BlobDetection.KeptExtents | Android/PalmTouchDemo/app/src/main/java/io/interactionlab/palmtouchdemo/processing/blobdetection/BlobDetectionUtils.java:52 | A kept box spans at least two rows and two columns of cells and more than a 2 x 2 extent, so single-row, single-column and 2 x 2 regions are dropped. |
| BlobDetection.GetBlobs | Android/PalmTouchDemo/app/src/main/java/io/interactionlab/palmtouchdemo/processing/blobdetection/BlobDetectionUtils.java:18-60 | The result holds no two equal boxes. Every box passes the size filter, lies within the frame, and is the expanded box of some region. Every region whose box passes the filter has its box listed. A frame with no qualifying cell gives the empty list. |
| BlobDetection.GetBlobContent | Android/PalmTouchDemo/app/src/main/java/io/interactionlab/palmtouchdemo/processing/blobdetection/BlobDetectionUtils.java:62-73 | The result is a 27 x 15 array with `blob[y-y1][x-x1] == matrix[y][x]` inside the box and 0 everywhere else. It requires the box to fit the frame and the buffer, which are the accesses the loops make. |
| BlobDetection.DetectedBoxReadable | Android/PalmTouchDemo/app/src/main/java/io/interactionlab/palmtouchdemo/processing/blobdetection/BlobDetectionUtils.java:62-73 | On a frame of at most 27 x 15 cells, every detected box can be copied without an out-of-range access. |
| ArgMax.FirstMaxIndexCorrect | Android/MobileHCI18-Demo/PalmTouchUseCaseDemos/app/src/main/java/io/interactionlab/palmtouchusecasedemos/classification/BlobClassifier.java:44-51 | The reference decoding returns the first index of the largest output when that output exceeds the sentinel, and -1 when none does. |
| ArgMax.FirstMaxIndexUnique | Android/MobileHCI18-Demo/PalmTouchUseCaseDemos/app/src/main/java/io/interactionlab/palmtouchusecasedemos/classification/BlobClassifier.java:44-51 | At most one index satisfies that description: ties go to the earliest index. |
| ArgMax.ArgMaxAbove | Android/PalmTouchDemo/app/src/main/java/io/interactionlab/palmtouchdemo/processing/palmdetection/PalmClassifier.java:42-49 | The strict `>` loop returns the first maximal index above the sentinel, or -1. Its running maximum is that output (or the sentinel) and is at least every output. |
| PalmDetection.PalmClassifier.Classify | Android/PalmTouchDemo/app/src/main/java/io/interactionlab/palmtouchdemo/processing/palmdetection/PalmClassifier.java:27-52 | On a 405-value input, the result is in `[-1, 10)`. It is -1 iff no output exceeds `Float.MIN_VALUE`, and otherwise the first index of the largest output. |
| Classification.BlobClassifier.Classify | Android/MobileHCI18-Demo/PalmTouchUseCaseDemos/app/src/main/java/io/interactionlab/palmtouchusecasedemos/classification/BlobClassifier.java:27-60 | Without a model, it ends in the null-pointer outcome and only then. Otherwise the index is the first largest output above `Float.MIN_VALUE`. The confidence is that output and at least every output, and the label and colour are the entries at the index. When the index is -1 (iff no output exceeds the sentinel) or lies past the colour array, it ends in the index-out-of-bounds outcome. |
| Classification.BlobClassifier.SetModel | Android/MobileHCI18-Demo/PalmTouchUseCaseDemos/app/src/main/java/io/interactionlab/palmtouchusecasedemos/classification/BlobClassifier.java:21-24 | The description given becomes the current model. |
| PalmTouchDemo.Label | Android/PalmTouchDemo/app/src/main/java/io/interactionlab/palmtouchdemo/FullscreenActivity.java:109 | -1 is "No Touch Input", 0 is "Finger", every other index is "Palm", each in both directions. |
| PalmTouchDemo.Flatten | Android/PalmTouchDemo/app/src/main/java/io/interactionlab/palmtouchdemo/FullscreenActivity.java:100-106 | The 405-value buffer is the 27 x 15 patch in row-major order: `arr[r*15 + c] == blobContent[r][c]`. |
| PalmTouchDemo.LabelBoxes | Android/PalmTouchDemo/app/src/main/java/io/interactionlab/palmtouchdemo/FullscreenActivity.java:96-111 | One label per box, in box order, naming the class the classifier gives the box's flattened patch; copying the first box (in box order) that does not fit the patch buffer throws, so no later box is processed; if all fit, the frame is drawn. |
| PalmTouchDemo.OnLocalCapImg | Android/PalmTouchDemo/app/src/main/java/io/interactionlab/palmtouchdemo/FullscreenActivity.java:94-112 | The boxes drawn are exactly the detector's: distinct, kept, in frame, each the box of a region, and every region's kept box among them. There is one label per box, in box order, naming the class the classifier gives that box's flattened patch. A frame without qualifying cells draws nothing. Copying a detected box that does not fit the patch buffer throws, which cannot happen on frames of at most 27 x 15 cells. |
| Processes.TokensOfJoin | Android/MobileHCI18-Demo/PalmTouchUseCaseDemos/app/src/main/java/io/interactionlab/palmtouchusecasedemos/ProcessManager.java:74-78 | Splitting on runs of whitespace gives back the words a line was joined from. |
| Processes.Tokens | Android/MobileHCI18-Demo/PalmTouchUseCaseDemos/app/src/main/java/io/interactionlab/palmtouchusecasedemos/ProcessManager.java:74-78 | Every token is a non-empty run without whitespace; `TokensOfJoin` shows the tokens are the words the line is made of. |
| Processes.ParseLine | Android/MobileHCI18-Demo/PalmTouchUseCaseDemos/app/src/main/java/io/interactionlab/palmtouchusecasedemos/ProcessManager.java:71-96 | A line failing the "u0" / " fg " filter gives no record. A record names token 14 of the line, which contains ".", and has an `int` `u`, which is 0 when the info token is missing. |
| Processes.Records | Android/MobileHCI18-Demo/PalmTouchUseCaseDemos/app/src/main/java/io/interactionlab/palmtouchusecasedemos/ProcessManager.java:71-106 | The records come from the lines in order, at most one per line; `RecordsWellFormed` and `FilteredLinesIgnored` state what each record is and which lines add none. |
| Processes.UField | Android/MobileHCI18-Demo/PalmTouchUseCaseDemos/app/src/main/java/io/interactionlab/palmtouchusecasedemos/ProcessManager.java:84-96 | The parsed `u` is always an `int`, 0 when the field does not parse (`PkgInfo.u`'s default). |
| Processes.FilteredLinesIgnored | Android/MobileHCI18-Demo/PalmTouchUseCaseDemos/app/src/main/java/io/interactionlab/palmtouchusecasedemos/ProcessManager.java:71-72 | A line that does not start with "u0" or does not contain " fg " adds no record. |
| Processes.RecordsWellFormed | Android/MobileHCI18-Demo/PalmTouchUseCaseDemos/app/src/main/java/io/interactionlab/palmtouchusecasedemos/ProcessManager.java:71-106 | Every record comes from some listed line, names a package containing ".", and has an `int` `u`. |
| Processes.SelectionMeaning | Android/MobileHCI18-Demo/PalmTouchUseCaseDemos/app/src/main/java/io/interactionlab/palmtouchusecasedemos/ProcessManager.java:112-139 | A listed launcher gives null. Otherwise the result is the name of the first record, other than the caller's own package and the known packages, with the strictly greatest `u`. It is null iff no such record has `u > 0`. |
| Processes.Selection | Android/MobileHCI18-Demo/PalmTouchUseCaseDemos/app/src/main/java/io/interactionlab/palmtouchusecasedemos/ProcessManager.java:112-139 | A result means no launcher is listed and names an eligible record with `u > 0`; `SelectionMeaning` shows it is the first with the strictly greatest `u`, and none exactly when no eligible `u` is positive. |
| Processes.ProcessManager.constructor | Android/MobileHCI18-Demo/PalmTouchUseCaseDemos/app/src/main/java/io/interactionlab/palmtouchusecasedemos/ProcessManager.java:21-42 | Construction fills the known-package list (8 entries) and the launcher list (2 entries) in the source's order. |
| Processes.ProcessManager.Initialize | Android/MobileHCI18-Demo/PalmTouchUseCaseDemos/app/src/main/java/io/interactionlab/palmtouchusecasedemos/ProcessManager.java:26-42 | The known-package list holds the source's 8 entries and the launcher list its 2, in order. |
| Processes.ProcessManager.GetVisibleApplication | Android/MobileHCI18-Demo/PalmTouchUseCaseDemos/app/src/main/java/io/interactionlab/palmtouchusecasedemos/ProcessManager.java:71-139 | The three loops (records, launcher search, best `u`) compute `Selection` of the parsed records. |
| Debounce.PalmFound | Android/MobileHCI18-Demo/PalmTouchUseCaseDemos/app/src/main/java/io/interactionlab/palmtouchusecasedemos/PalmTouchService.java:106-115 | A frame is "palm" iff some classification has index 1, so a frame without blobs is not. |
| Debounce.CounterStep | Android/MobileHCI18-Demo/PalmTouchUseCaseDemos/app/src/main/java/io/interactionlab/palmtouchusecasedemos/PalmTouchService.java:174-178 | A non-palm frame resets the counter to 0; a palm frame adds 1 in `int` arithmetic, so `MAX_INT` wraps to `MIN_INT`. `CounterIsTrailingRun` folds it over a history. |
| Debounce.CounterIsTrailingRun | Android/MobileHCI18-Demo/PalmTouchUseCaseDemos/app/src/main/java/io/interactionlab/palmtouchusecasedemos/PalmTouchService.java:173-178 | After any history, the counter is the length of the current run of palm frames, as a Java `int`. |
| Debounce.RunFiresOnce | Android/MobileHCI18-Demo/PalmTouchUseCaseDemos/app/src/main/java/io/interactionlab/palmtouchusecasedemos/PalmTouchService.java:173-180 | After a reset, a run of k palm frames fires exactly once if k >= 2 and never if k < 2. |
| Debounce.FiresOnSecondPalm | Android/MobileHCI18-Demo/PalmTouchUseCaseDemos/app/src/main/java/io/interactionlab/palmtouchusecasedemos/PalmTouchService.java:173-180 | The reaction fires on a frame iff it and the frame before are palm and the one before that (if any) is not. |
| Debounce.NonPalmResets | Android/MobileHCI18-Demo/PalmTouchUseCaseDemos/app/src/main/java/io/interactionlab/palmtouchusecasedemos/PalmTouchService.java:176-177 | A non-palm frame resets the counter to 0 and never fires. |
| TrainingDemo.TrainingActivity.constructor | Android/MobileHCI18-Demo/TrainingDemo/app/src/main/java/io/interactionlab/trainingdemo/FullscreenActivity.java:79-129 | The counter starts at 0, `visState` false, and the icon closed. |
| TrainingDemo.TrainingActivity.HandlePalmDetection | Android/MobileHCI18-Demo/TrainingDemo/app/src/main/java/io/interactionlab/trainingdemo/FullscreenActivity.java:136-158 | The counter steps (increment or reset), `visState` flips exactly when the counter equals 2, and the invariant keeps `visState` equal to "odd number of fires so far" with the icon opened iff `visState`. |
| TrainingDemo.TrainingActivity.OnClassifiedFrame | Android/MobileHCI18-Demo/TrainingDemo/app/src/main/java/io/interactionlab/trainingdemo/FullscreenActivity.java:115-124 | The frame is recorded as palm iff some classification has index 1. |
| UseCaseService.IndexOf | Android/MobileHCI18-Demo/PalmTouchUseCaseDemos/app/src/main/java/io/interactionlab/palmtouchusecasedemos/PalmTouchService.java:339 | `indexOf` gives the first position holding the button, or -1 iff it is absent. |
| UseCaseService.GetIntExtra | Android/MobileHCI18-Demo/PalmTouchUseCaseDemos/app/src/main/java/io/interactionlab/palmtouchusecasedemos/PalmTouchService.java:151 | The "action" extra when it is an `int`, and the default 0 when it is missing or of another type. |
| UseCaseService.ReactionFor | Android/MobileHCI18-Demo/PalmTouchUseCaseDemos/app/src/main/java/io/interactionlab/palmtouchusecasedemos/PalmTouchService.java:185-208 | The notification bar opens iff the action is 2, or 0 with "com.cyanogenmod.trebuchet" visible; the pie menu shows iff the action is 1, or 0 with a process manager and another (or no) visible app; otherwise nothing happens. |
| UseCaseService.PalmTouchService.constructor | Android/MobileHCI18-Demo/PalmTouchUseCaseDemos/app/src/main/java/io/interactionlab/palmtouchusecasedemos/PalmTouchService.java:71-87 | The action is 0, the counter 0, no buttons, and a process manager with its lists. |
| UseCaseService.PalmTouchService.OnStartCommand | Android/MobileHCI18-Demo/PalmTouchUseCaseDemos/app/src/main/java/io/interactionlab/palmtouchusecasedemos/PalmTouchService.java:149-158 | A non-null intent sets the action to its "action" extra (default 0), and a null one leaves it. Returns `START_STICKY`. Nothing else changes. |
| UseCaseService.PalmTouchService.ShowPieMenu | Android/MobileHCI18-Demo/PalmTouchUseCaseDemos/app/src/main/java/io/interactionlab/palmtouchusecasedemos/PalmTouchService.java:212-294 | With buttons shown, nothing changes. Otherwise exactly four new, distinct buttons (menu 1, 2, 3, close) are shown. |
| UseCaseService.PalmTouchService.OnClick | Android/MobileHCI18-Demo/PalmTouchUseCaseDemos/app/src/main/java/io/interactionlab/palmtouchusecasedemos/PalmTouchService.java:335-365 | Buttons 0, 1 and 2 open mms, browser and maps, any other opens nothing. Then it vibrates and leaves no buttons shown. |
| UseCaseService.PalmTouchService.HandlePalmDetection | Android/MobileHCI18-Demo/PalmTouchUseCaseDemos/app/src/main/java/io/interactionlab/palmtouchusecasedemos/PalmTouchService.java:173-210 | The counter steps. Nothing happens unless it equals 2, and then it vibrates. Action 1 shows the pie menu and action 2 opens the notification bar. Action 0 opens the bar iff the visible app is "com.cyanogenmod.trebuchet" and shows the menu otherwise (nothing without a process manager). Other actions do nothing more. Showing the menu with no buttons shown adds four new, distinct buttons: menu 1, 2, 3 and close, in that order. |
| UseCaseService.PalmTouchService.OnClassifiedFrame | Android/MobileHCI18-Demo/PalmTouchUseCaseDemos/app/src/main/java/io/interactionlab/palmtouchusecasedemos/PalmTouchService.java:106-115 | The frame is palm iff some classification has index 1; the counter then steps, and the frame vibrates and reacts exactly as `HandlePalmDetection` says for that flag, keeping the action and the process manager. |

## Left out

- The inference graph (TensorFlow) is a function parameter. The static engine handle shared by all classifier instances, the check of the input shape when feeding, and the graph's own computation are not modelled.
- Classification.BlobClassifier.Classify: requires the graph's output to have one entry per label. `fetch` into a buffer of a different size is a TensorFlow failure the model does not describe.
- Floating point: outputs, `Float.MIN_VALUE` and the `(float)` casts are real numbers, so rounding of large intensities and NaN outputs are not modelled.
- The frame comes from a native capacitive-image library, which is not part of this model. It is assumed rectangular (`JavaMatrix`), as that library produces it.
- PalmTouchDemo.Flatten: stated for the 27 x 15 patch `getBlobContent` returns, the only shape the loop is given; for other shapes the row-major layout is not stated.
- In the service and the training demo, the library's blob boundaries and `flattenClipAndNormalizeMatrixFloat` are not part of this model. Their per-frame methods start from the classification results.
- Reading the `ps` output (process start, `readLine`, `waitFor`, I/O exceptions) is left out. `GetVisibleApplication` takes the listing's lines, and the service takes the listing current at the time of the fire.
- `ParseInt` accepts ASCII digits only, while `Integer.valueOf` also accepts other Unicode decimal digits.
- Window-manager calls (`addView`, `removeView`), toasts, the ongoing notification, logging and the `Context` objects are left out. Vibrating, expanding the notification bar and launching an app are recorded as effects in order.
- Threading is left out. The UI updates posted with `runOnUiThread` and `handler.post` are taken as immediate.
- The uncaught `ArrayIndexOutOfBoundsException` of `getBlobContent` in the demo activity is the outcome `ContentOutOfRange`; what the exception then does to the running application (it escapes the UI-thread `Runnable`) is left out.
- An exception thrown by `classify` in the service or the training demo would abort that frame. The model starts from completed classification results.
- Debounce.RunFiresOnce, Debounce.FiresOnSecondPalm: stated for runs shorter than 2^32 + 2 frames. The modelled Java counter wraps around and would fire again after that many palm frames in a row.
