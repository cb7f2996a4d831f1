/** The classifier of the PalmTouch demo (`PalmClassifier`): a 405-value patch goes through
    a loaded graph with 10 outputs, and the outputs are decoded into a class index. The
    graph is a foreign computation and is modelled as a function from input to outputs. */
module PalmDetection {
  import opened Inference
  import opened ArgMax

  /** The patch fed to the graph has shape 1 x 405. */
  const INPUT_SIZE: int := 405
  /** The output buffer `new float[10]`. */
  const CLASSES: int := 10

  class PalmClassifier {
    /** The asset the graph was loaded from, and the graph itself. */
    const modelPath: string
    const net: Network

    /** The graph fills the whole 10-entry output buffer for every input. */
    ghost predicate Valid() {
      forall x :: |net(x)| == CLASSES
    }

    constructor (modelPath: string, net: Network)
      requires forall x :: |net(x)| == CLASSES
      ensures this.modelPath == modelPath && this.net == net
      ensures Valid()
    {
      this.modelPath := modelPath;
      this.net := net;
    }

    /** `classify`: the first index of the largest output, or -1 when no output exceeds
        `Float.MIN_VALUE`. */
    method Classify(pixels: array<real>) returns (idx: int)
      requires Valid()
      requires pixels.Length == INPUT_SIZE
      ensures -1 <= idx < CLASSES
      ensures IsFirstMaxIndex(net(pixels[..]), FLOAT_MIN_VALUE, idx)
      ensures idx == -1 <==> forall i :: 0 <= i < CLASSES ==> net(pixels[..])[i] <= FLOAT_MIN_VALUE
      ensures idx == FirstMaxIndex(net(pixels[..]), FLOAT_MIN_VALUE)
    {
      var outputs := new real[CLASSES];
      // feed, run and fetch: the graph writes its outputs into the buffer
      var fetched := net(pixels[..]);
      forall i | 0 <= i < CLASSES {
        outputs[i] := fetched[i];
      }
      assert outputs[..] == fetched;
      var maxConf;
      idx, maxConf := ArgMaxAbove(outputs, FLOAT_MIN_VALUE);
      assert pixels[..] == old(pixels[..]);
      assert outputs[..] == fetched == net(pixels[..]);
    }
  }
}
