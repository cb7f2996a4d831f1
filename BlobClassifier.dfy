/** The classifier of the use-case demos (`BlobClassifier`): a model description names the
    graph, its labels and a colour per label; `classify` decodes the graph's outputs and
    assembles a `ClassificationResult`. The graph is a foreign computation, modelled as a
    function from input to outputs; Java exceptions are modelled as outcomes. */
module Classification {
  import opened Wrappers
  import opened Inference
  import opened ArgMax

  /** `ModelDescription`: constant data naming a graph and how to read its outputs. */
  datatype ModelDescription = ModelDescription(
    modelName: string, modelPath: string, inputNode: string, outputNode: string,
    inputDimensions: seq<int>, labels: seq<string>, labelColor: seq<int>)

  /** `ClassificationResult`, filled field by field at the end of `classify`. */
  datatype ClassificationResult = ClassificationResult(index: int, classLabel: string, confidence: real, color: int)

  /** What a call of `classify` ends in: a result, or the exception Java throws. */
  datatype Outcome =
    | Classified(result: ClassificationResult)
    | NullModel                       // no model set: NullPointerException
    | IndexOutOfBounds(index: int)    // `labels[idx]` or `labelColor[idx]` outside its array

  class BlobClassifier {
    /** The graphs the application's assets hold, by path. */
    const assets: string -> Network
    /** The model set by `setModel`; `None` models the field's initial null. */
    var modelDescription: Option<ModelDescription>

    constructor (assets: string -> Network)
      ensures this.assets == assets && modelDescription == None
    {
      this.assets := assets;
      modelDescription := None;
    }

    /** `setModel`: remember the description (the graph is then read from `assets`). */
    method SetModel(md: ModelDescription)
      modifies this
      ensures modelDescription == Some(md)
    {
      modelDescription := Some(md);
    }

    /** The output vector the current model's graph produces for `pixels`. */
    function Outputs(pixels: seq<real>): seq<real>
      requires modelDescription.Some?
      reads this
    {
      assets(modelDescription.value.modelPath)(pixels)
    }

    /** `classify`: decode the outputs into the first index of the largest one above
        `Float.MIN_VALUE`, then look up that index's label and colour. Without a model, with
        no output above the sentinel (index -1), or with fewer colours than the index needs,
        Java throws; the model returns that outcome instead. */
    method Classify(pixels: array<real>) returns (r: Outcome)
      requires modelDescription.Some? ==> |Outputs(pixels[..])| == |modelDescription.value.labels|
      ensures r == NullModel <==> modelDescription == None
      ensures r.Classified? ==>
                var md := modelDescription.value;
                var out := Outputs(pixels[..]);
                && IsFirstMaxIndex(out, FLOAT_MIN_VALUE, r.result.index)
                && 0 <= r.result.index < |md.labels|
                && r.result.index < |md.labelColor|
                && r.result.confidence == out[r.result.index]
                && (forall i :: 0 <= i < |out| ==> out[i] <= r.result.confidence)
                && r.result.classLabel == md.labels[r.result.index]
                && r.result.color == md.labelColor[r.result.index]
      ensures r.IndexOutOfBounds? ==>
                var md := modelDescription.value;
                var out := Outputs(pixels[..]);
                && IsFirstMaxIndex(out, FLOAT_MIN_VALUE, r.index)
                && (r.index == -1 || r.index >= |md.labelColor|)
      ensures modelDescription.Some? ==>
                (r == IndexOutOfBounds(-1) <==> forall i :: 0 <= i < |Outputs(pixels[..])| ==> Outputs(pixels[..])[i] <= FLOAT_MIN_VALUE)
    {
      if modelDescription == None {
        return NullModel;
      }
      var md := modelDescription.value;
      var outputs := new real[|md.labels|];
      // feed, run and fetch: the graph writes its outputs into the buffer
      var fetched := assets(md.modelPath)(pixels[..]);
      forall i | 0 <= i < outputs.Length {
        outputs[i] := fetched[i];
      }
      assert pixels[..] == old(pixels[..]);
      assert outputs[..] == fetched == Outputs(pixels[..]);

      var idx, maxConf := ArgMaxAbove(outputs, FLOAT_MIN_VALUE);

      if idx == -1 || idx >= |md.labelColor| {
        return IndexOutOfBounds(idx);
      }
      r := Classified(ClassificationResult(idx, md.labels[idx], maxConf, md.labelColor[idx]));
    }
  }
}
