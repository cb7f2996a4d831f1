/** Decoding a classifier's output vector into a class index, as both classifiers do:
    start from a sentinel and index -1, and move to every entry strictly greater than
    the best so far. Float outputs are modelled as `real`. */
module ArgMax {

  /** Java's `Float.MIN_VALUE`: the smallest positive float, 2^-149 (not the most negative float). */
  const FLOAT_MIN_VALUE: real := 1.0 / 713623846352979940529142984724747568191373312.0

  /** `idx` is the decoded class: -1 when no entry exceeds `sentinel`; otherwise an entry above
      the sentinel that no entry exceeds and that every earlier entry stays strictly below
      (the first maximum). */
  predicate IsFirstMaxIndex(s: seq<real>, sentinel: real, idx: int) {
    if idx == -1 then
      forall i :: 0 <= i < |s| ==> s[i] <= sentinel
    else
      && 0 <= idx < |s|
      && s[idx] > sentinel
      && (forall i :: 0 <= i < |s| ==> s[i] <= s[idx])
      && (forall i :: 0 <= i < idx ==> s[i] < s[idx])
  }

  /** The confidence the loop leaves behind with that index: the entry itself, or the sentinel. */
  function ConfidenceAt(s: seq<real>, sentinel: real, idx: int): real
    requires -1 <= idx < |s|
  {
    if idx == -1 then sentinel else s[idx]
  }

  /** At most one index decodes a vector. */
  lemma FirstMaxIndexUnique(s: seq<real>, sentinel: real, i: int, j: int)
    requires IsFirstMaxIndex(s, sentinel, i) && IsFirstMaxIndex(s, sentinel, j)
    ensures i == j
  {
  }

  /** A reference decoding that scans from the front instead of keeping a running maximum:
      position 0 wins when it clears the sentinel and is not beaten by the decoding of the rest. */
  function FirstMaxIndex(s: seq<real>, sentinel: real): (idx: int)
    ensures -1 <= idx < |s|
  {
    if |s| == 0 then -1
    else
      var j := FirstMaxIndex(s[1..], sentinel);
      if s[0] > sentinel && (j == -1 || s[0] >= s[1..][j]) then 0
      else if j == -1 then -1
      else j + 1
  }

  /** The reference decoding satisfies the declarative one (so, by uniqueness, it is the only one). */
  lemma {:induction false} FirstMaxIndexCorrect(s: seq<real>, sentinel: real)
    ensures IsFirstMaxIndex(s, sentinel, FirstMaxIndex(s, sentinel))
  {
    if |s| > 0 {
      var t := s[1..];
      FirstMaxIndexCorrect(t, sentinel);
      var j := FirstMaxIndex(t, sentinel);
      forall i | 1 <= i < |s|
        ensures s[i] == t[i - 1]
      {
      }
    }
  }

  /** The decoding loop of `classify`: ties go to the earliest index, and nothing at or below
      the sentinel is ever chosen. */
  method ArgMaxAbove(outputs: array<real>, sentinel: real) returns (idx: int, maxConf: real)
    ensures IsFirstMaxIndex(outputs[..], sentinel, idx)
    ensures -1 <= idx < outputs.Length
    ensures maxConf == ConfidenceAt(outputs[..], sentinel, idx)
    ensures forall i :: 0 <= i < outputs.Length ==> outputs[i] <= maxConf
    ensures idx == FirstMaxIndex(outputs[..], sentinel)
  {
    maxConf := sentinel;
    idx := -1;
    for i := 0 to outputs.Length
      invariant IsFirstMaxIndex(outputs[..i], sentinel, idx)
      invariant -1 <= idx < i
      invariant maxConf == ConfidenceAt(outputs[..i], sentinel, idx)
    {
      if outputs[i] > maxConf {
        maxConf := outputs[i];
        idx := i;
      }
    }
    assert outputs[..] == outputs[..outputs.Length];
    FirstMaxIndexCorrect(outputs[..], sentinel);
    FirstMaxIndexUnique(outputs[..], sentinel, idx, FirstMaxIndex(outputs[..], sentinel));
  }
}
