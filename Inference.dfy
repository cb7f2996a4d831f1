/** The inference graph both classifiers load from the application's assets. The graph is
    a foreign computation (TensorFlow), modelled as a function from input to outputs. */
module Inference {
  /** A loaded inference graph: feed an input vector, run, fetch the output vector. */
  type Network = seq<real> -> seq<real>
}
