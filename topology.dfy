/** The fixed topology and training constants of the network (main.c:8-14). */
module Topology {

  const INPUT_NODES: nat := 8
  const HIDDEN_NODES: nat := 16
  const OUTPUT_NODES: nat := 2
  const EPOCHS: nat := 100

  /** `LEARNING_RATE` is the float literal 0.001f; the model uses the real 0.001. */
  const LEARNING_RATE: real := 0.001

  /** The `1e-8f` guard that `zscore` adds to the standard deviation. */
  const STD_EPSILON: real := 0.00000001
}
