/** The batch-and-flush pattern shared by the link precompute and the entry loader:
    items are buffered and written out in batches, and `Flatten` recovers the order in
    which they were written. */
module Batching {

  function Flatten<T>(batches: seq<seq<T>>): (r: seq<T>)
    ensures batches == [] ==> r == []
  {
    if batches == [] then [] else Flatten(batches[..|batches| - 1]) + batches[|batches| - 1]
  }

  lemma FlattenAppend<T>(batches: seq<seq<T>>, b: seq<T>)
    ensures Flatten(batches + [b]) == Flatten(batches) + b
  {
    assert (batches + [b])[..|batches|] == batches;
  }

  /** Adding items to the open batch extends what has been emitted by them. */
  lemma BufferMore<T>(batches: seq<seq<T>>, buffer: seq<T>, emitted: seq<T>, more: seq<T>)
    requires emitted == Flatten(batches) + buffer
    ensures emitted + more == Flatten(batches) + (buffer + more)
  {
  }

  /** Flushing the open batch leaves what has been emitted unchanged. */
  lemma FlushBuffer<T>(batches: seq<seq<T>>, buffer: seq<T>, emitted: seq<T>)
    requires emitted == Flatten(batches) + buffer
    ensures emitted == Flatten(batches + [buffer]) + []
  {
    FlattenAppend(batches, buffer);
  }
}
