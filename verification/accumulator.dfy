/** The sample accumulator of the audio callback
    (`SingleBlockNotificationStreamOnSingleBlockRead` in OVRLipSyncNode.cs): each
    stereo sample is stored as (left + right) * gain in a 512-slot buffer; when
    the buffer is full the write position returns to 0, the energy of the block
    is recomputed and, if a classifier context exists and the library is
    initialised, the block is handed to the classifier. The energy computation
    and the classifier are outside this model; the state only counts how often
    each of them ran. */
module Accumulator {

  const BufferSize: nat := 512

  /** The buffer, the next write position, the number of completed blocks
      (each recomputes the energy) and the number of classifier runs. */
  datatype Accumulator = Accumulator(buffer: seq<real>, index: nat, blocks: nat, processed: nat)

  datatype Sample = Sample(left: real, right: real)

  /** The buffer has its fixed size and the write position lies inside it. */
  predicate Valid(a: Accumulator)
  {
    |a.buffer| == BufferSize && a.index < BufferSize
  }

  /** A new node: an all-zero buffer written from the start. */
  function Initial(): (a: Accumulator)
    ensures Valid(a) && a.index == 0 && a.blocks == 0 && a.processed == 0
  {
    Accumulator(seq(BufferSize, _ => 0.0), 0, 0, 0)
  }

  /** The value stored for one sample. */
  function Level(s: Sample, gain: real): real
  {
    (s.left + s.right) * gain
  }

  /** The classifier is usable: a context handle was created (non-zero) and the
      library reports itself initialised. */
  predicate Ready(context: nat, initialized: bool)
  {
    context != 0 && initialized
  }

  /** One callback: the sample goes to the write position, which advances and
      wraps to 0 on a full buffer; a full buffer completes one block and, if the
      classifier is ready, one classifier run. */
  function OnSample(a: Accumulator, s: Sample, gain: real, ready: bool): (r: Accumulator)
    requires Valid(a)
    ensures Valid(r)
    ensures r.buffer == a.buffer[a.index := Level(s, gain)]
    ensures a.index + 1 < BufferSize ==> r.index == a.index + 1 && r.blocks == a.blocks && r.processed == a.processed
    ensures a.index + 1 == BufferSize ==>
      r.index == 0 && r.blocks == a.blocks + 1 && r.processed == a.processed + (if ready then 1 else 0)
  {
    var buffer := a.buffer[a.index := Level(s, gain)];
    var index := a.index + 1;
    if index >= BufferSize then
      Accumulator(buffer, 0, a.blocks + 1, if ready then a.processed + 1 else a.processed)
    else
      Accumulator(buffer, index, a.blocks, a.processed)
  }

  /** The sample that last wrote slot `p`, counted from the start of a stream
      of `n` samples that ended at write position `index` (negative: the slot
      was not written during the stream). */
  function LastWriteOf(n: int, index: int, p: int): int
  {
    if p < index then n - index + p else n - index - BufferSize + p
  }

  /** A stream of callbacks with a fixed gain and classifier state. No sample
      is dropped: the write position advances by the number of samples modulo
      the buffer size, every completed buffer counts one block and (if the
      classifier is ready) exactly one classifier run, and every slot holds the
      latest sample written to it, or its old value if the stream did not reach
      it. */
  method Stream(a: Accumulator, samples: seq<Sample>, gain: real, ready: bool) returns (r: Accumulator)
    requires Valid(a)
    ensures Valid(r)
    ensures r.index == (a.index + |samples|) % BufferSize
    ensures r.blocks == a.blocks + (a.index + |samples|) / BufferSize
    ensures r.processed == a.processed + (if ready then (a.index + |samples|) / BufferSize else 0)
    ensures forall p :: 0 <= p < BufferSize ==>
      var j := LastWriteOf(|samples|, r.index, p);
      (0 <= j ==> j < |samples| && r.buffer[p] == Level(samples[j], gain)) &&
      (j < 0 ==> r.buffer[p] == a.buffer[p])
  {
    r := a;
    var i := 0;
    while i < |samples|
      invariant 0 <= i <= |samples|
      invariant Valid(r)
      invariant r.index == (a.index + i) % BufferSize
      invariant r.blocks == a.blocks + (a.index + i) / BufferSize
      invariant r.processed == a.processed + (if ready then (a.index + i) / BufferSize else 0)
      invariant forall p :: 0 <= p < BufferSize ==>
        var j := LastWriteOf(i, r.index, p);
        (0 <= j ==> j < i && r.buffer[p] == Level(samples[j], gain)) &&
        (j < 0 ==> r.buffer[p] == a.buffer[p])
    {
      DivModStep(a.index + i);
      r := OnSample(r, samples[i], gain, ready);
      i := i + 1;
    }
  }

  /** Moving one position on: the position wraps exactly when it was the last
      slot, and then the block count goes up by one. */
  lemma DivModStep(x: nat)
    ensures x % BufferSize + 1 < BufferSize ==>
      (x + 1) % BufferSize == x % BufferSize + 1 && (x + 1) / BufferSize == x / BufferSize
    ensures x % BufferSize + 1 == BufferSize ==>
      (x + 1) % BufferSize == 0 && (x + 1) / BufferSize == x / BufferSize + 1
  {
  }
}
