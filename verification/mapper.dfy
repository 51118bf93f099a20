/** Turning the latest viseme probabilities into blend-shape weights
    (`_outputBlendshapeList` in OVRLipSyncNode.cs): every binding is written in
    table order through the shape lookup, either with its weighted probability
    (continuous mode, zero while the gate is closed) or, in binarized mode,
    cleared and then the single winning binding written at full weight. */
module Mapper {
  import opened Outcomes
  import opened Visemes
  import opened Character
  import opened Resolver

  /** The binding table and the output map after one pass. */
  datatype Pass = Pass(bindings: seq<Binding>, output: Output)

  /** Why the binarized pass throws in the C# code: indexing an empty binding
      table, or looking up the candidate-table row of a winning binding number
      that is not a viseme ordinal (a table of more than 15 bindings). */
  datatype PullError = IndexOutOfRange | KeyNotFound

  /** Some binding of the table writes key `k`. */
  predicate WrittenBy(bs: seq<Binding>, character: Option<Library>, k: string)
  {
    exists i :: 0 <= i < |bs| && Writes(bs[i], character) && bs[i].shape == k
  }

  /** Binding `i` writes, and no later binding writes the same name. */
  predicate LastWriter(bs: seq<Binding>, character: Option<Library>, i: int)
  {
    && 0 <= i < |bs|
    && Writes(bs[i], character)
    && forall j :: i < j < |bs| ==> !(Writes(bs[j], character) && bs[j].shape == bs[i].shape)
  }

  /** Binding `m` is the last of the first `n` bindings to write name `k`. */
  predicate LastWriterBelow(bs: seq<Binding>, character: Option<Library>, k: string, n: int, m: int)
  {
    && 0 <= m < n <= |bs|
    && Writes(bs[m], character) && bs[m].shape == k
    && forall j :: m < j < n ==> !(Writes(bs[j], character) && bs[j].shape == k)
  }

  /** Among the first `n` bindings, a name written by one of them has a last
      writer there. */
  lemma {:induction false} LastWriterBelowExists(bs: seq<Binding>, character: Option<Library>, k: string, n: nat, i: nat)
    requires n <= |bs| && i < n && Writes(bs[i], character) && bs[i].shape == k
    ensures exists m :: LastWriterBelow(bs, character, k, n, m)
    decreases n
  {
    if Writes(bs[n - 1], character) && bs[n - 1].shape == k {
      assert LastWriterBelow(bs, character, k, n, n - 1);
    } else {
      LastWriterBelowExists(bs, character, k, n - 1, i);
      var m :| LastWriterBelow(bs, character, k, n - 1, m);
      assert LastWriterBelow(bs, character, k, n, m);
    }
  }

  /** Every written name has a last writer, and this is it. */
  lemma LastWriterExists(bs: seq<Binding>, character: Option<Library>, k: string) returns (m: nat)
    requires WrittenBy(bs, character, k)
    ensures LastWriter(bs, character, m) && bs[m].shape == k
  {
    var i :| 0 <= i < |bs| && Writes(bs[i], character) && bs[i].shape == k;
    LastWriterBelowExists(bs, character, k, |bs|, i);
    m :| LastWriterBelow(bs, character, k, |bs|, m);
  }

  /** A name is written by a table iff by its first binding or by the rest. */
  lemma WrittenByCons(bs: seq<Binding>, character: Option<Library>, k: string)
    requires |bs| > 0
    ensures WrittenBy(bs, character, k) <==>
      (Writes(bs[0], character) && bs[0].shape == k) || WrittenBy(bs[1..], character, k)
  {
    if WrittenBy(bs, character, k) && !(Writes(bs[0], character) && bs[0].shape == k) {
      var i :| 0 <= i < |bs| && Writes(bs[i], character) && bs[i].shape == k;
      assert bs[1..][i - 1] == bs[i];
    }
    if WrittenBy(bs[1..], character, k) {
      var i :| 0 <= i < |bs| - 1 && Writes(bs[1..][i], character) && bs[1..][i].shape == k;
      assert bs[i + 1] == bs[1..][i];
    }
  }

  /** The loop over the bindings: binding `i` is looked up and written with
      `values[i]`, one after the other. Each binding ends up looked up once,
      and the output gains exactly the names some binding writes. */
  function UpdateAll(bs: seq<Binding>, values: seq<real>, character: Option<Library>, out: Output): (r: Pass)
    requires |values| == |bs|
    ensures |r.bindings| == |bs|
    ensures forall i :: 0 <= i < |bs| ==> r.bindings[i] == Revalidated(bs[i], character)
    ensures forall k :: k in r.output <==> k in out || WrittenBy(bs, character, k)
    decreases |bs|
  {
    if |bs| == 0 then Pass([], out)
    else
      var u := UpdateShape(bs[0], values[0], character, out);
      var rest := UpdateAll(bs[1..], values[1..], character, u.output);
      assert forall k :: WrittenBy(bs, character, k) <==>
          (Writes(bs[0], character) && bs[0].shape == k) || WrittenBy(bs[1..], character, k) by {
        forall k ensures WrittenBy(bs, character, k) <==>
          (Writes(bs[0], character) && bs[0].shape == k) || WrittenBy(bs[1..], character, k)
        {
          WrittenByCons(bs, character, k);
        }
      }
      Pass([u.binding] + rest.bindings, rest.output)
  }

  /** What the loop writes: a name written by several bindings keeps the value
      of the last of them; names no binding writes keep their old value. */
  lemma {:induction false} UpdateAllValues(bs: seq<Binding>, values: seq<real>, character: Option<Library>, out: Output)
    requires |values| == |bs|
    ensures var r := UpdateAll(bs, values, character, out);
      && (forall i :: LastWriter(bs, character, i) ==>
            bs[i].shape in r.output && r.output[bs[i].shape] == values[i])
      && (forall k :: k in out && !WrittenBy(bs, character, k) ==> r.output[k] == out[k])
    decreases |bs|
  {
    if |bs| > 0 {
      var r := UpdateAll(bs, values, character, out);
      var u := UpdateShape(bs[0], values[0], character, out);
      UpdateAllValues(bs[1..], values[1..], character, u.output);
      forall i | LastWriter(bs, character, i)
        ensures bs[i].shape in r.output && r.output[bs[i].shape] == values[i]
      {
        WrittenByCons(bs, character, bs[i].shape);
        if i > 0 {
          assert LastWriter(bs[1..], character, i - 1);
        } else {
          assert !WrittenBy(bs[1..], character, bs[0].shape);
        }
      }
      forall k | k in out && !WrittenBy(bs, character, k)
        ensures r.output[k] == out[k]
      {
        WrittenByCons(bs, character, k);
      }
    }
  }

  /** Writing zeros everywhere leaves every written name at 0. */
  lemma ZerosEverywhere(bs: seq<Binding>, values: seq<real>, character: Option<Library>, out: Output)
    requires |values| == |bs| && forall i :: 0 <= i < |values| ==> values[i] == 0.0
    ensures forall k :: WrittenBy(bs, character, k) ==> UpdateAll(bs, values, character, out).output[k] == 0.0
  {
    UpdateAllValues(bs, values, character, out);
    forall k | WrittenBy(bs, character, k)
      ensures UpdateAll(bs, values, character, out).output[k] == 0.0
    {
      var m := LastWriterExists(bs, character, k);
    }
  }

  /** The classifier's probability for a binding's viseme. */
  function Probability(frame: seq<real>, b: Binding): real
    requires |frame| == VisemeCount
  {
    frame[Index(b.viseme)]
  }

  /** The probabilities of the bindings, in table order. */
  function Probabilities(bs: seq<Binding>, frame: seq<real>): (ps: seq<real>)
    requires |frame| == VisemeCount
    ensures |ps| == |bs| && forall i :: 0 <= i < |bs| ==> ps[i] == Probability(frame, bs[i])
  {
    seq(|bs|, i requires 0 <= i < |bs| => Probability(frame, bs[i]))
  }

  /** The value each binding is written with in continuous mode. */
  function Level(b: Binding, frame: seq<real>, gateOpen: bool): real
    requires |frame| == VisemeCount
  {
    if gateOpen then b.weight * Probability(frame, b) else 0.0
  }

  function Levels(bs: seq<Binding>, frame: seq<real>, gateOpen: bool): (vs: seq<real>)
    requires |frame| == VisemeCount
    ensures |vs| == |bs| && forall i :: 0 <= i < |bs| ==> vs[i] == Level(bs[i], frame, gateOpen)
  {
    seq(|bs|, i requires 0 <= i < |bs| => Level(bs[i], frame, gateOpen))
  }

  /** Continuous mode: while the gate is open every written name carries the
      weight times the probability of its (last) binding; while it is closed
      every written name is 0. Names no binding writes keep their old value. */
  function Continuous(bs: seq<Binding>, frame: seq<real>, gateOpen: bool,
                      character: Option<Library>, out: Output): (r: Pass)
    requires |frame| == VisemeCount
    ensures |r.bindings| == |bs| && forall i :: 0 <= i < |bs| ==> r.bindings[i] == Revalidated(bs[i], character)
    ensures forall k :: k in r.output <==> k in out || WrittenBy(bs, character, k)
    ensures forall k :: k in out && !WrittenBy(bs, character, k) ==> r.output[k] == out[k]
    ensures gateOpen ==> forall i :: LastWriter(bs, character, i) ==>
              bs[i].shape in r.output && r.output[bs[i].shape] == Level(bs[i], frame, true)
    ensures !gateOpen ==> forall k :: WrittenBy(bs, character, k) ==> r.output[k] == 0.0
  {
    var values := Levels(bs, frame, gateOpen);
    UpdateAllValues(bs, values, character, out);
    if gateOpen then UpdateAll(bs, values, character, out)
    else
      ZerosEverywhere(bs, values, character, out);
      UpdateAll(bs, values, character, out)
  }

  /** Binding `w` wins the binarized search over `ps`: if no probability is
      above 0 it is binding 0; otherwise its probability is the largest and
      every earlier binding's is strictly smaller. */
  ghost predicate IsWinner(ps: seq<real>, w: nat)
  {
    || (w == 0 && forall j :: 0 <= j < |ps| ==> ps[j] <= 0.0)
    || (&& w < |ps|
        && ps[w] > 0.0
        && (forall j :: 0 <= j < |ps| ==> ps[j] <= ps[w])
        && (forall j :: 0 <= j < w ==> ps[j] < ps[w]))
  }

  /** The winner loop from position `i`, with the best binding so far and its
      value; the search starts at binding 0 with value 0 and only a strictly
      larger value replaces the best. */
  function WinnerFrom(ps: seq<real>, i: nat, best: nat, bestValue: real): (w: nat)
    requires i <= |ps|
    requires || (best == 0 && bestValue == 0.0 && forall j :: 0 <= j < i ==> ps[j] <= 0.0)
             || (&& best < i
                 && bestValue == ps[best] > 0.0
                 && (forall j :: 0 <= j < i ==> ps[j] <= bestValue)
                 && (forall j :: 0 <= j < best ==> ps[j] < bestValue))
    ensures IsWinner(ps, w)
    decreases |ps| - i
  {
    if i == |ps| then best
    else if ps[i] > bestValue then WinnerFrom(ps, i + 1, i, ps[i])
    else WinnerFrom(ps, i + 1, best, bestValue)
  }

  /** The binarized winner: the lowest binding number with the strictly
      largest probability, or binding 0 if no probability is above 0. */
  function Winner(ps: seq<real>): (w: nat)
    ensures IsWinner(ps, w)
    ensures |ps| > 0 ==> w < |ps|
  {
    WinnerFrom(ps, 0, 0, 0.0)
  }

  /** Binarized mode: with no bindings the winner does not exist and the pass
      fails. Otherwise every binding is looked up once, every written name is 0
      except the winner's name, which carries the winner's weight (when the
      winner's name is written at all); names no binding writes keep their old
      value. The gate plays no part. */
  function Binarized(bs: seq<Binding>, frame: seq<real>, character: Option<Library>, out: Output): (r: Result<Pass, PullError>)
    requires |frame| == VisemeCount
    ensures r == Failure(IndexOutOfRange) <==> |bs| == 0
    ensures r == Failure(KeyNotFound) <==> |bs| > 0 && Winner(Probabilities(bs, frame)) >= VisemeCount
    ensures r.Success? <==> |bs| > 0 && Winner(Probabilities(bs, frame)) < VisemeCount
    ensures r.Success? ==>
      var w := Winner(Probabilities(bs, frame));
      && w < |bs|
      && |r.value.bindings| == |bs|
      && (forall i :: 0 <= i < |bs| ==> r.value.bindings[i] == Revalidated(bs[i], character))
      && (forall k :: k in r.value.output <==> k in out || WrittenBy(bs, character, k))
      && (forall k :: k in out && !WrittenBy(bs, character, k) ==> r.value.output[k] == out[k])
      && (Writes(bs[w], character) ==> bs[w].shape in r.value.output && r.value.output[bs[w].shape] == bs[w].weight)
      && (forall k :: WrittenBy(bs, character, k) && !(Writes(bs[w], character) && k == bs[w].shape) ==>
            r.value.output[k] == 0.0)
  {
    var zeros := seq(|bs|, i => 0.0);
    var cleared := UpdateAll(bs, zeros, character, out);
    ZerosEverywhere(bs, zeros, character, out);
    UpdateAllValues(bs, zeros, character, out);
    if |bs| == 0 then Failure(IndexOutOfRange)
    else
      var w := Winner(Probabilities(bs, frame));
      if w >= VisemeCount then Failure(KeyNotFound)
      else
        var b := cleared.bindings[w];
        RevalidatedIdempotent(bs[w], character);
        var u := UpdateShape(b, b.weight * 1.0, character, cleared.output);
        Success(Pass(cleared.bindings[w := u.binding], u.output))
  }
}
