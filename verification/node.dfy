/** The node as a whole (`OVRLipSyncNode`): its state, its creation, the
    automatic mapping trigger, the per-frame update, the output pull and the
    audio callback, each built from the components. */
module LipSyncNode {
  import opened Outcomes
  import opened Visemes
  import opened Character
  import AutoMap
  import opened Resolver
  import Gate
  import Mapper
  import Audio = Accumulator

  /** The user-tunable inputs the core reads. `showDebug` matters because the
      debug display queries the gate every frame. */
  datatype Settings = Settings(gain: real, noiseGateDb: real, holdOpen: real, binarize: bool, showDebug: bool)

  /** Node state: settings, the binding table (absent before creation), the
      character, the output map, the latest classifier frame, the current level
      in decibels (computed from the audio energy outside this model), the
      gate's hold timer and the audio accumulator. */
  datatype Node = Node(
    settings: Settings,
    bindings: Option<seq<Binding>>,
    character: Option<Library>,
    output: Output,
    frame: seq<real>,
    levelDb: real,
    timer: real,
    audio: Audio.Accumulator)

  /** Creation keeps a non-empty table and otherwise builds the default table:
      one fresh binding per viseme, binding `i` for viseme `i`. */
  function InitBindings(current: Option<seq<Binding>>): (r: seq<Binding>)
    ensures |r| > 0
    ensures current.Some? && |current.value| > 0 ==> r == current.value
    ensures current.None? || |current.value| == 0 ==>
      |r| == VisemeCount && forall i :: 0 <= i < |r| ==> r[i].viseme == FromIndex(i) && r[i] == NewBinding(r[i].viseme)
  {
    if current.Some? && |current.value| > 0 then current.value else DefaultBindings()
  }

  function OnCreate(n: Node): (r: Node)
    ensures r.bindings.Some? && |r.bindings.value| > 0
    ensures r == n.(bindings := r.bindings)
  {
    n.(bindings := Some(InitBindings(n.bindings)))
  }

  /** Creating twice is creating once: an existing table survives creation. */
  lemma OnCreateIdempotent(n: Node)
    ensures OnCreate(OnCreate(n)) == OnCreate(n)
  {
  }

  /** Automatic mapping without a character changes nothing; with one it
      replaces the whole table by one binding per viseme, listed in the same
      order as the default table, each new (weight 1.0, unresolved) with the
      shape the search picks for its row, and touches nothing else. */
  method AutoMapVisemes(n: Node) returns (r: Node)
    ensures n.character.None? ==> r == n
    ensures n.character.Some? ==>
      && r == n.(bindings := r.bindings)
      && r.bindings.Some? && |r.bindings.value| == VisemeCount
      && forall i :: 0 <= i < VisemeCount ==>
           && r.bindings.value[i].viseme == DefaultBindings()[i].viseme
           && r.bindings.value[i].shape == AutoMap.BestShape(n.character.value, AutoMap.Table[i].tokens)
           && r.bindings.value[i].weight == DefaultWeight
           && !r.bindings.value[i].valid
  {
    var mapped := AutoMap.AutoMapVisemes(n.character);
    match mapped
    case Failure(_) =>
      r := n;
    case Success(bs) =>
      r := n.(bindings := Some(bs));
  }

  /** One frame of the host: only the hold timer changes. It first ticks down
      (a positive timer loses the frame time, any other becomes 0); then, with
      the debug display on, the display's gate query reloads it to the hold time
      when the level is loud. */
  function OnUpdate(n: Node, delta: real): (r: Node)
    ensures var ticked := if n.timer > 0.0 then n.timer - delta else 0.0;
      r.timer == if n.settings.showDebug && n.levelDb >= n.settings.noiseGateDb then n.settings.holdOpen else ticked
    ensures r == n.(timer := r.timer)
  {
    var ticked := Gate.Tick(n.timer, delta);
    var t := if n.settings.showDebug
      then Gate.GateOpen(n.levelDb, n.settings.noiseGateDb, n.settings.holdOpen, ticked).timer
      else ticked;
    n.(timer := t)
  }

  /** The output pull. Without a table nothing happens. Otherwise the gate is
      queried (reloading its timer on a loud level, in both modes) and the
      table is written in the selected mode; binarized mode fails on an empty
      table and when the winning binding number is not a viseme ordinal. */
  function OutputPull(n: Node): (r: Result<Node, Mapper.PullError>)
    requires |n.frame| == VisemeCount
    ensures n.bindings.None? ==> r == Success(n)
    ensures r == Failure(Mapper.IndexOutOfRange) <==> n.bindings == Some([]) && n.settings.binarize
    ensures r == Failure(Mapper.KeyNotFound) <==>
      && n.bindings.Some? && |n.bindings.value| > 0 && n.settings.binarize
      && Mapper.Winner(Mapper.Probabilities(n.bindings.value, n.frame)) >= VisemeCount
    ensures r.Success? && n.bindings.Some? ==>
      && r.value.timer == Gate.GateOpen(n.levelDb, n.settings.noiseGateDb, n.settings.holdOpen, n.timer).timer
      && r.value.bindings.Some? && |r.value.bindings.value| == |n.bindings.value|
      && r.value == n.(bindings := r.value.bindings, output := r.value.output, timer := r.value.timer)
    ensures n.bindings.Some? && !n.settings.binarize ==>
      var p := Mapper.Continuous(n.bindings.value, n.frame,
        Gate.GateOpen(n.levelDb, n.settings.noiseGateDb, n.settings.holdOpen, n.timer).open, n.character, n.output);
      && r.Success?
      && r.value.bindings == Some(p.bindings)
      && r.value.output == p.output
    ensures n.bindings.Some? && n.settings.binarize && r.Success? ==>
      var q := Mapper.Binarized(n.bindings.value, n.frame, n.character, n.output);
      && q.Success?
      && r.value.bindings == Some(q.value.bindings)
      && r.value.output == q.value.output
  {
    match n.bindings
    case None => Success(n)
    case Some(bs) =>
      var g := Gate.GateOpen(n.levelDb, n.settings.noiseGateDb, n.settings.holdOpen, n.timer);
      if n.settings.binarize then
        match Mapper.Binarized(bs, n.frame, n.character, n.output)
        case Failure(e) => Failure(e)
        case Success(p) => Success(n.(bindings := Some(p.bindings), output := p.output, timer := g.timer))
      else
        var p := Mapper.Continuous(bs, n.frame, g.open, n.character, n.output);
        Success(n.(bindings := Some(p.bindings), output := p.output, timer := g.timer))
  }

  /** Once created, the output pull never hits the empty-table failure; over
      the 15 bindings an automatic mapping leaves it never fails at all. */
  lemma PullSucceedsAfterCreate(n: Node, remapped: seq<Binding>)
    requires |n.frame| == VisemeCount && |remapped| == VisemeCount
    ensures OutputPull(OnCreate(n)) != Failure(Mapper.IndexOutOfRange)
    ensures OutputPull(n.(bindings := Some(remapped))).Success?
  {
    var m := n.(bindings := Some(remapped));
    if m.settings.binarize {
      var w := Mapper.Winner(Mapper.Probabilities(remapped, n.frame));
      assert w < VisemeCount;
    }
  }

  /** Binarized mode does not consult the gate: the level and the hold timer
      have no effect on the table or on the output map. */
  lemma BinarizedIgnoresGate(n: Node, levelDb: real, timer: real)
    requires |n.frame| == VisemeCount && n.settings.binarize
    ensures var quiet := n.(levelDb := levelDb, timer := timer);
      && OutputPull(n).Success? == OutputPull(quiet).Success?
      && (OutputPull(n).Success? ==>
            && OutputPull(n).value.output == OutputPull(quiet).value.output
            && OutputPull(n).value.bindings == OutputPull(quiet).value.bindings)
  {
  }

  /** Continuous mode with the gate closed (a quiet level and no hold time
      left) writes 0 for every name some binding writes. */
  lemma ClosedGateSilences(n: Node)
    requires |n.frame| == VisemeCount && !n.settings.binarize
    requires n.bindings.Some? && n.levelDb < n.settings.noiseGateDb && n.timer <= 0.0
    ensures forall k :: Mapper.WrittenBy(n.bindings.value, n.character, k) ==>
      OutputPull(n).value.output[k] == 0.0
  {
  }

  /** The audio callback feeds the accumulator with the node's gain; the
      classifier runs only with a context handle and an initialised library. */
  function OnAudioSample(n: Node, s: Audio.Sample, context: nat, initialized: bool): (r: Node)
    requires Audio.Valid(n.audio)
    ensures Audio.Valid(r.audio)
    ensures r == n.(audio := r.audio)
    ensures r.audio.buffer[n.audio.index] == (s.left + s.right) * n.settings.gain
    ensures r.audio.processed > n.audio.processed <==>
      n.audio.index + 1 == Audio.BufferSize && context != 0 && initialized
  {
    n.(audio := Audio.OnSample(n.audio, s, n.settings.gain, Audio.Ready(context, initialized)))
  }
}
