/** The fifteen visemes of the classifier and the per-viseme binding record
    (`VisemeData` in OVRLipSyncNode.cs). */
module Visemes {

  /** Oculus viseme identities in their enumeration order: silence, then the
      fourteen mouth shapes. */
  datatype Viseme = Sil | PP | FF | TH | DD | KK | CH | SS | NN | RR | AA | E | IH | OH | OU

  const VisemeCount: nat := 15

  /** The ordinal of a viseme, `(int)viseme` in `OVRLipSyncNode`. */
  function Index(v: Viseme): (i: nat)
    ensures i < VisemeCount
  {
    match v
    case Sil => 0  case PP => 1   case FF => 2   case TH => 3   case DD => 4
    case KK => 5   case CH => 6   case SS => 7   case NN => 8   case RR => 9
    case AA => 10  case E => 11   case IH => 12  case OH => 13  case OU => 14
  }

  /** The viseme with a given ordinal, `(Viseme)i` in `OVRLipSyncNode`. */
  function FromIndex(i: nat): (v: Viseme)
    requires i < VisemeCount
    ensures Index(v) == i
  {
    [Sil, PP, FF, TH, DD, KK, CH, SS, NN, RR, AA, E, IH, OH, OU][i]
  }

  /** Ordinals identify visemes: converting to an ordinal and back is the identity. */
  lemma IndexRoundTrip(v: Viseme)
    ensures FromIndex(Index(v)) == v
  {
  }

  /** One row of the viseme table: which viseme, which blend-shape name it
      drives, a weight multiplier (0 to 2 in the editor) and the cached flag that
      says the name was already found on the character. */
  datatype Binding = Binding(viseme: Viseme, shape: string, weight: real, valid: bool)

  const DefaultWeight: real := 1.0

  /** A freshly created binding: no shape, default weight, not yet resolved. */
  function NewBinding(v: Viseme): (b: Binding)
    ensures b.viseme == v && b.shape == [] && b.weight == DefaultWeight && !b.valid
  {
    Binding(v, [], DefaultWeight, false)
  }

  /** Editing the shape name; a changed name clears the cached flag. */
  function SetShape(b: Binding, shape: string): (r: Binding)
    ensures r.shape == shape && r.viseme == b.viseme && r.weight == b.weight
    ensures r.valid <==> b.valid && shape == b.shape
  {
    if shape == b.shape then b else b.(shape := shape, valid := false)
  }

  /** Editing the viseme; a changed viseme clears the cached flag. */
  function SetViseme(b: Binding, v: Viseme): (r: Binding)
    ensures r.viseme == v && r.shape == b.shape && r.weight == b.weight
    ensures r.valid <==> b.valid && v == b.viseme
  {
    if v == b.viseme then b else b.(viseme := v, valid := false)
  }

  /** Editing the weight leaves the cached flag alone. */
  function SetWeight(b: Binding, w: real): (r: Binding)
    ensures r.weight == w && r.viseme == b.viseme && r.shape == b.shape && r.valid == b.valid
  {
    b.(weight := w)
  }

  /** The binding table created with a new node: binding `i` drives viseme `i`. */
  function DefaultBindings(): (r: seq<Binding>)
    ensures |r| == VisemeCount
    ensures forall i :: 0 <= i < |r| ==> r[i] == NewBinding(FromIndex(i))
  {
    seq(VisemeCount, i requires 0 <= i < VisemeCount => NewBinding(FromIndex(i)))
  }
}
