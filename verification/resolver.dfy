/** Writing one binding's value into the output map, with the cached
    "name was found on the character" flag (`UpdateShape` in OVRLipSyncNode.cs). */
module Resolver {
  import opened Outcomes
  import opened Visemes
  import opened Character

  /** The blend-shape list the node hands to the host: shape name to weight. */
  type Output = map<string, real>

  /** A binding after one lookup and the output map after its write. */
  datatype Update = Update(binding: Binding, output: Output)

  /** The character is present and lists `name` on some mesh. */
  predicate Known(character: Option<Library>, name: string)
  {
    character.Some? && HasShape(character.value, name)
  }

  /** The binding's shape gets written: it has a name, and that name is either
      already cached as valid or found on the character now. */
  predicate Writes(b: Binding, character: Option<Library>)
  {
    b.shape != [] && (b.valid || Known(character, b.shape))
  }

  /** The lookup cannot use the cache and walks the character's meshes. */
  predicate Scans(b: Binding, character: Option<Library>)
  {
    b.shape != [] && !b.valid && character.Some?
  }

  /** The binding as a lookup leaves it: valid once its name has been found. */
  function Revalidated(b: Binding, character: Option<Library>): Binding
  {
    b.(valid := b.valid || (b.shape != [] && Known(character, b.shape)))
  }

  /** The mesh loop of an uncached lookup: each mesh whose list holds the name
      marks the binding valid and writes the value. */
  function ScanMeshes(meshes: Library, b: Binding, value: real, out: Output): (r: Update)
    ensures r.binding == b.(valid := b.valid || HasShape(meshes, b.shape))
    ensures r.output == if HasShape(meshes, b.shape) then out[b.shape := value] else out
    decreases |meshes|
  {
    if |meshes| == 0 then Update(b, out)
    else
      assert HasShape(meshes, b.shape) <==> b.shape in meshes[0].aliases || HasShape(meshes[1..], b.shape) by {
        if HasShape(meshes[1..], b.shape) {
          var k :| 0 <= k < |meshes| - 1 && b.shape in meshes[1..][k].aliases;
          assert b.shape in meshes[k + 1].aliases;
        }
        if HasShape(meshes, b.shape) && b.shape !in meshes[0].aliases {
          var k :| 0 <= k < |meshes| && b.shape in meshes[k].aliases;
          assert b.shape in meshes[1..][k - 1].aliases;
        }
      }
      var u := if b.shape in meshes[0].aliases then Update(b.(valid := true), out[b.shape := value])
               else Update(b, out);
      ScanMeshes(meshes[1..], u.binding, value, u.output)
  }

  /** An empty name writes nothing; a cached binding writes its name without a
      lookup; otherwise the binding becomes valid, and its name is written, iff
      some mesh of the character lists the name exactly. No other entry of the
      output map changes. */
  function UpdateShape(b: Binding, value: real, character: Option<Library>, out: Output): (r: Update)
    ensures r.binding == Revalidated(b, character)
    ensures Writes(b, character) ==> r.output == out[b.shape := value]
    ensures !Writes(b, character) ==> r.output == out
    ensures forall k :: k != b.shape ==> (k in r.output <==> k in out)
    ensures forall k :: k != b.shape && k in out ==> r.output[k] == out[k]
  {
    if b.shape == [] then Update(b, out)
    else if b.valid then Update(b, out[b.shape := value])
    else match character
      case None => Update(b, out)
      case Some(lib) => ScanMeshes(lib, b, value, out)
  }

  /** After a lookup that wrote, the binding is cached: the next lookup, even
      against another character, skips the scan and writes the name directly. */
  lemma CachedLookupSkipsScan(b: Binding, v1: real, v2: real, character: Option<Library>,
                              later: Option<Library>, out: Output, out2: Output)
    requires Writes(b, character)
    ensures var b1 := UpdateShape(b, v1, character, out).binding;
      && !Scans(b1, later)
      && UpdateShape(b1, v2, later, out2) == Update(b1, out2[b.shape := v2])
  {
  }

  /** Looking up twice changes the binding no further. */
  lemma RevalidatedIdempotent(b: Binding, character: Option<Library>)
    ensures Revalidated(Revalidated(b, character), character) == Revalidated(b, character)
    ensures Writes(Revalidated(b, character), character) <==> Writes(b, character)
  {
  }

  /** Renaming a binding drops its cache: with a character present the next
      lookup scans again, and it writes iff the character has the new name. */
  lemma RenameForcesLookup(b: Binding, name: string, value: real, lib: Library, out: Output)
    requires name != [] && name != b.shape
    ensures Scans(SetShape(b, name), Some(lib))
    ensures UpdateShape(SetShape(b, name), value, Some(lib), out).output ==
      if HasShape(lib, name) then out[name := value] else out
  {
  }
}
