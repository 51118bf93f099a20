/** The character's blend-shape library as the node sees it: an ordered list of
    meshes, each with the ordered list of shape names it carries. */
module Character {

  datatype Mesh = Mesh(id: string, aliases: seq<string>)

  type Library = seq<Mesh>

  /** Some mesh of the library lists `name` exactly. */
  predicate HasShape(lib: Library, name: string)
  {
    exists k :: 0 <= k < |lib| && name in lib[k].aliases
  }

  /** Every shape name of the library, mesh after mesh, in library order. */
  function AllShapes(lib: Library): (r: seq<string>)
    ensures forall name :: name in r <==> HasShape(lib, name)
  {
    if |lib| == 0 then []
    else
      var rest := AllShapes(lib[1..]);
      assert forall name :: HasShape(lib[1..], name) ==> HasShape(lib, name) by {
        forall name | HasShape(lib[1..], name) ensures HasShape(lib, name) {
          var k :| 0 <= k < |lib| - 1 && name in lib[1..][k].aliases;
          assert name in lib[k + 1].aliases;
        }
      }
      assert forall name :: HasShape(lib, name) ==> name in lib[0].aliases || HasShape(lib[1..], name) by {
        forall name | HasShape(lib, name) ensures name in lib[0].aliases || HasShape(lib[1..], name) {
          var k :| 0 <= k < |lib| && name in lib[k].aliases;
          if k > 0 {
            assert name in lib[1..][k - 1].aliases;
          }
        }
      }
      lib[0].aliases + rest
  }
}
