/** Automatic viseme-to-shape matching (`AutoMapVisemes` and the `_automap`
    table in OVRLipSyncNode.cs). For every viseme a fixed list of candidate
    tokens is compared, after lower-casing, with every non-empty shape name of
    every mesh; the shape with the smallest edit distance wins, an exact match
    ends the search at once. */
module AutoMap {
  import opened Outcomes
  import opened Text
  import opened Levenshtein
  import opened Visemes
  import opened Character

  /** The distance the search starts from; only strictly smaller distances are kept. */
  const Ceiling: nat := 200

  /** One row of the candidate table: a viseme and its tokens, most specific first. */
  datatype Entry = Entry(viseme: Viseme, tokens: seq<string>)

  /** The candidate table, in viseme order. The first ten rows end with the
      empty token, which scores every shape by its length. */
  const Table: seq<Entry> := [
    Entry(Sil, ["vrc/sil", "vrc.v_sil", "sil", ""]),
    Entry(PP,  ["vrc/pp",  "vrc.v_pp",  "pp",  ""]),
    Entry(FF,  ["vrc/ff",  "vrc.v_ff",  "ff",  ""]),
    Entry(TH,  ["vrc/th",  "vrc.v_th",  "th",  ""]),
    Entry(DD,  ["vrc/dd",  "vrc.v_dd",  "dd",  ""]),
    Entry(KK,  ["vrc/kk",  "vrc.v_kk",  "kk",  ""]),
    Entry(CH,  ["vrc/ch",  "vrc.v_ch",  "ch",  ""]),
    Entry(SS,  ["vrc/ss",  "vrc.v_ss",  "ss",  ""]),
    Entry(NN,  ["vrc/nn",  "vrc.v_nn",  "nn",  ""]),
    Entry(RR,  ["vrc/rr",  "vrc.v_rr",  "rr",  ""]),
    Entry(AA,  ["vrc/aa",  "vrc.v_aa",  "aa",  "a"]),
    Entry(E,   ["vrc/e",   "vrc.v_e",   "e",   "e"]),
    Entry(IH,  ["vrc/ih",  "vrc.v_ih",  "ih",  "i"]),
    Entry(OH,  ["vrc/oh",  "vrc.v_oh",  "oh",  "o"]),
    Entry(OU,  ["vrc/ou",  "vrc.v_ou",  "ou",  "u"])
  ]

  datatype AutoMapError = NoCharacter

  /** The table lists every viseme once, in enumeration order, with four tokens each. */
  lemma TableInVisemeOrder()
    ensures |Table| == VisemeCount
    ensures forall i :: 0 <= i < |Table| ==> Table[i].viseme == FromIndex(i) && |Table[i].tokens| == 4
  {
  }

  /** Case-insensitive edit distance between a candidate token and a shape name. */
  function Distance(token: string, shape: string): nat
  {
    EditDistance(Lower(token), Lower(shape))
  }

  // ---------------------------------------------------------------------------
  // The search as the source performs it: three nested loops with a shared
  // (best, bestDist, found) state.
  // ---------------------------------------------------------------------------

  datatype Search = Search(best: string, bestDist: int, found: bool)

  const Start: Search := Search([], Ceiling, false)

  /** Innermost loop: one shape against every candidate token. */
  function ScanTokens(shape: string, tokens: seq<string>, st: Search): Search
  {
    if |tokens| == 0 then st
    else
      var dist := Distance(tokens[0], shape);
      if dist == 0 then st.(best := shape, found := true)
      else
        var st' := if dist < st.bestDist then st.(best := shape, bestDist := dist) else st;
        ScanTokens(shape, tokens[1..], st')
  }

  /** Middle loop: the shapes of one mesh, skipping empty names, until found. */
  function ScanShapes(shapes: seq<string>, tokens: seq<string>, st: Search): Search
  {
    if |shapes| == 0 || st.found then st
    else
      var st' := if shapes[0] == [] then st else ScanTokens(shapes[0], tokens, st);
      ScanShapes(shapes[1..], tokens, st')
  }

  /** Outer loop: the meshes of the character, until found. */
  function ScanMeshes(lib: Library, tokens: seq<string>, st: Search): Search
  {
    if |lib| == 0 || st.found then st
    else ScanMeshes(lib[1..], tokens, ScanShapes(lib[0].aliases, tokens, st))
  }

  /** The shape name chosen for one row of the table. */
  function BestShape(lib: Library, tokens: seq<string>): string
  {
    ScanMeshes(lib, tokens, Start).best
  }

  // ---------------------------------------------------------------------------
  // An independent description of the choice over the flat list of shapes.
  // ---------------------------------------------------------------------------

  /** Some token equals the shape name up to letter case. */
  predicate MatchesToken(shape: string, tokens: seq<string>)
  {
    exists i :: 0 <= i < |tokens| && EqualIgnoringCase(tokens[i], shape)
  }

  /** A shape the search accepts on sight: non-empty and matching a token. */
  predicate Exact(shape: string, tokens: seq<string>)
  {
    shape != [] && MatchesToken(shape, tokens)
  }

  /** The best distance of a shape over all tokens, capped at the ceiling. */
  function Score(shape: string, tokens: seq<string>): (r: nat)
    ensures r <= Ceiling
  {
    if |tokens| == 0 then Ceiling else Min(Distance(tokens[0], shape), Score(shape, tokens[1..]))
  }

  /** The smallest score among the non-empty shapes, the ceiling if there is none. */
  function MinScore(shapes: seq<string>, tokens: seq<string>): (r: nat)
    ensures r <= Ceiling
  {
    if |shapes| == 0 then Ceiling
    else if shapes[0] == [] then MinScore(shapes[1..], tokens)
    else Min(Score(shapes[0], tokens), MinScore(shapes[1..], tokens))
  }

  /** The first shape accepted on sight, if any. */
  function FirstExact(shapes: seq<string>, tokens: seq<string>): Option<string>
  {
    if |shapes| == 0 then None
    else if Exact(shapes[0], tokens) then Some(shapes[0])
    else FirstExact(shapes[1..], tokens)
  }

  /** The first non-empty shape whose score is the smallest. */
  function FirstNearest(shapes: seq<string>, tokens: seq<string>): string
  {
    if |shapes| == 0 then []
    else if shapes[0] != [] && Score(shapes[0], tokens) <= MinScore(shapes[1..], tokens) then shapes[0]
    else FirstNearest(shapes[1..], tokens)
  }

  /** The choice: the first exact match; otherwise the first nearest shape if
      it beats the ceiling; otherwise no shape. */
  function Reference(shapes: seq<string>, tokens: seq<string>): string
  {
    match FirstExact(shapes, tokens)
    case Some(s) => s
    case None => if MinScore(shapes, tokens) < Ceiling then FirstNearest(shapes, tokens) else []
  }

  // ---------------------------------------------------------------------------
  // The nested loops compute the reference choice.
  // ---------------------------------------------------------------------------

  /** Distance 0 is exactly a case-insensitive match. */
  lemma DistanceZeroIffMatch(token: string, shape: string)
    ensures Distance(token, shape) == 0 <==> EqualIgnoringCase(token, shape)
  {
    DistanceZeroIffEqual(Lower(token), Lower(shape));
  }

  /** One shape against the token list: found iff some token matches; otherwise
      the best distance drops to the shape's score and the shape is kept iff its
      score beats the previous best. */
  lemma {:induction false} ScanTokensSpec(shape: string, tokens: seq<string>, st: Search)
    requires !st.found && st.bestDist <= Ceiling
    ensures var r := ScanTokens(shape, tokens, st);
      && (MatchesToken(shape, tokens) ==> r.found && r.best == shape)
      && (!MatchesToken(shape, tokens) ==>
            && !r.found
            && r.bestDist == (if Score(shape, tokens) < st.bestDist then Score(shape, tokens) else st.bestDist)
            && r.best == (if Score(shape, tokens) < st.bestDist then shape else st.best))
    decreases |tokens|
  {
    if |tokens| > 0 {
      var dist := Distance(tokens[0], shape);
      DistanceZeroIffMatch(tokens[0], shape);
      assert MatchesToken(shape, tokens) <==>
        EqualIgnoringCase(tokens[0], shape) || MatchesToken(shape, tokens[1..]) by {
        if MatchesToken(shape, tokens[1..]) {
          var i :| 0 <= i < |tokens| - 1 && EqualIgnoringCase(tokens[1..][i], shape);
          assert EqualIgnoringCase(tokens[i + 1], shape);
        }
        if MatchesToken(shape, tokens) && !EqualIgnoringCase(tokens[0], shape) {
          var i :| 0 <= i < |tokens| && EqualIgnoringCase(tokens[i], shape);
          assert i > 0 && EqualIgnoringCase(tokens[1..][i - 1], shape);
        }
      }
      if dist != 0 {
        var st' := if dist < st.bestDist then st.(best := shape, bestDist := dist) else st;
        ScanTokensSpec(shape, tokens[1..], st');
      }
    }
  }

  /** The shape loop over a flat list computes the reference choice from any
      unfinished state. */
  lemma {:induction false} ScanShapesSpec(shapes: seq<string>, tokens: seq<string>, st: Search)
    requires !st.found && st.bestDist <= Ceiling
    ensures var r := ScanShapes(shapes, tokens, st);
      && (FirstExact(shapes, tokens).Some? ==> r.found && r.best == FirstExact(shapes, tokens).value)
      && (FirstExact(shapes, tokens).None? ==>
            && !r.found
            && r.bestDist == (if MinScore(shapes, tokens) < st.bestDist then MinScore(shapes, tokens) else st.bestDist)
            && r.best == (if MinScore(shapes, tokens) < st.bestDist then FirstNearest(shapes, tokens) else st.best))
    decreases |shapes|
  {
    if |shapes| > 0 {
      var s := shapes[0];
      if s == [] {
        ScanShapesSpec(shapes[1..], tokens, st);
      } else {
        ScanTokensSpec(s, tokens, st);
        var st' := ScanTokens(s, tokens, st);
        if !Exact(s, tokens) {
          ScanShapesSpec(shapes[1..], tokens, st');
        }
      }
    }
  }

  /** Scanning a concatenation is scanning the parts one after the other. */
  lemma {:induction false} ScanShapesAppend(a: seq<string>, b: seq<string>, tokens: seq<string>, st: Search)
    ensures ScanShapes(a + b, tokens, st) == ScanShapes(b, tokens, ScanShapes(a, tokens, st))
    decreases |a|
  {
    if |a| == 0 {
      assert a + b == b;
    } else if !st.found {
      assert (a + b)[1..] == a[1..] + b;
      var st' := if a[0] == [] then st else ScanTokens(a[0], tokens, st);
      ScanShapesAppend(a[1..], b, tokens, st');
    }
  }

  /** The mesh loop is the shape loop over all shapes of the library. */
  lemma {:induction false} ScanMeshesFlat(lib: Library, tokens: seq<string>, st: Search)
    ensures ScanMeshes(lib, tokens, st) == ScanShapes(AllShapes(lib), tokens, st)
    decreases |lib|
  {
    if |lib| > 0 && !st.found {
      ScanMeshesFlat(lib[1..], tokens, ScanShapes(lib[0].aliases, tokens, st));
      ScanShapesAppend(lib[0].aliases, AllShapes(lib[1..]), tokens, st);
    }
  }

  /** The search over the character's meshes chooses the reference shape. */
  lemma BestShapeIsReference(lib: Library, tokens: seq<string>)
    ensures BestShape(lib, tokens) == Reference(AllShapes(lib), tokens)
  {
    ScanMeshesFlat(lib, tokens, Start);
    ScanShapesSpec(AllShapes(lib), tokens, Start);
  }

  // ---------------------------------------------------------------------------
  // What the reference choice is, in terms of positions in the shape list.
  // ---------------------------------------------------------------------------

  /** The first exact match is found at its position. */
  lemma {:induction false} FirstExactAt(shapes: seq<string>, tokens: seq<string>, k: nat)
    requires k < |shapes| && Exact(shapes[k], tokens)
    requires forall j :: 0 <= j < k ==> !Exact(shapes[j], tokens)
    ensures FirstExact(shapes, tokens) == Some(shapes[k])
    decreases k
  {
    if k > 0 {
      assert !Exact(shapes[0], tokens);
      FirstExactAt(shapes[1..], tokens, k - 1);
    }
  }

  /** Without an exact match anywhere the reference finds none. */
  lemma {:induction false} FirstExactNone(shapes: seq<string>, tokens: seq<string>)
    requires forall j :: 0 <= j < |shapes| ==> !Exact(shapes[j], tokens)
    ensures FirstExact(shapes, tokens) == None
    decreases |shapes|
  {
    if |shapes| > 0 {
      assert !Exact(shapes[0], tokens);
      FirstExactNone(shapes[1..], tokens);
    }
  }

  /** A list with an exact match has a first exact match. */
  lemma {:induction false} FirstExactNoneOnlyIfNoMatch(shapes: seq<string>, tokens: seq<string>, k: nat)
    requires k < |shapes| && Exact(shapes[k], tokens)
    ensures FirstExact(shapes, tokens).Some?
    decreases k
  {
    if k > 0 && !Exact(shapes[0], tokens) {
      FirstExactNoneOnlyIfNoMatch(shapes[1..], tokens, k - 1);
    }
  }

  /** A found exact match is a shape of the list that matches. */
  lemma {:induction false} FirstExactInList(shapes: seq<string>, tokens: seq<string>)
    requires FirstExact(shapes, tokens).Some?
    ensures FirstExact(shapes, tokens).value in shapes && Exact(FirstExact(shapes, tokens).value, tokens)
    decreases |shapes|
  {
    if !Exact(shapes[0], tokens) {
      FirstExactInList(shapes[1..], tokens);
    }
  }

  /** No non-empty shape scores below the minimum score. */
  lemma {:induction false} MinScoreIsLowerBound(shapes: seq<string>, tokens: seq<string>)
    ensures forall j :: 0 <= j < |shapes| && shapes[j] != [] ==> MinScore(shapes, tokens) <= Score(shapes[j], tokens)
    decreases |shapes|
  {
    if |shapes| > 0 {
      MinScoreIsLowerBound(shapes[1..], tokens);
      assert forall j :: 1 <= j < |shapes| ==> shapes[j] == shapes[1..][j - 1];
    }
  }

  /** Shape `k` is the first non-empty shape reaching the minimum score. */
  ghost predicate IsFirstNearest(shapes: seq<string>, tokens: seq<string>, k: int)
  {
    && 0 <= k < |shapes|
    && shapes[k] != []
    && Score(shapes[k], tokens) == MinScore(shapes, tokens)
    && forall j :: 0 <= j < k && shapes[j] != [] ==> Score(shapes[j], tokens) > MinScore(shapes, tokens)
  }

  /** A minimum below the ceiling is reached, and the reference picks the first
      shape reaching it. */
  lemma {:induction false} FirstNearestAt(shapes: seq<string>, tokens: seq<string>)
    requires MinScore(shapes, tokens) < Ceiling
    ensures exists k :: IsFirstNearest(shapes, tokens, k) && FirstNearest(shapes, tokens) == shapes[k]
    decreases |shapes|
  {
    var rest := shapes[1..];
    if shapes[0] != [] && Score(shapes[0], tokens) <= MinScore(rest, tokens) {
      assert IsFirstNearest(shapes, tokens, 0);
    } else {
      assert MinScore(shapes, tokens) == MinScore(rest, tokens);
      FirstNearestAt(rest, tokens);
      var k :| IsFirstNearest(rest, tokens, k) && FirstNearest(rest, tokens) == rest[k];
      assert forall j :: 1 <= j < k + 1 ==> shapes[j] == rest[j - 1];
      assert IsFirstNearest(shapes, tokens, k + 1);
    }
  }

  /** Every score reaches the ceiling exactly when the minimum does. */
  lemma MinScoreAtCeiling(shapes: seq<string>, tokens: seq<string>)
    ensures MinScore(shapes, tokens) == Ceiling <==>
      forall j :: 0 <= j < |shapes| && shapes[j] != [] ==> Score(shapes[j], tokens) == Ceiling
  {
    MinScoreIsLowerBound(shapes, tokens);
    if MinScore(shapes, tokens) < Ceiling {
      FirstNearestAt(shapes, tokens);
    }
  }

  /** A token bounds the score of every shape from above. */
  lemma {:induction false} ScoreAtMostDistance(shape: string, tokens: seq<string>, i: nat)
    requires i < |tokens|
    ensures Score(shape, tokens) <= Distance(tokens[i], shape)
    decreases i
  {
    if i > 0 {
      ScoreAtMostDistance(shape, tokens[1..], i - 1);
    }
  }

  // ---------------------------------------------------------------------------
  // Properties of the chosen shape.
  // ---------------------------------------------------------------------------

  /** The chosen name is empty or a non-empty shape the character really has. */
  lemma BestShapeFromLibrary(lib: Library, tokens: seq<string>)
    ensures var b := BestShape(lib, tokens); b == [] || HasShape(lib, b)
  {
    BestShapeIsReference(lib, tokens);
    var shapes := AllShapes(lib);
    if FirstExact(shapes, tokens).Some? {
      FirstExactInList(shapes, tokens);
    } else if MinScore(shapes, tokens) < Ceiling {
      FirstNearestAt(shapes, tokens);
    }
  }

  /** If some shape equals a candidate up to case, the first such shape in
      mesh-then-shape order is chosen. */
  lemma ExactMatchChosen(lib: Library, tokens: seq<string>, k: nat)
    requires k < |AllShapes(lib)| && Exact(AllShapes(lib)[k], tokens)
    requires forall j :: 0 <= j < k ==> !Exact(AllShapes(lib)[j], tokens)
    ensures BestShape(lib, tokens) == AllShapes(lib)[k]
  {
    BestShapeIsReference(lib, tokens);
    FirstExactAt(AllShapes(lib), tokens, k);
  }

  /** Without an exact match: no shape when every score reaches the ceiling,
      otherwise the first non-empty shape with the strictly smallest score. */
  lemma NearestChosen(lib: Library, tokens: seq<string>)
    requires forall j :: 0 <= j < |AllShapes(lib)| ==> !Exact(AllShapes(lib)[j], tokens)
    ensures var shapes := AllShapes(lib);
      && ((forall j :: 0 <= j < |shapes| && shapes[j] != [] ==> Score(shapes[j], tokens) == Ceiling) ==>
            BestShape(lib, tokens) == [])
      && ((exists j :: 0 <= j < |shapes| && shapes[j] != [] && Score(shapes[j], tokens) < Ceiling) ==>
            && (exists k :: IsFirstNearest(shapes, tokens, k) && BestShape(lib, tokens) == shapes[k])
            && Score(BestShape(lib, tokens), tokens) < Ceiling)
  {
    var shapes := AllShapes(lib);
    BestShapeIsReference(lib, tokens);
    FirstExactNone(shapes, tokens);
    MinScoreAtCeiling(shapes, tokens);
    if MinScore(shapes, tokens) < Ceiling {
      FirstNearestAt(shapes, tokens);
    }
  }

  /** With the empty fallback token, any non-empty shape shorter than the
      ceiling is a candidate, so the chosen name is not empty. */
  lemma FallbackNeverEmpty(lib: Library, tokens: seq<string>, shape: string)
    requires [] in tokens
    requires shape in AllShapes(lib) && shape != [] && |shape| < Ceiling
    ensures BestShape(lib, tokens) != []
  {
    var shapes := AllShapes(lib);
    BestShapeIsReference(lib, tokens);
    if FirstExact(shapes, tokens).Some? {
      FirstExactInList(shapes, tokens);
    } else {
      var i :| 0 <= i < |tokens| && tokens[i] == [];
      ScoreAtMostDistance(shape, tokens, i);
      var j :| 0 <= j < |shapes| && shapes[j] == shape;
      MinScoreIsLowerBound(shapes, tokens);
      FirstNearestAt(shapes, tokens);
    }
  }

  // ---------------------------------------------------------------------------
  // The whole table.
  // ---------------------------------------------------------------------------

  /** The binding made for one table row: a new binding of that viseme with the
      chosen shape. */
  function Bind(lib: Library, e: Entry): (b: Binding)
    ensures b.viseme == e.viseme && b.weight == DefaultWeight && !b.valid
    ensures b.shape == [] || HasShape(lib, b.shape)
  {
    BestShapeFromLibrary(lib, e.tokens);
    NewBinding(e.viseme).(shape := BestShape(lib, e.tokens))
  }

  /** Without a character nothing is produced; otherwise the loop over the
      table appends, row by row, a new binding of that row's viseme with the
      shape the search picks for the row's tokens. Binding `i` is for viseme
      `i`, has the default weight, is unresolved, and its shape is empty or a
      shape of the character. */
  method AutoMapVisemes(character: Option<Library>) returns (r: Result<seq<Binding>, AutoMapError>)
    ensures character.None? <==> r.Failure?
    ensures r.Success? ==>
      && |r.value| == |Table| == VisemeCount
      && forall i :: 0 <= i < |r.value| ==>
           && r.value[i] == Bind(character.value, Table[i])
           && r.value[i].viseme == FromIndex(i)
           && r.value[i].shape == BestShape(character.value, Table[i].tokens)
           && r.value[i].weight == DefaultWeight
           && !r.value[i].valid
           && (r.value[i].shape == [] || HasShape(character.value, r.value[i].shape))
  {
    if character.None? {
      return Failure(NoCharacter);
    }
    var lib := character.value;
    var bindings := MapRows(lib, Table);
    TableInVisemeOrder();
    return Success(bindings);
  }

  /** The loop over the rows, appending for each row the binding made for it. */
  method MapRows(lib: Library, entries: seq<Entry>) returns (bindings: seq<Binding>)
    ensures |bindings| == |entries|
    ensures forall k :: 0 <= k < |entries| ==> bindings[k] == Bind(lib, entries[k])
  {
    bindings := [];
    var i := 0;
    while i < |entries|
      invariant 0 <= i <= |entries|
      invariant |bindings| == i
      invariant forall k :: 0 <= k < i ==> bindings[k] == Bind(lib, entries[k])
    {
      bindings := bindings + [Bind(lib, entries[i])];
      i := i + 1;
    }
  }

  /** The open-vowel row of the table. */
  lemma OpenVowelRow()
    ensures Table[Index(AA)] == Entry(AA, ["vrc/aa", "vrc.v_aa", "aa", "a"])
  {
  }

  /** The open-vowel scenario: when "vrc/aa" is a shape of the character and
      no other shape equals an open-vowel token up to case, the open-vowel
      row is bound to exactly "vrc/aa". */
  lemma OpenVowelScenario(lib: Library)
    requires HasShape(lib, "vrc/aa")
    requires forall s :: s in AllShapes(lib) && s != "vrc/aa" ==> !Exact(s, Table[Index(AA)].tokens)
    ensures Bind(lib, Table[Index(AA)]).viseme == AA
    ensures Bind(lib, Table[Index(AA)]).shape == "vrc/aa"
  {
    OpenVowelRow();
    OpenVowelChoice(lib, Table[Index(AA)].tokens);
  }

  /** A character whose only shape matching a token list is "vrc/aa" gets that
      shape for the list. */
  lemma OpenVowelChoice(lib: Library, tokens: seq<string>)
    requires |tokens| > 0 && tokens[0] == "vrc/aa"
    requires HasShape(lib, "vrc/aa")
    requires forall s :: s in AllShapes(lib) && s != "vrc/aa" ==> !Exact(s, tokens)
    ensures BestShape(lib, tokens) == "vrc/aa"
  {
    var shapes := AllShapes(lib);
    var k :| 0 <= k < |shapes| && shapes[k] == "vrc/aa";
    assert Exact(shapes[k], tokens);
    FirstExactNoneOnlyIfNoMatch(shapes, tokens, k);
    FirstExactInList(shapes, tokens);
    BestShapeIsReference(lib, tokens);
  }
}
