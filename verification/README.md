# OVR lip-sync node — a Dafny model

This project models the core of `OVRLipSyncNode`, a node of the Warudo animation
host that turns microphone audio into viseme blend-shape weights for a 3D
character. The model covers these parts:

- the **sample accumulator**: a 512-slot buffer filled with `(left + right) * gain`. Each full buffer completes one block and, when the classifier is ready, one classifier run.
- the **noise gate** with its hold-open timer: `GateOpen` and the timer part of `OnUpdate`, including the gate query the debug display makes each frame.
- the **shape lookup** `UpdateShape`, with its cached `_valid` flag. Editing a binding's viseme or shape clears the flag.
- the **output pull** `_outputBlendshapeList`. In continuous mode it writes weighted probabilities, which are zero while the gate is closed. In binarized mode it clears every binding and then writes a single winner at full weight.
- the **automatic mapping** `AutoMapVisemes`. It matches the fixed candidate table against the character's shape names by case-insensitive Levenshtein distance.
- the **Levenshtein distance** itself. It is computed over a 2-D table and proved equal to a recursive definition of the table's cells.
- the **node state** that ties these together: creation with the default bindings, the per-frame update, the output pull and the audio callback.

Modules, one per component: `Outcomes` (Option/Result), `Text` (ASCII lowering),
`Levenshtein`, `Visemes` (the viseme enumeration and the binding record),
`Character` (mesh/alias library), `AutoMap`, `Resolver`, `Gate`, `Mapper`,
`Accumulator`, `LipSyncNode`.

Floating-point values are modelled as reals. The two C# dictionaries are modelled
as ordered sequences: the candidate table `_automap` and the character's
`BlendShapes` map. Their order is the iteration order the loops use.

Behaviours of the code worth noting:

- The hold timer is not clamped at 0 when it runs down. A positive timer is decremented by the frame time and may end below zero; only the next frame resets it to 0. As a result, after a loud query the gate stays open while the elapsed frame time is strictly less than the hold time. When the elapsed time equals the hold time, the gate is closed (`Gate.HoldOpenHysteresis`).
- Swapping the character does not invalidate bindings that were already resolved. A cached binding keeps writing its name without a lookup (`Resolver.CachedLookupSkipsScan`).
- Binarized mode ignores the gate. It still queries the gate, so a loud level reloads the hold timer (`LipSyncNode.OutputPull`, `LipSyncNode.BinarizedIgnoresGate`).
- The candidate order within a table row never changes which shape is chosen. Only the shape is kept, so the chosen shape is the first one, in mesh-then-shape order, that reaches the smallest score over all tokens (`AutoMap.NearestChosen`).

## Model

| member | source | states |
|---|---|---|
| `Levenshtein.LevenshteinDistance` | OVRLipSyncNode.cs:332-361 | the table computation returns the recursive unit-cost edit distance, and the other string's length when either string is empty |
| `Levenshtein.DistanceToSelf` | OVRLipSyncNode.cs:332-361 | identical strings are at distance 0 |
| `Levenshtein.DistanceZeroIffEqual` | OVRLipSyncNode.cs:332-361 | distance 0 holds exactly for equal strings (what makes the `dist == 0` exit an exact match) |
| `Levenshtein.DistanceSymmetric` | OVRLipSyncNode.cs:332-361 | the distance is symmetric in its two arguments |
| `Levenshtein.DistanceBounds` | OVRLipSyncNode.cs:332-361 | the distance lies between the length difference and the longer length |
| `Text.Lower` | OVRLipSyncNode.cs:253 | lowering keeps the length and lowers each character (ASCII letters only) |
| `Visemes.Index` | OVRLipSyncNode.cs:130 | a viseme's ordinal is a valid index into the 15-entry probability frame |
| `Visemes.FromIndex` | OVRLipSyncNode.cs:402 | the cast from an ordinal gives the viseme with that ordinal |
| `Visemes.NewBinding` | OVRLipSyncNode.cs:82-92 | a new binding has an empty shape, weight 1.0 and the cached flag off |
| `Visemes.SetShape` | OVRLipSyncNode.cs:107-110 | changing the shape name clears the cached flag; viseme and weight are kept |
| `Visemes.SetViseme` | OVRLipSyncNode.cs:102-105 | changing the viseme clears the cached flag; shape and weight are kept |
| `Visemes.SetWeight` | OVRLipSyncNode.cs:86-89 | changing the weight keeps the cached flag |
| `Visemes.DefaultBindings` | OVRLipSyncNode.cs:397-403 | the default table has 15 fresh bindings and binding `i` is for viseme `i` |
| `Character.AllShapes` | OVRLipSyncNode.cs:245-247 | the flat shape list holds exactly the names some mesh lists |
| `AutoMap.TableInVisemeOrder` | OVRLipSyncNode.cs:210-227 | the candidate table lists the 15 visemes in enumeration order with four tokens each |
| `AutoMap.ScanTokensSpec` | OVRLipSyncNode.cs:251-268 | the token loop finds the shape iff some token matches it up to case; otherwise it keeps the shape only when its best distance is strictly below the best so far |
| `AutoMap.ScanShapesSpec` | OVRLipSyncNode.cs:247-270 | the shape loop (skipping empty names) yields the first exact match, or else the first strictly nearest shape if it beats the best so far |
| `AutoMap.ScanShapesAppend` | OVRLipSyncNode.cs:245-272 | scanning two shape lists in a row is scanning their concatenation, because a finished search stays finished |
| `AutoMap.ScanMeshesFlat` | OVRLipSyncNode.cs:245-272 | the mesh loop, which breaks when the search is finished, is the shape loop over all shapes in library order |
| `AutoMap.BestShapeIsReference` | OVRLipSyncNode.cs:242-272 | the three nested loops choose the reference shape: first exact match, else first shape with the smallest score below 200, else empty |
| `AutoMap.FirstExactAt` | OVRLipSyncNode.cs:256-261 | the reference's exact match is the shape at the first position that matches |
| `AutoMap.FirstNearestAt` | OVRLipSyncNode.cs:263-267 | a minimum score below the ceiling is reached, and the reference picks the first shape reaching it |
| `AutoMap.MinScoreIsLowerBound` | OVRLipSyncNode.cs:263-267 | no non-empty shape scores below the minimum score |
| `AutoMap.BestShapeFromLibrary` | OVRLipSyncNode.cs:242-276 | the chosen name is empty or a name some mesh of the character lists |
| `AutoMap.ExactMatchChosen` | OVRLipSyncNode.cs:249-261 | if a shape equals a candidate up to case, the first such shape in mesh/shape order is chosen |
| `AutoMap.NearestChosen` | OVRLipSyncNode.cs:242-276 | without an exact match, the choice is empty when every score reaches 200; otherwise it is the first non-empty shape with the strictly smallest score |
| `AutoMap.FallbackNeverEmpty` | OVRLipSyncNode.cs:242-268 | with the empty fallback token, any non-empty shape shorter than 200 characters makes the choice non-empty |
| `AutoMap.Bind` | OVRLipSyncNode.cs:274-276 | each new binding carries its row's viseme, weight 1.0, the flag off, and an empty shape or one of the character's shapes |
| `AutoMap.MapRows` | OVRLipSyncNode.cs:238-282 | the row loop appends one binding per row, in row order, each the binding made for that row |
| `AutoMap.AutoMapVisemes` | OVRLipSyncNode.cs:232-282 | without a character it fails; otherwise it gives one binding per table row, in table order: binding `i` is for viseme `i`, has weight 1.0, is unresolved, and carries the shape the search picks for row `i`, which is empty or a shape of the character |
| `AutoMap.OpenVowelScenario` | OVRLipSyncNode.cs:222 | for a character whose only shape matching an open-vowel token is "vrc/aa", the open-vowel row is bound to "vrc/aa" |
| `Resolver.ScanMeshes` | OVRLipSyncNode.cs:319-329 | the mesh loop marks the binding valid and writes the value iff some mesh lists the name exactly |
| `Resolver.UpdateShape` | OVRLipSyncNode.cs:308-330 | an empty name writes nothing; a cached binding writes without a lookup; otherwise it becomes valid and writes iff the character lists the name; no other key changes |
| `Resolver.CachedLookupSkipsScan` | OVRLipSyncNode.cs:313-317 | after a lookup that wrote, the next lookup, against any character, skips the scan and writes directly |
| `Resolver.RevalidatedIdempotent` | OVRLipSyncNode.cs:313-328 | a second lookup does not change the binding further, and whether it writes stays the same |
| `Resolver.RenameForcesLookup` | OVRLipSyncNode.cs:107-110 | after a rename the next lookup scans again and writes iff the character lists the new name |
| `Mapper.LastWriterExists` | OVRLipSyncNode.cs:149-159 | every name some binding writes has a last binding writing it |
| `Mapper.UpdateAll` | OVRLipSyncNode.cs:149-159 | the binding loop looks each binding up once and adds to the output exactly the names some binding writes |
| `Mapper.UpdateAllValues` | OVRLipSyncNode.cs:149-159 | a name written by several bindings keeps the last one's value; names no binding writes keep their old value |
| `Mapper.ZerosEverywhere` | OVRLipSyncNode.cs:138-141 | the clearing loop leaves every written name at 0 |
| `Mapper.Continuous` | OVRLipSyncNode.cs:149-159 | with the gate open each written name carries weight times the probability of its viseme; with it closed every written name is 0 |
| `Mapper.WinnerFrom` | OVRLipSyncNode.cs:126-135 | the strict-`>` search from 0 with value 0 ends at binding 0 when nothing is above 0, and otherwise at the first binding with the largest probability |
| `Mapper.Winner` | OVRLipSyncNode.cs:126-135 | the winner is a valid binding number of a non-empty table and is the lowest-numbered binding with the strictly largest positive probability, or 0 |
| `Mapper.Binarized` | OVRLipSyncNode.cs:124-146 | it fails on an empty table, and on a winning binding number that is not a viseme ordinal (the `_automap` lookup); otherwise every written name is 0 except the winner's, which carries the winner's weight |
| `Gate.GateOpen` | OVRLipSyncNode.cs:510-526 | a level at or above the threshold opens the gate and sets the timer to the hold time; otherwise the gate is open iff the timer is positive |
| `Gate.Tick` | OVRLipSyncNode.cs:572-579 | a positive timer decreases by the frame time; any other timer becomes exactly 0 |
| `Gate.TicksStayClosed` | OVRLipSyncNode.cs:576-579 | a timer that is not positive stays not positive over any frames |
| `Gate.TicksRunDown` | OVRLipSyncNode.cs:572-579 | the timer runs down by exactly the elapsed time while that time is below it, and is not positive afterwards |
| `Gate.HoldOpenHysteresis` | OVRLipSyncNode.cs:510-526 | after a loud query and some frames, a quiet query finds the gate open iff the elapsed frame time is less than the hold time |
| `Gate.ZeroHoldIsInstantaneous` | OVRLipSyncNode.cs:514-525 | with a zero hold time, every query of any event sequence answers exactly the threshold test |
| `Accumulator.Initial` | OVRLipSyncNode.cs:301-302 | a new accumulator has the 512-slot buffer and starts writing at 0 |
| `Accumulator.OnSample` | OVRLipSyncNode.cs:528-545 | one callback stores (left + right) * gain at the write position and advances it; a full buffer wraps to 0, completes a block, and runs the classifier iff it is ready |
| `Accumulator.Stream` | OVRLipSyncNode.cs:528-545 | over any stream, the position advances modulo 512; each full buffer gives one block and (if ready) exactly one classifier run; every slot holds its latest sample |
| `LipSyncNode.InitBindings` | OVRLipSyncNode.cs:395-404 | a non-empty table is kept; a missing or empty one becomes the 15 default bindings, binding `i` for viseme `i` |
| `LipSyncNode.OnCreate` | OVRLipSyncNode.cs:390-406 | after creation the node has a non-empty table and nothing else changed |
| `LipSyncNode.OnCreateIdempotent` | OVRLipSyncNode.cs:395-404 | creating twice is the same as creating once |
| `LipSyncNode.AutoMapVisemes` | OVRLipSyncNode.cs:230-287 | without a character nothing changes; with one the table is replaced by 15 bindings, listed in the default table's viseme order, each new (weight 1.0, flag off) with the shape the search picks for its row, and nothing else changes |
| `LipSyncNode.OnUpdate` | OVRLipSyncNode.cs:570-585 | a frame changes only the hold timer: a positive timer loses the frame time, any other becomes 0, and then with the debug display on a loud level reloads it to the hold time |
| `LipSyncNode.OutputPull` | OVRLipSyncNode.cs:118-165 | without a table nothing happens; otherwise the gate timer is updated in both modes; continuous mode writes the continuous pass driven by the gate's answer; binarized mode writes the binarized pass, and fails exactly on an empty table or a winning binding number past the last viseme |
| `LipSyncNode.PullSucceedsAfterCreate` | OVRLipSyncNode.cs:144-145 | after creation the pull never hits the empty-table failure, and a pull over any 15-binding table, such as an automatic mapping leaves, never fails |
| `LipSyncNode.BinarizedIgnoresGate` | OVRLipSyncNode.cs:122-146 | in binarized mode the level and the hold timer do not affect the table or the output map |
| `LipSyncNode.ClosedGateSilences` | OVRLipSyncNode.cs:149-159 | in continuous mode with a quiet level and no hold time left, every written name is 0 |
| `LipSyncNode.OnAudioSample` | OVRLipSyncNode.cs:528-545 | the callback stores the gained sample; the classifier runs iff the buffer fills and a context exists and the library is initialised |

## Left out

- Audio device enumeration and capture (`MicrophoneList`, the `_microphone` watcher, `StartCapture`, `StopCapture`): these are device I/O through the CSCore library.
- Native classifier calls (`CreateContext`, `DestroyContext`, `SendSignal` for the smoothing setting, the `provider` watcher, `OnDestroy`): these are foreign calls. `ProcessFrame` is modelled only as the `processed` counter. The frame it produces is the node's `frame` input. `IsInitialized` and the context handle are parameters.
- `CalculateRms`, `RmsToDb` and the `rms`/`db` outputs: these use floating-point square roots and logarithms. The level in decibels is the node's `levelDb` input. Each energy recomputation is counted in `blocks`.
- Threading between the capture callback and the output pull: the model is sequential.
- The debug text built in `OnUpdate` (its gate query is modelled, since it reloads the hold timer), `Debug.Log` calls, `GetHeader` and the value stored in `_activeBinaryShape` (the lookup that produces it is modelled, since it can throw): these are display-only.
- Warudo attributes, toasts and `BroadcastDataInput`: host glue. The missing-character toast is the `NoCharacter` failure.
- Culture-dependent `ToLower`: modelled as ASCII lowering.
- Float rounding: weights, probabilities, levels and times are exact reals.
- A null `_blendshapeList`: the output map always exists here. The C# code would throw on the first write.
- A null `_shape`: it takes the same branch as the empty name, so it is represented by the empty name.
- Watcher semantics: an edit that assigns the same value is taken not to fire the watcher (`Visemes.SetShape`, `Visemes.SetViseme`).
- LipSyncNode.OutputPull: on either binarized failure only the error is returned. The C# code has already updated the gate timer when it throws, and for the unknown-viseme failure it has also cleared every binding.
- Levenshtein.LevenshteinDistance: strings are sequences of Unicode scalar values, while C# counts UTF-16 code units in `Length` and indexing. For names with characters outside the Basic Multilingual Plane the distances differ, and so do the length bound of `AutoMap.FallbackNeverEmpty` and the 200 ceiling it is measured against.
- Accumulator.Stream: the gain and the classifier's readiness are fixed for the whole stream.
