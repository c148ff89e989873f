# simenv core, modelled in Dafny

This project models four self-contained pieces of logic in simenv, a bridge between Python scene descriptions and a Unity simulation. It proves properties of each.

- **Agent actions** (`Agent.dfy`, `ActionDecoding.dfy`). The Unity agent holds an action object whose three axis fields `forward`, `moveRight` and `turnRight` are rewritten by `SetAction`.
  - A discrete action object zeroes the three axes, then applies the one verb its step action indexes.
  - A continuous action object sets each axis named in `available` to the matching scalar.
  - `setProperties` builds the action object that the record's `action_dist` selects and copies the record's fields across.
  - The classes `Bridge.Actions` and `Bridge.Agent` keep the source's fields and update them in place. Their methods are proved against the pure functions `DecodeDiscrete` and `DecodeContinuous`, which carry the properties.
  - Every `Debug.Assert` on caller input is reported as an explicit error outcome: a step action of the wrong length, an unknown verb or axis name, an unknown `action_dist`. The source only logs these and carries on, and the axes are left as its code then leaves them.
  - The cases where the source throws are reported as error outcomes too, holding the state at the throw point:
    - `stepAction[0]` on an empty step action (Agent.cs line 25), before any axis is written;
    - `available[i]` with an index outside the list, after the discrete reset (line 30), or past the end of the list in the continuous loop (line 62);
    - `actions.SetAction` with no action object yet (line 211).
  - The source's own check that `dist` names the subclass is a class invariant (`Valid`), which `setProperties` establishes.
- **Identifier case conversion** (`NameCase.dfy`). `camelcase_to_snakecase` and `snakecase_to_camelcase` are modelled regex pass by regex pass.
  - Each pass is written with the leftmost, non-overlapping match semantics of Python's `re.sub` and `re.split`.
  - Each pass is proved equal to a character-local reference definition: `Marked` for camel to snake, `CamelFromTo` for snake to camel.
  - The properties are proved about those reference definitions: no capitals, only underscores inserted, idempotence, the treatment of underscore runs, and a restricted round trip.
- **glTF camera records** (`GltfCamera.dfy`). This is the camera object of section 5.12 of the glTF 2.0 specification, with its orthographic (5.13) and perspective (5.14) parts, as the importer declares them.
  - The JSON deserialiser's `Required.Always` check is a total validation function. It maps a record with every property optional to a typed camera, or to the missing property or unknown type.
- **XLand height maps** (`HeightMap.dfy`). `decode_rgb` expands every pixel into a 2x2 tile of integer heights, chosen by the tile code in channel 1. It works with nested loops over a preallocated 2-D array. `get_bounds` gives the extent of a cube.

`Wrappers.dfy` holds the shared `Option`, `Result` and `Outcome` types.

## Model

| member | source | states |
|---|---|---|
| ActionDecoding.Set | integrations/Unity/simenv-unity/Assets/SimEnv/Runtime/Bridge/Agent.cs:11-13 | writing one axis field gives it the new value and leaves the other two fields as they were |
| ActionDecoding.DistKind | integrations/Unity/simenv-unity/Assets/SimEnv/Runtime/Bridge/Agent.cs:124-135 | a variant is chosen exactly for "discrete" and "continuous", and the chosen variant's own name is that string |
| ActionDecoding.DistNameRoundTrip | integrations/Unity/simenv-unity/Assets/SimEnv/Runtime/Bridge/Agent.cs:124-131 | each variant's `dist` name selects that same variant again |
| ActionDecoding.Truncate | integrations/Unity/simenv-unity/Assets/SimEnv/Runtime/Bridge/Agent.cs:25 | the `(int)` cast truncates toward zero: the result is the integer part of the input, of either sign, and is negative exactly when the input is at most -1 |
| ActionDecoding.DiscreteVerb | integrations/Unity/simenv-unity/Assets/SimEnv/Runtime/Bridge/Agent.cs:30-48 | every verb in the switch drives the zeroed axes to a non-zero intent in which at most one axis is non-zero |
| ActionDecoding.DiscreteVerbTable | integrations/Unity/simenv-unity/Assets/SimEnv/Runtime/Bridge/Agent.cs:30-51 | exactly the six verbs are recognised; from zero, move_forward/backward set forward to +1/-1, move_left/right set moveRight to +1/-1, turn_left/right set turnRight to -1/+1, and nothing else |
| ActionDecoding.DiscreteUsesFirstEntry | integrations/Unity/simenv-unity/Assets/SimEnv/Runtime/Bridge/Agent.cs:25 | a step action of two or more entries gives the same intent as its first entry alone |
| ActionDecoding.DiscreteVerbInjective | integrations/Unity/simenv-unity/Assets/SimEnv/Runtime/Bridge/Agent.cs:30-48 | the verb can be read back from the intent it produces, so distinct verbs give distinct intents |
| ActionDecoding.DecodeDiscrete | integrations/Unity/simenv-unity/Assets/SimEnv/Runtime/Bridge/Agent.cs:19-53 | a call succeeds exactly when the step action has one element whose truncation indexes a known verb; an empty step action changes nothing; otherwise at most one axis is non-zero afterwards; a length other than one is reported |
| ActionDecoding.DiscreteSetsNamedVerb | integrations/Unity/simenv-unity/Assets/SimEnv/Runtime/Bridge/Agent.cs:25-51 | with an in-range index the intent is the indexed verb's intent, and an unknown verb leaves all three axes zero and is reported |
| ActionDecoding.DiscreteIndexOutOfRange | integrations/Unity/simenv-unity/Assets/SimEnv/Runtime/Bridge/Agent.cs:25-30 | an index outside `available` leaves the axes zeroed, because the reset comes before the lookup, and is reported |
| ActionDecoding.DiscreteExample | integrations/Unity/simenv-unity/Assets/SimEnv/Runtime/Bridge/Agent.cs:19-53 | ["move_forward","turn_right"] with [1.0] sets turnRight to 1 and the other axes to 0 |
| ActionDecoding.DiscreteIndexTruncates | integrations/Unity/simenv-unity/Assets/SimEnv/Runtime/Bridge/Agent.cs:25 | the index 1.9 selects entry 1 and -0.5 selects entry 0: truncation, not rounding |
| ActionDecoding.ContinuousAxis | integrations/Unity/simenv-unity/Assets/SimEnv/Runtime/Bridge/Agent.cs:62-74 | the three axis names of the continuous switch; its properties are stated by FirstUnknown, LastNaming and ApplyAllAxis |
| ActionDecoding.ApplyNamed | integrations/Unity/simenv-unity/Assets/SimEnv/Runtime/Bridge/Agent.cs:62-75 | one pass of the continuous loop; ApplyAllAxis states what the passes leave on each axis |
| ActionDecoding.ApplyAll | integrations/Unity/simenv-unity/Assets/SimEnv/Runtime/Bridge/Agent.cs:61-76 | the continuous loop over the names and values; ApplyAllAxis proves that each axis ends at its last named value or keeps its old one |
| ActionDecoding.FirstUnknown | integrations/Unity/simenv-unity/Assets/SimEnv/Runtime/Bridge/Agent.cs:62-74 | the name reported is the first one the continuous switch does not know, and none is reported exactly when all names are known |
| ActionDecoding.LastNaming | integrations/Unity/simenv-unity/Assets/SimEnv/Runtime/Bridge/Agent.cs:61-76 | finds the last index whose name selects a given axis, or reports that no name selects it |
| ActionDecoding.ApplyAllAxis | integrations/Unity/simenv-unity/Assets/SimEnv/Runtime/Bridge/Agent.cs:61-76 | after the loop each axis holds the scalar at the last index naming it, verbatim, or its previous value when no name selects it |
| ActionDecoding.DecodeContinuous | integrations/Unity/simenv-unity/Assets/SimEnv/Runtime/Bridge/Agent.cs:57-77 | a call succeeds exactly when the lengths agree and every name is a known axis; a length mismatch is reported |
| ActionDecoding.ContinuousAxisValue | integrations/Unity/simenv-unity/Assets/SimEnv/Runtime/Bridge/Agent.cs:57-77 | with equal lengths, each axis ends at the value of its last naming index, or keeps its previous value; nothing is reset or clamped |
| ActionDecoding.ContinuousKeepsUnnamedAxes | integrations/Unity/simenv-unity/Assets/SimEnv/Runtime/Bridge/Agent.cs:61-76 | an axis no entry of `available` names keeps its value, whatever the step action holds |
| ActionDecoding.ContinuousExample | integrations/Unity/simenv-unity/Assets/SimEnv/Runtime/Bridge/Agent.cs:57-77 | two successive calls on "move_forward_backward" leave a previous turn of 0.5 unchanged |
| Bridge.Actions.constructor | integrations/Unity/simenv-unity/Assets/SimEnv/Runtime/Bridge/Agent.cs:7-16 | a new action object is unnamed and empty, with all three axes zero |
| Bridge.Actions.SetDiscreteAction | integrations/Unity/simenv-unity/Assets/SimEnv/Runtime/Bridge/Agent.cs:19-53 | the in-place update leaves exactly the intent and outcome of `DecodeDiscrete` on the previous intent, and writes only the three axis fields |
| Bridge.Actions.SetContinuousAction | integrations/Unity/simenv-unity/Assets/SimEnv/Runtime/Bridge/Agent.cs:57-77 | the loop leaves exactly the intent and outcome of `DecodeContinuous` on the previous intent, and writes only the three axis fields |
| Bridge.Actions.SetAction | integrations/Unity/simenv-unity/Assets/SimEnv/Runtime/Bridge/Agent.cs:15 | the abstract method dispatches on the subclass: the new intent is the chosen decoding of the old one |
| Bridge.Agent.constructor | integrations/Unity/simenv-unity/Assets/SimEnv/Runtime/Bridge/Agent.cs:93-99 | a new agent has speeds and height 1, is white, and has no action object |
| Bridge.Agent.SetProperties | integrations/Unity/simenv-unity/Assets/SimEnv/Runtime/Bridge/Agent.cs:115-140 | colour, height and speeds are copied; with a known `action_dist` a fresh action object of the matching variant holds the record's name, dist and available list verbatim, with all axes zero; with any other `action_dist` the error is reported and the action object is left alone; the `dist` invariant holds afterwards |
| Bridge.Agent.SetAction | integrations/Unity/simenv-unity/Assets/SimEnv/Runtime/Bridge/Agent.cs:210-212 | the step action is delegated to the action object, whose intent then follows its variant's decoding and whose name, dist and available list are unchanged; with no action object the call reports that it is not configured |
| Bridge.SetPropertiesAsWritten | integrations/Unity/simenv-unity/Assets/SimEnv/Runtime/Bridge/Agent.cs:124-139 | the action object's fields after `setProperties` as the code is written, including the unknown-`action_dist` path |
| Bridge.SetPropertiesAsWrittenBreaksDist | integrations/Unity/simenv-unity/Assets/SimEnv/Runtime/Bridge/Agent.cs:124-139 | as written, reconfiguring a valid agent with an unknown `action_dist` leaves an action object whose `dist` no longer names its variant |
| Bridge.SetPropertiesAsWrittenExample | integrations/Unity/simenv-unity/Assets/SimEnv/Runtime/Bridge/Agent.cs:124-139 | the concrete case: a discrete object reconfigured with "gaussian" keeps its discrete variant and takes dist "gaussian" |
| Bridge.SetPropertiesAsWrittenRecognised | integrations/Unity/simenv-unity/Assets/SimEnv/Runtime/Bridge/Agent.cs:124-139 | with a known `action_dist`, the code as written always leaves a valid action object |
| Bridge.ConfigureAndReadBack | integrations/Unity/simenv-unity/Assets/SimEnv/Runtime/Bridge/Agent.cs:137-139 | after configuring an agent, reading the action fields back gives the record's dist, name and available list, in order |
| Bridge.DiscreteClient | integrations/Unity/simenv-unity/Assets/SimEnv/Runtime/Bridge/Agent.cs:115-140 | an agent configured as discrete with ["move_forward","turn_right"] and stepped with [1.0] is turning right and nothing else |
| NameCase.ToLower | src/simenv/assets/utils.py:38 | lowering yields no capital, changes exactly the capitals, and keeps underscores |
| NameCase.Lower | src/simenv/assets/utils.py:38 | `str.lower` keeps the length and lowers every character |
| NameCase.UpperPrefix | src/simenv/assets/utils.py:25 | gives the length of the longest run of capitals at the front |
| NameCase.SubUpperUpper | src/simenv/assets/utils.py:25-36 | the `re.sub` pass of `([A-Z]+)([A-Z][a-z])`; SubUpperUpperIsLocal proves it inserts `_` exactly where its local rule applies |
| NameCase.SubLowerUpper | src/simenv/assets/utils.py:26-37 | the `re.sub` pass of `([a-z\d])([A-Z])`; SubLowerUpperIsLocal proves it inserts `_` exactly where its local rule applies |
| NameCase.SubUpperUpperIsLocal | src/simenv/assets/utils.py:25-36 | the first regex pass inserts `_` before the last capital of every run of two or more capitals followed by a lower-case letter, and nowhere else |
| NameCase.SubLowerUpperIsLocal | src/simenv/assets/utils.py:26-37 | the second regex pass inserts `_` between every lower-case letter or digit and a following capital, and nowhere else |
| NameCase.MarksCompose | src/simenv/assets/utils.py:36-37 | applying the second rule to the first rule's output inserts underscores exactly where either rule applies to the input |
| NameCase.CamelPassesMark | src/simenv/assets/utils.py:36-37 | the two regex passes together equal the reference definition `Marked` |
| NameCase.Marked | src/simenv/assets/utils.py:36-37 | the reference output is at least as long as the input and at most twice as long |
| NameCase.CamelToSnake | src/simenv/assets/utils.py:34-38 | `camelcase_to_snakecase` output has no capitals and between one and two times the input's length |
| NameCase.CamelToSnakeIsLowerMarked | src/simenv/assets/utils.py:34-38 | the conversion is the lowered reference definition |
| NameCase.CamelToSnakeStep | src/simenv/assets/utils.py:34-38 | character by character: the first character lowered, then `_` exactly when a lower-case letter or digit precedes a capital or two capitals precede a lower-case letter, then the rest |
| NameCase.CamelToSnakeOnlyInserts | src/simenv/assets/utils.py:36-38 | with every `_` deleted, the output equals the lowered input with every `_` deleted |
| NameCase.CamelToSnakeFixesNoUpper | src/simenv/assets/utils.py:34-38 | a string without capitals is returned unchanged |
| NameCase.CamelToSnakeIdempotent | src/simenv/assets/utils.py:34-38 | converting twice is converting once |
| NameCase.CamelToSnakeExample | src/simenv/assets/utils.py:34-38 | "fooBar" becomes "foo_bar" |
| NameCase.CamelToSnakeAcronym | src/simenv/assets/utils.py:34-38 | "IOError" becomes "io_error": the underscore goes before the last capital of the run |
| NameCase.SplitIsolated | src/simenv/assets/utils.py:43 | splitting at underscores with no underscore neighbour always yields at least one piece |
| NameCase.RunEnd | src/simenv/assets/utils.py:29 | gives the end of the maximal run of underscores starting at a position |
| NameCase.SplitRuns | src/simenv/assets/utils.py:44 | the capturing split at runs of two or more underscores always yields at least one piece |
| NameCase.SplitEachRuns | src/simenv/assets/utils.py:44 | the second split applied to every piece of the first, flattened; SplitIsolatedMatches states what the join makes of it |
| NameCase.JoinCapitalized | src/simenv/assets/utils.py:45 | the join of the capitalised non-empty pieces; SplitRunsMatches and SplitIsolatedMatches prove it equals the reference output |
| NameCase.Capitalize | src/simenv/assets/utils.py:45 | `str.capitalize` keeps the length |
| NameCase.CamelFromToSplit | src/simenv/assets/utils.py:41-45 | the reference output of snake to camel over a range is the concatenation of its outputs over the two sub-ranges |
| NameCase.SplitRunsMatches | src/simenv/assets/utils.py:44-45 | inside a piece of the first split, the second split and the capitalising join produce the reference output |
| NameCase.SplitIsolatedMatches | src/simenv/assets/utils.py:43-45 | the two splits and the join over the whole string produce the reference output |
| NameCase.SnakeToCamel | src/simenv/assets/utils.py:41-45 | `snakecase_to_camelcase` equals the reference definition and never lengthens its input |
| NameCase.SnakeToCamelUnderscores | src/simenv/assets/utils.py:43-44 | an underscore with no underscore neighbour disappears; one beside another underscore is kept verbatim |
| NameCase.SnakeToCamelLetters | src/simenv/assets/utils.py:45 | a letter at the start of a word becomes upper case and every other letter lower case |
| NameCase.SnakeToCamelWord | src/simenv/assets/utils.py:45 | a word without underscores is capitalised |
| NameCase.SnakeToCamelCons | src/simenv/assets/utils.py:43-45 | a word, one underscore and the rest give the capitalised word followed by the conversion of the rest |
| NameCase.SnakeToCamelDoubleUnderscore | src/simenv/assets/utils.py:41-45 | "a__b" becomes "A__B" |
| NameCase.SnakeToCamelExample | src/simenv/assets/utils.py:41-45 | "foo_bar" becomes "FooBar" |
| NameCase.SnakeToCamelAcronym | src/simenv/assets/utils.py:45 | "HTTP_ok" becomes "HttpOk" |
| NameCase.SnakeToCamelLeadingUnderscore | src/simenv/assets/utils.py:43-45 | "_foo" becomes "Foo": the empty piece is dropped |
| NameCase.SnakeCamelRoundTrip | src/simenv/assets/utils.py:34-45 | segments of two or more lower-case letters joined by single underscores come back unchanged from snake to camel to snake |
| GltfCamera.ParseType | integrations/Unity/simenv-unity/Assets/Scripts/GLTF/GLTFCamera.cs:8 | a `type` string is accepted exactly when it is the tag of a camera type, and then reads as that type |
| GltfCamera.ParseTypeTag | integrations/Unity/simenv-unity/Assets/Scripts/GLTF/GLTFCamera.cs:8 | every camera type's tag reads back as that type |
| GltfCamera.ParseTypeCaseSensitive | integrations/Unity/simenv-unity/Assets/Scripts/GLTF/GLTFCamera.cs:8 | tags differing only in case are not camera types |
| GltfCamera.ValidateOrthographic | integrations/Unity/simenv-unity/Assets/Scripts/GLTF/GLTFCamera.cs:11-17 | accepted exactly when xmag, ymag, zfar and znear are all present; the value holds them unchanged; a rejection names a missing one |
| GltfCamera.ValidatePerspective | integrations/Unity/simenv-unity/Assets/Scripts/GLTF/GLTFCamera.cs:19-25 | accepted exactly when yfov and znear are present; aspectRatio and zfar are carried over, absent ones staying absent; a rejection names a missing one |
| GltfCamera.ValidateCamera | integrations/Unity/simenv-unity/Assets/Scripts/GLTF/GLTFCamera.cs:4-25 | a camera is produced exactly when type is present and known and each sub-record given is complete; it writes back to the same record; a rejection names a missing property or the unknown tag, and yields no camera at all |
| GltfCamera.ValidateCameraToRaw | integrations/Unity/simenv-unity/Assets/Scripts/GLTF/GLTFCamera.cs:4-25 | writing any camera out as a record and validating it gives the same camera back |
| GltfCamera.OnlyTypeRequired | integrations/Unity/simenv-unity/Assets/Scripts/GLTF/GLTFCamera.cs:6-9 | name, orthographic and perspective are optional: a record with only a known type is a camera |
| GltfCamera.TypeNotMatchedToSubRecord | integrations/Unity/simenv-unity/Assets/Scripts/GLTF/GLTFCamera.cs:6-8 | nothing ties type to the sub-record: a "perspective" camera with only an orthographic part is accepted |
| GltfCamera.IncompleteSubRecordRejects | integrations/Unity/simenv-unity/Assets/Scripts/GLTF/GLTFCamera.cs:13-24 | a sub-record missing a required property rejects the whole camera with a missing-property error |
| XlandUtils.TileCell | environments/xland/src/xland/utils/utils.py:28-41 | the code table of the tile loop; TileCellRange and TileCodesAreTurns state its properties, and WriteTile and DecodeTiles are proved against it |
| XlandUtils.TileCellRange | environments/xland/src/xland/utils/utils.py:28-41 | only codes 0 to 4 write a tile; every written cell is the pixel's height or one more; code 0 writes the height in all four cells |
| XlandUtils.TileCodesAreTurns | environments/xland/src/xland/utils/utils.py:30-41 | code 3 is code 1 upside down, code 4 is code 2 mirrored, code 2 is code 1 transposed |
| XlandUtils.WriteTile | environments/xland/src/xland/utils/utils.py:28-41 | one pixel writes only its own 2x2 block, with the heights its code gives, and leaves the block as it was for an unknown code |
| XlandUtils.DecodeTiles | environments/xland/src/xland/utils/utils.py:22-41 | the grid is 2H x 2W, and every cell holds what the code of the one pixel covering it gives that position, or 0 for an unknown code |
| XlandUtils.DecodeRgb | environments/xland/src/xland/utils/utils.py:10-45 | with neither `specific_map` nor `sample_from` the heights are channel 0 at the image's size; otherwise they are the tile expansion |
| XlandUtils.GetBounds | environments/xland/src/xland/utils/utils.py:72-81 | "Cube" gives bounds from 0 to the size along all three axes; any other type is a not-implemented error |

## Left out

- `Agent.AgentUpdate`, the observation and render coroutines, and `ContinuousActions.Print`. These use Unity's character controller, transforms, frame timing, render textures and the log, and are engine plumbing.
- Exceptions: where the source throws (an empty step action, an index outside `available`, no action object), the exception also aborts the caller. The model returns an error outcome instead and does not model that abort.
- Floating point. The axes are `real` because they are only read and assigned 0, ±1 or a caller's value. NaN and out-of-range values of the `(int)` cast are not modelled.
- ActionDecoding.DecodeContinuous: on a length mismatch the source either stops at the step action's end or throws past `available`'s end. The model applies the common prefix in both cases and reports the mismatch.
- Bridge.Agent.SetProperties: the list of available actions is copied by reference in the source. The model copies the value, so later aliasing through the record is not captured.
- Bridge.Agent.SetProperties: a null action name or dist string in the record is not modelled. Strings are always present.
- Case conversion is modelled on ASCII. Python's Unicode `\d`, and the behaviour of `str.lower` and `str.capitalize` outside ASCII, are not modelled.
- NameCase.SnakeCamelRoundTrip: restricted to segments of at least two lower-case letters. A one-letter segment such as "a_b" becomes "AB" and then "ab".
- NameCase.CamelToSnakeAcronym: the worked example is "IOError" rather than a longer acronym. The general rule is SubUpperUpperIsLocal.
- `_split_re` (src/simenv/assets/utils.py:31) is not part of this model. It is only declared there.
- `get_transform_from_trs` and the quaternion and degree helpers: floating-point trigonometry over numpy matrices.
- GltfCamera.ValidateCamera: when several sub-records are incomplete, the source reports the first in JSON document order. The record as modelled keeps no property order, so the model reports the orthographic part first.
- GltfCamera.ParseType: the `EnumConverter` and `CameraType` declarations are not part of this model. Whether an unknown `type` tag is rejected or replaced by a default depends on that converter. The model assumes it is rejected, and matches the tags of section 5.12 of the glTF 2.0 specification ("perspective", "orthographic") exactly.
- The value constraints of the glTF 2.0 specification (positive `yfov`, `zfar` > `znear`, and so on) are not enforced by the importer and are not modelled.
- XlandUtils.DecodeRgb: the heights are returned before the floating-point scaling by `HEIGHT_CONSTANT` (environments/xland/src/xland/utils/utils.py:20) and by the factor at line 43. `HEIGHT_CONSTANT` comes from a module that is not part of this model.
- XlandUtils.DecodeTiles: heights are unbounded integers. Depending on the numpy version, `h + 1` on an 8-bit pixel of height 255 may wrap to 0; that is not modelled.
- `convert_to_actual_pos`: float arithmetic, numpy fancy indexing and an external `GRANULARITY` constant.

## Findings

| source | as written | input that shows it | evidently intended | confidence | as-written member | corrected member |
|---|---|---|---|---|---|---|
| integrations/Unity/simenv-unity/Assets/SimEnv/Runtime/Bridge/Agent.cs:124-139 | with an `action_dist` other than "discrete" or "continuous", the assert only logs; the three copies then go to the previous action object, or throw on a null one | a discrete agent reconfigured with `action_dist` "gaussian" keeps a discrete object whose `dist` is "gaussian", so every later `SetAction` fails its `dist` check | reject the record and leave the action object as it was | not executed | Bridge.SetPropertiesAsWrittenBreaksDist | Bridge.Agent.SetProperties |
