# Inspector panel logic, modelled and proved in Dafny

The editor's property inspector (`Editor/Source/InspectorPanel.cpp`) is mostly immediate-mode
GUI code over an entity-component store. Inside it sit a few self-contained pieces of logic.
This project models them in one Dafny module, `Inspector` (`inspector.dfy`), and proves
what they promise:

- **Enum ↔ label tables.** The 3D collision shapes, the 2D rigid-body shapes and the mesh
  primitives. Each enum has one extra constructor (`UnsupportedShape`, `UnlistedShape2D`,
  `UnlistedPrimitive`). It stands for a value outside the listed enumerators, which the C++
  `switch` sends to its `default` or trailing `return`.
- **The primitive dropdown** of the model component editor: what choosing a combo entry does.
- **Deferred edits to the animation-state map.** While the `std::map<std::string, AnimationState>`
  is traversed, removals and renames are only recorded in two side lists. Afterwards all
  removals run, then each rename by extract / rekey / insert. The map is the
  `map<string, AnimationState>` field of class `AnimatedSprite`. The traversal runs over an
  explicit order that must be the map's own order: its keys in increasing lexicographic order.
- **"New File" script naming.** The name search loop over a finite set of taken files.
- **Material de-duplication.** The loop over a model's meshes that shows each material once,
  using a 1000-slot `MaterialShown` array, and builds each material's tree-node label.
- **Panel bookkeeping.** Class `InspectorPanel` covers the one-shot registration of the fifteen
  component editors, guarded by the file-static `init` flag (class `InitGuard`), and the labels
  it builds. It also covers the per-frame gate that clears the selection unless exactly one
  valid entity is selected, the active checkbox, the name field and the debug-mode toggle.

`FileSystem::FileExists` becomes membership in a set of taken paths. `VFS::ResolvePhysicalPath`
becomes an `Option<string>` parameter. The user's clicks and edits in a frame are parameters
of the operations (`StateRow`, `FrameInput`, the chosen combo entry).

Two facts about the code shape the model:

- Removing a state and renaming it in the same frame is undefined, unless an earlier rename
  in that frame wrote a state back under the removed name. The removals run first
  (lines 1353-1356), so the rename extracts a missing key and calls `key()` on an empty node
  handle (lines 1360-1361). `ApplyEdits` is `None` in that case (`DeleteThenRenameUndefined`),
  and the apply methods require that it is not. When an earlier rename recreated the name,
  the later rename moves that state on (`RenameOfRecreatedName`).
- Parsing a collision-shape label and printing it again gives back the label exactly for the
  five labels the printer produces; every other string comes back as "Sphere"
  (`CollisionShapeLabelRoundTrip`).

## Model

| member | source | states |
|---|---|---|
| `Inspector.CollisionShapeTypeToString` | Editor/Source/InspectorPanel.cpp:318-339 | a listed shape gets one of the five labels; any other value gets "Error" |
| `Inspector.StringToCollisionShapeType` | Editor/Source/InspectorPanel.cpp:341-356 | always a listed shape; any string other than the five labels gives CollisionSphere |
| `Inspector.CollisionShapeRoundTrip` | Editor/Source/InspectorPanel.cpp:318-356 | type → label → type is the identity on the five listed shapes; an unsupported value comes back as CollisionSphere |
| `Inspector.CollisionShapeLabelRoundTrip` | Editor/Source/InspectorPanel.cpp:318-356 | label → type → label returns the label if and only if it is one of the five |
| `Inspector.CollisionShape2DTypeToString` | Editor/Source/InspectorPanel.cpp:288-302 | Circle, Square, Custom get their names; any other value gets "Unknown Shape" |
| `Inspector.StringToCollisionShape2DType` | Editor/Source/InspectorPanel.cpp:304-316 | always a listed shape; any other string gives Circle |
| `Inspector.CollisionShape2DRoundTrip` | Editor/Source/InspectorPanel.cpp:288-316 | type → label → type is the identity on Circle, Square, Custom; any other value comes back as Circle |
| `Inspector.CollisionShape2DLabelRoundTrip` | Editor/Source/InspectorPanel.cpp:288-316 | label → type → label returns the label if and only if it is one of the three |
| `Inspector.PrimitiveName` | Editor/Source/InspectorPanel.cpp:1548-1575 | a type's name is one of the six parsable names exactly for the six parsable types; the empty name exactly for an unlisted value |
| `Inspector.PrimitiveFromName` | Editor/Source/InspectorPanel.cpp:1516-1546 | always one of the six parsable types; any unknown name gives Cube |
| `Inspector.PrimitiveRoundTrip` | Editor/Source/InspectorPanel.cpp:1516-1575 | type → name → type is the identity exactly on Cube, Quad, Sphere, Pyramid, Capsule, Cylinder; every other type comes back as Cube |
| `Inspector.PrimitiveNameNotInvertible` | Editor/Source/InspectorPanel.cpp:1516-1575 | Plane ("Plane"), File ("Mesh File") and None ("None") all come back as Cube |
| `Inspector.OnPrimitiveSelected` | Editor/Source/InspectorPanel.cpp:1817-1845 | any entry other than "File" replaces or loads the parsed primitive; "File" marks the model as a file only when a model exists |
| `Inspector.DropdownNeverMarksFile` | Editor/Source/InspectorPanel.cpp:1817-1845 | no combo entry reaches the File branch; "Mesh File" and "None" load a Cube |
| `Inspector.OnPrimitiveSelectedFixed` | Editor/Source/InspectorPanel.cpp:1817-1845 | with the guard compared against File's own name, "Mesh File" marks the model as a file; other entries behave as before |
| `Inspector.DropdownFixedSelectsChosenType` | Editor/Source/InspectorPanel.cpp:1817-1845 | with the corrected guard and a model present, every entry except "None" leaves the model with the type whose name is the chosen entry |
| `Inspector.NatToString` | Editor/Source/InspectorPanel.cpp:1939 | the decimal spelling `std::to_string` produces: at least one character, all digits, one digit exactly below ten |
| `Inspector.ParseNatToString` | Editor/Source/InspectorPanel.cpp:2366 | reading a number's decimal spelling back gives the number |
| `Inspector.IterationOrderDistinct` | Editor/Source/InspectorPanel.cpp:1205 | the traversal order of the state map visits each name once |
| `Inspector.DeleteAll` | Editor/Source/InspectorPanel.cpp:1353-1356 | the removal loop removes exactly the listed names and keeps every other state's value |
| `Inspector.DeletesOf` | Editor/Source/InspectorPanel.cpp:1224 | at most one removal per traversed row, each of a traversed name |
| `Inspector.RenamesOf` | Editor/Source/InspectorPanel.cpp:1342 | at most one rename per traversed row, each from a traversed name |
| `Inspector.RenamesOfMembers` | Editor/Source/InspectorPanel.cpp:1342 | a rename (k, v) is recorded if and only if k's row was open and its name field was edited to v |
| `Inspector.RenameOne` | Editor/Source/InspectorPanel.cpp:1358-1363 | defined only when the source name is present; the source name leaves; the target holds the old state if it was free, or keeps its own state if it was taken; nothing else changes |
| `Inspector.ApplyRenamesPrefixDefined` | Editor/Source/InspectorPanel.cpp:1358-1363 | if the whole rename list is defined, so is every prefix of it |
| `Inspector.ApplyRenamesFrame` | Editor/Source/InspectorPanel.cpp:1358-1363 | a name that no rename mentions keeps its presence and its state through the renames |
| `Inspector.ApplyRenamesKeepsUnrenamed` | Editor/Source/InspectorPanel.cpp:1358-1363 | a present name that is no rename's source is still present afterwards |
| `Inspector.ApplyRenamesKeys` | Editor/Source/InspectorPanel.cpp:1358-1363 | after the renames a name is present only if it was before or some rename targets it |
| `Inspector.ApplyRenamesNeverGrows` | Editor/Source/InspectorPanel.cpp:1358-1363 | the renames never add states: each takes its source away and inserts at most one |
| `Inspector.ApplyRenamesAppend` | Editor/Source/InspectorPanel.cpp:1358-1363 | renaming by one list and then another is renaming by the two lists joined |
| `Inspector.ApplyRenamesSplitAt` | Editor/Source/InspectorPanel.cpp:1358-1363 | a defined rename list splits at any rename into the renames before, that rename, and those after |
| `Inspector.ApplyRenamesMoves` | Editor/Source/InspectorPanel.cpp:1358-1363 | in any list, a rename (old, new) onto a free name that no other rename mentions leaves old absent and new holding old's former state |
| `Inspector.ApplyEditsMoves` | Editor/Source/InspectorPanel.cpp:1353-1363 | the same over the whole apply phase, where a name freed by a removal counts as free |
| `Inspector.ApplyEditsKeys` | Editor/Source/InspectorPanel.cpp:1353-1363 | after the apply phase a name is present only if it survived the removals or some rename targets it |
| `Inspector.ApplyEditsNeverGrows` | Editor/Source/InspectorPanel.cpp:1353-1363 | the apply phase never adds states |
| `Inspector.ApplyEditsDefined` | Editor/Source/InspectorPanel.cpp:1353-1363 | the apply phase is defined when the rename sources are distinct, present and not removed |
| `Inspector.ApplyEditsRemoves` | Editor/Source/InspectorPanel.cpp:1353-1363 | a removed name is absent afterwards unless some rename targets it |
| `Inspector.ApplyEditsFrame` | Editor/Source/InspectorPanel.cpp:1353-1363 | every name in neither list keeps its presence and its state |
| `Inspector.SingleRename` | Editor/Source/InspectorPanel.cpp:1358-1363 | renaming onto a free name moves the state; renaming onto a taken name keeps the existing state and drops the renamed one |
| `Inspector.DeleteThenRenameUndefined` | Editor/Source/InspectorPanel.cpp:1353-1363 | when any rename's source was removed and no earlier rename wrote it back, the apply phase is undefined |
| `Inspector.RenameOfRecreatedName` | Editor/Source/InspectorPanel.cpp:1353-1363 | a removed name that an earlier rename recreated can be renamed again: {W, X} with W→X, X removed, X→Y gives {Y: W's state} |
| `Inspector.DeletesOfMembers` | Editor/Source/InspectorPanel.cpp:1220-1226 | a name is recorded for removal if and only if its row's Remove button was pressed |
| `Inspector.RecordedEditsWellFormed` | Editor/Source/InspectorPanel.cpp:1202-1342 | recorded removals are traversed names; recorded rename sources are distinct traversed names that are not removed, provided no row is both removed and renamed |
| `Inspector.CollectStateEdits` | Editor/Source/InspectorPanel.cpp:1202-1350 | the traversal loop records, in traversal order, exactly the pressed removals and the edited names of open rows |
| `Inspector.CollectedEditsApplicable` | Editor/Source/InspectorPanel.cpp:1202-1363 | a sufficient condition: the lists one traversal records can always be applied when no row is both removed and renamed |
| `Inspector.AnimatedSprite.AddState` | Editor/Source/InspectorPanel.cpp:1185-1192 | "--New--" now holds a fresh looping state with no frames and duration 1, overwriting any state there |
| `Inspector.AnimatedSprite.ApplyStateEdits` | Editor/Source/InspectorPanel.cpp:1353-1363 | the new map is the result of all removals followed by all renames |
| `Inspector.AnimatedSprite.EditStates` | Editor/Source/InspectorPanel.cpp:1185-1363 | one frame of the States tree: the optional "+" press, then the edits recorded from the rows, then applied; it requires exactly that the apply phase of those edits is defined |
| `Inspector.NatToStringInjective` | Editor/Source/InspectorPanel.cpp:1936-1939 | different numbers have different decimal spellings |
| `Inspector.ScriptCandidate` | Editor/Source/InspectorPanel.cpp:94-99 | candidate 0 and only candidate 0 is "Script" |
| `Inspector.ScriptCandidateInjective` | Editor/Source/InspectorPanel.cpp:94-99 | different indices give different candidate names |
| `Inspector.ScriptFileInjective` | Editor/Source/InspectorPanel.cpp:96 | different names give different files in one directory |
| `Inspector.CandidateFileIndex` | Editor/Source/InspectorPanel.cpp:94-99 | every file among the first k + 1 candidates' files is the file of some candidate j ≤ k |
| `Inspector.CandidateFilesWithin` | Editor/Source/InspectorPanel.cpp:96 | when the first k + 1 candidates are all taken, their files lie inside the taken set |
| `Inspector.CandidateFilesCount` | Editor/Source/InspectorPanel.cpp:94-99 | the first k + 1 candidates name k + 1 different files |
| `Inspector.FreshScriptName` | Editor/Source/InspectorPanel.cpp:94-100 | the result is candidate k for the least k whose file is free: "Script" if free, else "Script(k)"; k never exceeds the number of taken files, so the loop ends |
| `Inspector.NewScriptFile` | Editor/Source/InspectorPanel.cpp:74-104 | nothing is written when the scripts directory does not resolve; otherwise the written file is free and the component's new path names the same first free candidate |
| `Inspector.FirstOccurrences` | Editor/Source/InspectorPanel.cpp:1914-1931 | the shown materials are exactly the materials of the meshes, null included, and are never more than the meshes |
| `Inspector.FirstOccurrencesDistinct` | Editor/Source/InspectorPanel.cpp:1914-1931 | no material is shown twice |
| `Inspector.FirstIndex` | Editor/Source/InspectorPanel.cpp:1916-1926 | the index at which a material first occurs among the meshes |
| `Inspector.FirstOccurrencesInOrder` | Editor/Source/InspectorPanel.cpp:1914-1931 | materials are shown in the order of their first occurrence |
| `Inspector.FirstOccurrencesOfPrefix` | Editor/Source/InspectorPanel.cpp:1914-1931 | the materials shown after a prefix of the meshes are a prefix of those shown after all of them |
| `Inspector.FirstOccurrencesStep` | Editor/Source/InspectorPanel.cpp:1918-1931 | one more mesh either repeats a shown material or appends a new one |
| `Inspector.AlreadyShown` | Editor/Source/InspectorPanel.cpp:1921-1926 | the inner loop reports whether the pointer is among the first MaterialCount recorded ones |
| `Inspector.MaterialName` | Editor/Source/InspectorPanel.cpp:1919 | a null material has the empty name; any other has the name of its material |
| `Inspector.MaterialLabel` | Editor/Source/InspectorPanel.cpp:1933-1939 | the label starts with the name, or with "Material" when the name is empty, and ends with "##" and the index |
| `Inspector.MaterialLabelsSnoc` | Editor/Source/InspectorPanel.cpp:1933-1940 | showing one more material appends exactly its label, built from the next index |
| `Inspector.MaterialLabelsAt` | Editor/Source/InspectorPanel.cpp:1933-1940 | label i is built from the name of the i-th material shown and index i |
| `Inspector.AppendMaterialId` | Editor/Source/InspectorPanel.cpp:1933-1939 | the in-place edits of matName give the material label |
| `Inspector.MaterialLabelId` | Editor/Source/InspectorPanel.cpp:1933-1939 | what follows the label's last '#' is the material's index |
| `Inspector.MaterialLabelsDistinct` | Editor/Source/InspectorPanel.cpp:1933-1939 | materials with different indices get different labels, whatever their names |
| `Inspector.RecordMaterial` | Editor/Source/InspectorPanel.cpp:1931-1940 | a new pointer is written into the next free MaterialShown slot and its label is appended |
| `Inspector.ShowMesh` | Editor/Source/InspectorPanel.cpp:1916-1940 | one iteration keeps MaterialShown's recorded prefix equal to the de-duplicated meshes seen so far and the labels in step with it |
| `Inspector.ShowMaterials` | Editor/Source/InspectorPanel.cpp:1914-1940 | each distinct pointer is processed once, in first-occurrence order; matIndex is the number processed; label i is the name, or "Material<i>" when empty, followed by "##<i>" |
| `Inspector.DisplayName` | Editor/Source/InspectorPanel.cpp:2298-2312 | no display name contains a tab |
| `Inspector.RegistrationIndex` | Editor/Source/InspectorPanel.cpp:2298-2312 | every component type has a place in the registration order |
| `Inspector.Icon` | Editor/Source/InspectorPanel.cpp:2288-2291 | the icon is always one of the map's icons, and a type's own icon when the map has one |
| `Inspector.ComponentLabelOwnIcon` | Editor/Source/InspectorPanel.cpp:2286-2296 | a type with its own icon gets the same label whatever the Editor fallback icon is |
| `Inspector.IconFallbackShared` | Editor/Source/InspectorPanel.cpp:2288-2291 | every type without an icon of its own is labelled with the Editor icon |
| `Inspector.ComponentLabelNamesType` | Editor/Source/InspectorPanel.cpp:2286-2296 | what follows a label's last tab is the type's display name |
| `Inspector.ComponentLabelsDistinct` | Editor/Source/InspectorPanel.cpp:2286-2312 | different component types always get different labels |
| `Inspector.TrivialComponents` | Editor/Source/InspectorPanel.cpp:2286-2312 | fifteen registrations, in source order, each labelled icon + tab + display name |
| `Inspector.TrivialComponentsOnePerType` | Editor/Source/InspectorPanel.cpp:2286-2312 | every component type is registered, none twice, under pairwise different labels |
| `Inspector.InspectorPanel.OnNewScene` | Editor/Source/InspectorPanel.cpp:2274-2313 | afterwards init is set; the first call appends the fifteen registrations, every later call registers nothing |
| `Inspector.NewSceneTwice` | Editor/Source/InspectorPanel.cpp:2274-2280 | a fresh panel that loads two scenes holds exactly the fifteen registrations |
| `Inspector.InspectorPanel.SetDebugMode` | Editor/Source/InspectorPanel.cpp:2458-2461 | the debug flag becomes the given value |
| `Inspector.InspectsSingle` | Editor/Source/InspectorPanel.cpp:2334-2340 | the panel inspects exactly when the selection is one valid entity |
| `Inspector.ShownActive` | Editor/Source/InspectorPanel.cpp:2350-2351 | the checkbox is unticked only for an entity whose ActiveComponent is false; it shows the component's flag when there is one |
| `Inspector.ToggleActive` | Editor/Source/InspectorPanel.cpp:2350-2358 | a click stores the negation of the shown flag (shown true when absent, so the emplaced value is false) and changes no other entity |
| `Inspector.ToggleActiveTwice` | Editor/Source/InspectorPanel.cpp:2350-2358 | two clicks restore the shown flag; only the component may have been created |
| `Inspector.DisplayedName` | Editor/Source/InspectorPanel.cpp:2361-2366 | a named entity shows its NameComponent; an unnamed one shows digits that read back as its entity number |
| `Inspector.InspectorPanel.OnImGui` | Editor/Source/InspectorPanel.cpp:2315-2400 | with no scene, or not exactly one valid entity selected, the selection is cleared and nothing else changes; otherwise that entity is inspected, the name field shows its displayed name, the checkbox, name field and debug toggle apply their edits, and the selection is kept |

## Left out

- Everything ImGui draws (columns, combos, tooltips, trees, popups, drag-and-drop payloads): rendering with no behaviour to state. The pointer comparison the collision-shape combo uses to pre-select its entry (lines 486-498) belongs to it.
- File writing, `VFS::ResolvePhysicalPath`, script `Reload`, texture, font and sound loading, the file-browser and text-edit callbacks: foreign I/O. `FileExists` is kept as set membership.
- Rigid-body, sound, camera, light, environment and texture-matrix getters and setters: thin wrappers over engine objects that are not part of this model. The Euler/quaternion maths, the pitch clamp and the mass floor are floating-point numerics and are left out too.
- `LightTypeToString`, `StringToLightType`, `CameraControllerTypeToString` and `StringToControllerType` are not part of this model; they are defined in other files.
- The frame-removal loop inside an animation state (lines 1306-1333). It erases through an iterator and then keeps using it against a stale end, which is undefined behaviour, so it has no correct meaning to model.
- The in-place edits of each open animation state during the traversal: the `DragFloat` on its frame duration (line 1260), the play-mode combo (line 1279) and the frame list's `emplace_back` (line 1297). Only the map's keys and the states moved by the apply phase are modelled; `CollectStateEdits` records the keys' edits alone.
- The error logging on the fallback paths (`INDEX_LOG_ERROR` at lines 78, 314, 334, 354, 1544 and 1573): it writes to the log and changes no state. The values returned on those paths are modelled.
- The debug child walk (lines 2429-2440). It never advances when a child lacks a Hierarchy, so it can loop forever. Debug display only.
- The RollOffFactor setter that passes `paused` (lines 702-705): a copy-paste slip in widget glue.
- The component dispatch `m_EnttEditor.RenderImGui` (line 2449) and `registerComponent`: their implementation is not part of this model. A registration is recorded as an entry appended to `registered`.
- `Editor::SetSelected` is not part of this model. Passing it the null entity is taken to empty the selection.
- The panel's header is not part of this model. `m_DebugMode` is taken to start false.
- `FreshScriptName`: the C++ `fileIndex` is an `int`; its overflow after 2^31 taken files is not modelled.
- The "Add Material" button shown for a null material (lines 1941-1945): a click that creates a fresh material, with nothing to state beyond the assignment.
- `Material::GetName` is not part of this model. A material's name is taken to be a function of its address.
- `ShowMaterials`: requires at most 1000 distinct materials. The C++ writes past the end of `MaterialShown[1000]` beyond that; the model does not give that overflow a meaning.
- `InspectorPanel.OnNewScene`: requires the Editor fallback icon whenever some component type lacks its own icon. Reading the missing fallback with `operator[]` would append a null `const char*` to a `std::string`.
- `AnimatedSprite.ApplyStateEdits`: requires that every rename finds its source key. An empty node handle's `key()` is undefined behaviour.
- `AnimatedSprite.EditStates`: requires that the apply phase of the recorded edits is defined, for the same reason. `CollectedEditsApplicable` gives a sufficient condition for this, and `DeleteThenRenameUndefined` gives the case that breaks it.

## Findings

| source | as written | input that shows it | evidently intended | confidence | as-written member | corrected member |
|---|---|---|---|---|---|---|
| Editor/Source/InspectorPanel.cpp:1829 | the File branch is guarded by `strcmp(shapes[n], "File")`, but the combo entry is "Mesh File" | choose "Mesh File" in the Primitive Type combo: the meshes are replaced by a Cube | choosing "Mesh File" marks the model as loaded from a file | medium, not executed | `Inspector.DropdownNeverMarksFile` | `Inspector.DropdownFixedSelectsChosenType` |
