# Mesh recolouring in the GLB model viewer

The `GLBModel` component of the viewer loads a glTF scene. An effect then
walks every node of that scene. A mesh whose lower-cased name contains one of
the lower-cased target names is selected. When "change all meshes" is set,
every mesh is selected. A selected mesh gets its own clones of its materials,
so a material shared with another mesh is never painted. Every clone of type
`MeshStandardMaterial` takes the chosen colour and is marked for update. The
selected mesh is then set to cast and receive shadows.

The project has two modules:

- `Matching` (`matching.dfy`) holds the pure part. It covers lower-casing,
  the lowered target list (`useMemo`), `includes`, `some` and the selection
  rule. It also proves an independent statement of that rule: a mesh is
  selected exactly when every mesh is to be changed, or some target equals,
  ignoring case, a contiguous part of its name.
- `Scene` (`scene.dfy`) holds the in-place part.
  - Materials and nodes are classes whose fields the pass updates.
  - `NodeState` and `MaterialState` are the observable states of those
    objects.
  - The function `Visit` specifies one call of the traversal callback on
    those states.
  - The methods clone, paint and visit the real objects. Each one is proved
    against `Visit` or against the functions under it (`CloneState`,
    `Paint`, `Recoloured`).
  - `RecolourScene` is the whole traversal. Each node ends in the state
    `Visit` gives for its state before the pass. A node that is not a
    selected mesh keeps its own material slot. Every material of a selected
    mesh is freshly allocated, and no two material positions of selected
    meshes share an object.

Modelling choices:

- The scene graph is given as the sequence of its nodes, without repeats.
  `scene.traverse` visits each node once, and each visit touches only that
  node and its materials.
- A colour is an already parsed RGB value. `Color.set` parsing a CSS string
  is not modelled.
- A clone keeps the type and the colour of its original and starts with no
  pending update.
- The source assigns the clones to `mesh.material` and then paints them.
  The model (`RecolourSlot`) paints the fresh clones first and then stores
  them in the node. Nothing else can reach the clones in between, so the
  final state is the same.
- The `m &&` test at `src/components/ModelViewer.tsx:167` cannot fail.
  A null entry makes `m.clone()` at line 159 throw first, and a null
  single material makes `mesh.material.clone()` at line 160 throw. The
  model's material slots therefore hold only materials.
- The `"color" in m` test is true for every `MeshStandardMaterial`. The
  model therefore tests the type alone.

## Model

| member | source | states |
|---|---|---|
| Matching.Lower | src/components/ModelViewer.tsx:129 | lower-casing keeps the length and maps each character to its lower-case form |
| Matching.LowerChar | src/components/ModelViewer.tsx:129 | one character lower-cased: each ASCII letter 'A'-'Z' goes to its lower-case letter, no upper-case ASCII letter survives, and every other character is kept |
| Matching.LowerIdempotent | src/components/ModelViewer.tsx:129 | lower-casing an already lowered string changes nothing |
| Matching.LowerKeepsAbsent | src/components/ModelViewer.tsx:153 | lower-casing introduces no character except lower-case letters |
| Matching.LowerTargets | src/components/ModelViewer.tsx:128-131 | the lowered target list has the targets' length and order, and entry i is target i lowered |
| Matching.LowerSlice | src/components/ModelViewer.tsx:153-154 | lowering a part of a name equals that part of the lowered name |
| Matching.Includes | src/components/ModelViewer.tsx:154 | `includes` holds exactly when the target occurs in the name at some position |
| Matching.AnyIncludes | src/components/ModelViewer.tsx:154 | `some` holds exactly when some target in the list occurs in the name |
| Matching.NameOrEmpty | src/components/ModelViewer.tsx:153 | a missing name reads as the empty string, and a present name as itself |
| Matching.Selected | src/components/ModelViewer.tsx:153-155 | the selection test: the lowered name includes some lowered target, or every mesh is to be changed |
| Matching.IncludedMatches | src/components/ModelViewer.tsx:153-154 | the lowered target occurs at p in the lowered name exactly when the target matches the name at p, ignoring case |
| Matching.AnyIncludesIff | src/components/ModelViewer.tsx:153-154 | some lowered target occurs in the lowered name exactly when some target matches the name somewhere, ignoring case |
| Matching.SelectedIff | src/components/ModelViewer.tsx:153-155 | a mesh is selected exactly when "change all" is set or some target equals, ignoring case, a contiguous part of its name, where a missing name counts as empty |
| Matching.SelectionIgnoresCase | src/components/ModelViewer.tsx:153 | a name and its lower-cased form are selected alike |
| Matching.EmptyTargetSelectsAll | src/components/ModelViewer.tsx:154 | an empty target selects every mesh |
| Matching.NoTargetsSelectNothing | src/components/ModelViewer.tsx:154-155 | with no targets, a mesh is selected exactly when "change all" is set |
| Matching.MissingCharNeverIncluded | src/components/ModelViewer.tsx:154 | a target containing a character that the name lacks never occurs in the name |
| Matching.SubstringNotExact | src/components/ModelViewer.tsx:153-155 | the match is by substring: target "Mesh_1" selects "mesh_10" |
| Matching.UnrelatedNameNotSelected | src/components/ModelViewer.tsx:153-155 | target "Mesh_1" does not select "OtherMesh" |
| Scene.Slot.Elements | src/components/ModelViewer.tsx:162-164 | the slot as a list: a single material becomes a one-element list, an array is used as it is |
| Scene.CloneState | src/components/ModelViewer.tsx:159-160 | the state of a fresh clone: the original's type and colour, with no pending update |
| Scene.Paint | src/components/ModelViewer.tsx:166-171 | the `forEach` body: a standard material takes the colour and is marked for update; any other material is left as it is |
| Scene.Recoloured | src/components/ModelViewer.tsx:158-171 | what becomes of one material of a selected mesh: it is cloned, then painted |
| Scene.RecolouredAll | src/components/ModelViewer.tsx:158-171 | a recoloured list has the original's length, and entry k is entry k recoloured |
| Scene.RecolouredSlot | src/components/ModelViewer.tsx:158-171 | a recoloured slot keeps its shape: one material stays one, an array stays an array |
| Scene.IsTarget | src/components/ModelViewer.tsx:145-155 | a node is visited in earnest exactly when it is a mesh and the selection test holds for its name; otherwise the callback returns early |
| Scene.Visit | src/components/ModelViewer.tsx:145-175 | one call of the traversal callback: a node that is not a selected mesh is returned as it is; a selected mesh gets its recoloured slot and both shadow flags |
| Scene.VisitLeavesOthers | src/components/ModelViewer.tsx:145-155 | a node that is not a mesh, or a mesh that is not selected, keeps its state exactly |
| Scene.VisitSelectedMesh | src/components/ModelViewer.tsx:157-174 | a selected mesh keeps its name, slot shape, material count, order and types; standard materials take the colour and are marked for update; other materials keep their colour; shadows are cast and received |
| Scene.VisitRerun | src/components/ModelViewer.tsx:133-176 | with the same targets, visiting again with a new colour gives what one visit with the new colour gives |
| Scene.VisitIdempotent | src/components/ModelViewer.tsx:157-174 | a second visit with the same inputs changes nothing more |
| Scene.NoTargetsNoChange | src/components/ModelViewer.tsx:154-155 | with no targets and "change all" off, a visit changes nothing |
| Scene.EmptyTargetRecoloursEveryMesh | src/components/ModelViewer.tsx:154-174 | with an empty target, every mesh casts and receives shadows and each of its standard materials takes the colour |
| Scene.CloneThenPaint | src/components/ModelViewer.tsx:158-171 | cloning every material of a list and painting every clone recolours the list |
| Scene.Material.Clone | src/components/ModelViewer.tsx:159-160 | the clone is a new object with the original's type and colour and no pending update |
| Scene.Material.SetColor | src/components/ModelViewer.tsx:168-169 | the material takes the colour and is marked for update; its type is kept |
| Scene.CloneAll | src/components/ModelViewer.tsx:159 | yields one fresh clone per material, in order, with no two clones the same object |
| Scene.CloneSlot | src/components/ModelViewer.tsx:158-160 | the new slot has the same shape and length and holds fresh, distinct clones of the old slot's materials |
| Scene.PaintAll | src/components/ModelViewer.tsx:166-171 | every material in the list ends as `Paint` of its former state |
| Scene.RecolourSlot | src/components/ModelViewer.tsx:158-171 | the new slot's state is the old slot's state recoloured; its materials are fresh and distinct; the originals are untouched |
| Scene.RecolourMesh | src/components/ModelViewer.tsx:157-174 | the mesh's state becomes its old state with recoloured materials and both shadow flags set; its materials are fresh and distinct |
| Scene.VisitNode | src/components/ModelViewer.tsx:144-175 | the node's new state is `Visit` of its old state; a node that is not a selected mesh is unchanged; a selected mesh's materials are fresh and distinct |
| Scene.VisitAt | src/components/ModelViewer.tsx:144-175 | visiting node i of the scene: node i ends as `Visit` of its old state, and every other node keeps its materials and its state |
| Scene.VisitNodeOf | src/components/ModelViewer.tsx:144-175 | visiting node i moves the pass's progress from i to i + 1: node i is visited, other nodes keep their state, and node i's new materials are recorded |
| Scene.RecolourScene | src/components/ModelViewer.tsx:128-175 | every node ends as `Visit` of its state before the pass; non-selected nodes keep their material slot; materials of selected meshes are fresh and no two positions share one |
| Scene.RerunWithColour | src/components/ModelViewer.tsx:133-176 | re-running the effect on its own output with the same targets and a new colour leaves every node as one run with the new colour would |

## Left out

- The bounding-box fit at `src/components/ModelViewer.tsx:134-142` is not modelled because it is floating-point geometry on the loaded scene. The code has no guard against a zero-size box there: a scene with no extent divides by zero at line 139.
- A selected mesh whose `material` is null or undefined, or whose material array holds a null entry, makes the source throw at lines 159-160. The throw ends `scene.traverse` and the rest of the effect, so later nodes are not visited. This failure is not modelled: a `Slot<Material>` always holds materials, so every visit completes.
- The debug logging at lines 149-151 is not modelled because it is console output only.
- `useGLTF`, `useMemo`'s caching, `useEffect`'s scheduling, `Suspense`, the canvas, the loader and the surrounding `ModelViewer` UI are not modelled. The model covers what one run of the effect does to the scene. `src/App.tsx` and `src/components/modelUtils.ts` are not part of this model.
- `scene.traverse` is modelled by the list of nodes it visits. How three.js walks the child tree is not modelled, and neither is the order of the visits. No visit reads another node, so the order cannot change the outcome.
- Matching.Lower, Matching.LowerChar: lowers ASCII letters only. JavaScript's `toLowerCase` also lowers non-ASCII letters and can change a string's length. So a target "É" selects a mesh named "é" in the source but not in the model.
- `Color.set` parsing a colour string and three.js's update version counter behind `needsUpdate` are not modelled. The colour is a parsed value, and `needsUpdate` is a boolean flag.
- The `material` field of a node that is not a mesh is kept in the model but never read, as in the source.
