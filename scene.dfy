/** The recolour pass of the GLBModel effect over an already-loaded scene.
    Nodes and materials are objects updated in place; their observable
    state is given by value types (`NodeState`, `MaterialState`), and one
    visit of the traversal is specified by the function `Visit` on those
    values. */
module Scene {
  import opened Matching

  /** A colour value, as `Color.set` leaves it. Parsing the caller's colour
      string into this value is not part of the model. */
  datatype Color = Color(r: real, g: real, b: real)

  /** The only material type whose colour the pass changes. */
  const StandardMaterial := "MeshStandardMaterial"

  /** A mesh's `material`: one material, or an array of them. */
  datatype Slot<T> = Single(item: T) | Many(items: seq<T>) {
    /** `Array.isArray(material) ? material : [material]` */
    function Elements(): seq<T> {
      match this
      case Single(m) => [m]
      case Many(ms) => ms
    }
  }

  datatype MaterialState = MaterialState(materialType: string, color: Color, needsUpdate: bool)

  datatype NodeState = NodeState(
    isMesh: bool,
    name: Option<string>,
    material: Slot<MaterialState>,
    castShadow: bool,
    receiveShadow: bool)

  // ---------------------------------------------------------------------
  // Specification of one visit, on values

  /** The state of a fresh clone: same type and colour, not yet marked for
      update. */
  function CloneState(m: MaterialState): MaterialState {
    m.(needsUpdate := false)
  }

  /** The `forEach` body: a standard material takes the colour and is marked
      for update; any other material is left as it is. */
  function Paint(m: MaterialState, color: Color): MaterialState {
    if m.materialType == StandardMaterial then m.(color := color, needsUpdate := true) else m
  }

  /** What becomes of one material of a selected mesh: it is cloned, then
      painted. */
  function Recoloured(m: MaterialState, color: Color): MaterialState {
    Paint(CloneState(m), color)
  }

  function RecolouredAll(ms: seq<MaterialState>, color: Color): (r: seq<MaterialState>)
    ensures |r| == |ms|
    ensures forall k :: 0 <= k < |ms| ==> r[k] == Recoloured(ms[k], color)
  {
    if ms == [] then [] else [Recoloured(ms[0], color)] + RecolouredAll(ms[1..], color)
  }

  function RecolouredSlot(s: Slot<MaterialState>, color: Color): Slot<MaterialState> {
    match s
    case Single(m) => Single(Recoloured(m, color))
    case Many(ms) => Many(RecolouredAll(ms, color))
  }

  /** A node with these fields is a mesh that the selection rule picks. */
  predicate IsTarget(isMesh: bool, name: Option<string>, lowerTargets: seq<string>, changeAll: bool) {
    isMesh && Selected(lowerTargets, changeAll, name)
  }

  /** One visit of the traversal callback: a node that is not a selected
      mesh is left alone; a selected mesh gets recoloured clones of its
      materials and casts and receives shadows. */
  function Visit(n: NodeState, lowerTargets: seq<string>, changeAll: bool, color: Color): NodeState {
    if !IsTarget(n.isMesh, n.name, lowerTargets, changeAll) then n
    else n.(material := RecolouredSlot(n.material, color), castShadow := true, receiveShadow := true)
  }

  // ---------------------------------------------------------------------
  // Properties of a visit

  /** A node that is not a mesh, or a mesh the rule does not select, is left
      exactly as it was. */
  lemma VisitLeavesOthers(n: NodeState, lowerTargets: seq<string>, changeAll: bool, color: Color)
    requires !n.isMesh || !Selected(lowerTargets, changeAll, n.name)
    ensures Visit(n, lowerTargets, changeAll, color) == n
  {
  }

  /** A selected mesh keeps its name, its kind of slot and the number, order
      and types of its materials; every standard material takes the colour
      and is marked for update, every other material keeps its colour; and
      the mesh casts and receives shadows. */
  lemma VisitSelectedMesh(n: NodeState, lowerTargets: seq<string>, changeAll: bool, color: Color)
    requires n.isMesh && Selected(lowerTargets, changeAll, n.name)
    ensures var r := Visit(n, lowerTargets, changeAll, color);
      && r.isMesh && r.name == n.name
      && r.castShadow && r.receiveShadow
      && r.material.Single? == n.material.Single?
      && |r.material.Elements()| == |n.material.Elements()|
      && forall k :: 0 <= k < |n.material.Elements()| ==>
           var before, after := n.material.Elements()[k], r.material.Elements()[k];
           && after.materialType == before.materialType
           && (before.materialType == StandardMaterial ==> after.color == color && after.needsUpdate)
           && (before.materialType != StandardMaterial ==> after.color == before.color && !after.needsUpdate)
  {
  }

  /** Visiting a node again with the same targets and a new colour gives
      the state a single visit with the new colour gives: the second visit
      clones the first visit's clones and paints them over. */
  lemma {:induction false} VisitRerun(n: NodeState, lowerTargets: seq<string>, changeAll: bool, first: Color, second: Color)
    ensures Visit(Visit(n, lowerTargets, changeAll, first), lowerTargets, changeAll, second) ==
            Visit(n, lowerTargets, changeAll, second)
  {
    if IsTarget(n.isMesh, n.name, lowerTargets, changeAll) {
      match n.material
      case Single(m) =>
      case Many(ms) =>
        var once, twice := RecolouredAll(ms, first), RecolouredAll(RecolouredAll(ms, first), second);
        forall k | 0 <= k < |ms|
          ensures twice[k] == Recoloured(ms[k], second)
        {
          assert twice[k] == Recoloured(once[k], second);
        }
        assert twice == RecolouredAll(ms, second);
    }
  }

  /** Visiting a node a second time with the same inputs gives the same
      state as visiting it once. */
  lemma VisitIdempotent(n: NodeState, lowerTargets: seq<string>, changeAll: bool, color: Color)
    ensures Visit(Visit(n, lowerTargets, changeAll, color), lowerTargets, changeAll, color) ==
            Visit(n, lowerTargets, changeAll, color)
  {
    VisitRerun(n, lowerTargets, changeAll, color, color);
  }

  /** With no targets and "change all" off, the visit changes nothing. */
  lemma NoTargetsNoChange(n: NodeState, changeAll: bool, color: Color)
    requires !changeAll
    ensures Visit(n, LowerTargets([]), changeAll, color) == n
  {
  }

  /** An empty target makes every mesh cast and receive shadows, and
      recolours every standard material it holds. */
  lemma EmptyTargetRecoloursEveryMesh(n: NodeState, targets: seq<string>, changeAll: bool, color: Color)
    requires n.isMesh && "" in targets
    ensures Visit(n, LowerTargets(targets), changeAll, color).castShadow
    ensures Visit(n, LowerTargets(targets), changeAll, color).receiveShadow
    ensures forall k :: 0 <= k < |n.material.Elements()| && n.material.Elements()[k].materialType == StandardMaterial ==>
      Visit(n, LowerTargets(targets), changeAll, color).material.Elements()[k].color == color
  {
    EmptyTargetSelectsAll(targets, changeAll, n.name);
    VisitSelectedMesh(n, LowerTargets(targets), changeAll, color);
  }

  /** Recolouring a slot keeps its shape and recolours its elements. */
  lemma RecolouredSlotElements(s: Slot<MaterialState>, color: Color)
    ensures RecolouredSlot(s, color).Single? == s.Single?
    ensures RecolouredSlot(s, color).Elements() == RecolouredAll(s.Elements(), color)
  {
    if s.Single? {
      assert RecolouredAll([s.item], color) == [Recoloured(s.item, color)];
    }
  }

  /** Cloning every material of a list and then painting every clone
      recolours the list. */
  lemma CloneThenPaint(originals: seq<MaterialState>, cloned: seq<MaterialState>, painted: seq<MaterialState>,
                       color: Color)
    requires |cloned| == |originals| && |painted| == |originals|
    requires forall k :: 0 <= k < |originals| ==> cloned[k] == CloneState(originals[k])
    requires forall k :: 0 <= k < |originals| ==> painted[k] == Paint(cloned[k], color)
    ensures painted == RecolouredAll(originals, color)
  {
  }

  /** A slot is determined by its shape and its elements. */
  lemma SlotExt<T>(a: Slot<T>, b: Slot<T>)
    requires a.Single? == b.Single? && a.Elements() == b.Elements()
    ensures a == b
  {
    if a.Single? {
      assert [a.item] == [b.item];
    }
  }

  // ---------------------------------------------------------------------
  // Objects

  class Material {
    var materialType: string
    var color: Color
    var needsUpdate: bool

    function State(): MaterialState
      reads this
    {
      MaterialState(materialType, color, needsUpdate)
    }

    constructor (materialType: string, color: Color)
      ensures State() == MaterialState(materialType, color, false)
    {
      this.materialType := materialType;
      this.color := color;
      this.needsUpdate := false;
    }

    /** `material.clone()`: a new material with this one's type and colour. */
    method Clone() returns (c: Material)
      ensures fresh(c) && c.State() == CloneState(State())
    {
      c := new Material(materialType, color);
    }

    /** `color.set(color)` followed by `needsUpdate = true`. */
    method SetColor(color: Color)
      modifies this
      ensures State() == old(State()).(color := color, needsUpdate := true)
    {
      this.color := color;
      needsUpdate := true;
    }
  }

  /** The states of a list of materials, in order. */
  function States(ms: seq<Material>): (r: seq<MaterialState>)
    reads ms
    ensures |r| == |ms|
    ensures forall k :: 0 <= k < |ms| ==> r[k] == ms[k].State()
  {
    if ms == [] then [] else [ms[0].State()] + States(ms[1..])
  }

  /** The state of a material slot, element by element. */
  function SlotState(s: Slot<Material>): (r: Slot<MaterialState>)
    reads s.Elements()
    ensures r.Single? == s.Single?
    ensures r.Elements() == States(s.Elements())
  {
    match s
    case Single(m) => assert m in s.Elements(); Single(m.State())
    case Many(ms) => Many(States(ms))
  }

  class Node {
    var isMesh: bool
    var name: Option<string>
    var material: Slot<Material>
    var castShadow: bool
    var receiveShadow: bool

    /** The node's materials as a list. */
    function Materials(): seq<Material>
      reads this
    {
      material.Elements()
    }

    function State(): NodeState
      reads this, Materials()
    {
      NodeState(isMesh, name, SlotState(material), castShadow, receiveShadow)
    }

    constructor (isMesh: bool, name: Option<string>, material: Slot<Material>)
      ensures this.isMesh == isMesh && this.name == name && this.material == material
      ensures !castShadow && !receiveShadow
    {
      this.isMesh := isMesh;
      this.name := name;
      this.material := material;
      castShadow := false;
      receiveShadow := false;
    }
  }

  /** A node's state depends only on the node and its materials. */
  twostate lemma StateFramed(n: Node)
    requires unchanged(n) && unchanged(old(n.Materials()))
    ensures n.State() == old(n.State())
  {
  }

  // ---------------------------------------------------------------------
  // The pass

  /** `material.map((m) => m.clone())`: a fresh clone of each material, in
      order, all distinct even where the input repeats a material. */
  method CloneAll(ms: seq<Material>) returns (cs: seq<Material>)
    ensures |cs| == |ms|
    ensures forall k :: 0 <= k < |ms| ==> fresh(cs[k]) && cs[k].State() == CloneState(ms[k].State())
    ensures forall k, l :: 0 <= k < l < |cs| ==> cs[k] != cs[l]
  {
    cs := [];
    var i := 0;
    while i < |ms|
      invariant 0 <= i <= |ms| && |cs| == i
      invariant forall k :: 0 <= k < i ==> fresh(cs[k]) && cs[k].State() == CloneState(ms[k].State())
      invariant forall k, l :: 0 <= k < l < i ==> cs[k] != cs[l]
    {
      var c := ms[i].Clone();
      cs := cs + [c];
      i := i + 1;
    }
  }

  /** `Array.isArray(material) ? material.map((m) => m.clone()) :
      material.clone()`: a slot of the same shape holding fresh, distinct
      clones, in order. */
  method CloneSlot(s: Slot<Material>) returns (c: Slot<Material>)
    ensures c.Single? == s.Single?
    ensures |c.Elements()| == |s.Elements()|
    ensures forall k :: 0 <= k < |s.Elements()| ==>
      fresh(c.Elements()[k]) && c.Elements()[k].State() == CloneState(s.Elements()[k].State())
    ensures forall k, l :: 0 <= k < l < |c.Elements()| ==> c.Elements()[k] != c.Elements()[l]
  {
    match s {
      case Single(m) =>
        var clone := m.Clone();
        c := Single(clone);
      case Many(ms) =>
        var clones := CloneAll(ms);
        c := Many(clones);
    }
  }

  /** `mats.forEach(...)`: paints every material of the list. */
  method PaintAll(mats: seq<Material>, color: Color)
    requires forall k, l :: 0 <= k < l < |mats| ==> mats[k] != mats[l]
    modifies mats
    ensures forall k :: 0 <= k < |mats| ==> mats[k].State() == Paint(old(mats[k].State()), color)
  {
    var i := 0;
    while i < |mats|
      invariant 0 <= i <= |mats|
      invariant forall k :: 0 <= k < i ==> mats[k].State() == Paint(old(mats[k].State()), color)
      invariant forall k :: i <= k < |mats| ==> mats[k].State() == old(mats[k].State())
    {
      var m := mats[i];
      if m.materialType == StandardMaterial {
        m.SetColor(color);
      }
      i := i + 1;
    }
  }

  /** The new `material` of a selected mesh: fresh, distinct clones of the
      slot's materials, in order and of the same shape, with the standard
      ones painted. The original materials are not touched. */
  method RecolourSlot(s: Slot<Material>, color: Color) returns (c: Slot<Material>)
    ensures SlotState(c) == RecolouredSlot(old(SlotState(s)), color)
    ensures forall k :: 0 <= k < |c.Elements()| ==> fresh(c.Elements()[k])
    ensures forall k, l :: 0 <= k < l < |c.Elements()| ==> c.Elements()[k] != c.Elements()[l]
  {
    ghost var original := SlotState(s);
    c := CloneSlot(s);
    ghost var cloned := States(c.Elements());
    assert forall k :: 0 <= k < |cloned| ==> cloned[k] == CloneState(original.Elements()[k]);
    PaintAll(c.Elements(), color);
    ghost var painted := States(c.Elements());
    assert forall k :: 0 <= k < |painted| ==> painted[k] == Paint(cloned[k], color);
    CloneThenPaint(original.Elements(), cloned, painted, color);
    RecolouredSlotElements(original, color);
    SlotExt(SlotState(c), RecolouredSlot(original, color));
  }

  /** The part of the callback that runs for a selected mesh: fresh,
      distinct clones of its materials replace the originals, the standard
      ones are painted, and the mesh casts and receives shadows. */
  method RecolourMesh(node: Node, color: Color)
    modifies node
    ensures node.State() == old(node.State()).(
      material := RecolouredSlot(old(node.State()).material, color),
      castShadow := true,
      receiveShadow := true)
    ensures forall k :: 0 <= k < |node.Materials()| ==> fresh(node.Materials()[k])
    ensures forall k, l :: 0 <= k < l < |node.Materials()| ==> node.Materials()[k] != node.Materials()[l]
  {
    ghost var original := SlotState(node.material);
    var clones := RecolourSlot(node.material, color);
    ghost var recoloured := SlotState(clones);
    assert recoloured == RecolouredSlot(original, color);
    node.material := clones;
    node.castShadow := true;
    node.receiveShadow := true;
    assert node.Materials() == clones.Elements();
    assert SlotState(node.material) == recoloured;
  }

  /** The traversal callback for one node: a node that is not a selected
      mesh is left untouched; a selected mesh gets fresh, distinct clones of
      its materials, recoloured as `Visit` says. */
  method VisitNode(node: Node, lowerTargets: seq<string>, changeAll: bool, color: Color)
    modifies node
    ensures node.State() == Visit(old(node.State()), lowerTargets, changeAll, color)
    ensures !IsTarget(node.isMesh, node.name, lowerTargets, changeAll) ==> unchanged(node)
    ensures IsTarget(node.isMesh, node.name, lowerTargets, changeAll) ==>
      && (forall k :: 0 <= k < |node.Materials()| ==> fresh(node.Materials()[k]))
      && (forall k, l :: 0 <= k < l < |node.Materials()| ==> node.Materials()[k] != node.Materials()[l])
  {
    if !node.isMesh {
      return;
    }
    var name := Lower(NameOrEmpty(node.name));
    var matched := AnyIncludes(lowerTargets, name);
    if !matched && !changeAll {
      return;
    }
    RecolourMesh(node, color);
  }

  /** Visiting node `i` of the scene: that node changes as `VisitNode`
      says, and every other node keeps its materials and its state. */
  method VisitAt(nodes: seq<Node>, i: int, lowerTargets: seq<string>, changeAll: bool, color: Color)
    requires Distinct(nodes) && 0 <= i < |nodes|
    modifies nodes[i]
    ensures nodes[i].State() == Visit(old(nodes[i].State()), lowerTargets, changeAll, color)
    ensures !IsTarget(old(nodes[i].isMesh), old(nodes[i].name), lowerTargets, changeAll) ==>
      nodes[i].material == old(nodes[i].material)
    ensures IsTarget(old(nodes[i].isMesh), old(nodes[i].name), lowerTargets, changeAll) ==>
      && (forall k :: 0 <= k < |nodes[i].Materials()| ==> fresh(nodes[i].Materials()[k]))
      && (forall k, l :: 0 <= k < l < |nodes[i].Materials()| ==> nodes[i].Materials()[k] != nodes[i].Materials()[l])
    ensures forall j :: 0 <= j < |nodes| && j != i ==>
      nodes[j].Materials() == old(nodes[j].Materials()) && nodes[j].State() == old(nodes[j].State())
  {
    VisitNode(nodes[i], lowerTargets, changeAll, color);
    forall j | 0 <= j < |nodes| && j != i
      ensures nodes[j].Materials() == old(nodes[j].Materials()) && nodes[j].State() == old(nodes[j].State())
    {
      assert nodes[j] != nodes[i];
      ghost var ms := old(nodes[j].Materials());
      assert forall k :: 0 <= k < |ms| ==> old(allocated(ms[k]));
      StateFramed(nodes[j]);
    }
  }

  /** Visiting node `i` of the scene, given the state `before` and the
      material slot `slots` of every node before the pass: node `i` changes
      as `VisitNode` says and every other node keeps its materials and its
      state, so the progress of the pass moves from `i` to `i + 1`; the new
      materials of node `i` are recorded in `owner`. */
  method VisitNodeOf(nodes: seq<Node>, ghost before: seq<NodeState>, ghost slots: seq<Slot<Material>>, i: int,
                     lowerTargets: seq<string>, changeAll: bool, color: Color,
                     ghost owner: map<Material, (int, int)>)
    returns (ghost owner': map<Material, (int, int)>)
    requires Distinct(nodes) && |before| == |nodes| == |slots| && 0 <= i < |nodes|
    requires forall j :: 0 <= j < i ==> nodes[j].State() == Visit(before[j], lowerTargets, changeAll, color)
    requires forall j :: i <= j < |nodes| ==> nodes[j].State() == before[j]
    requires forall j ::
      && 0 <= j < |nodes| && (i <= j || !IsTarget(before[j].isMesh, before[j].name, lowerTargets, changeAll))
      ==> nodes[j].material == slots[j]
    requires Owned(nodes, before, i, lowerTargets, changeAll, owner)
    modifies nodes[i]
    ensures forall j :: 0 <= j < i + 1 ==> nodes[j].State() == Visit(before[j], lowerTargets, changeAll, color)
    ensures forall j :: i + 1 <= j < |nodes| ==> nodes[j].State() == before[j]
    ensures forall j ::
      && 0 <= j < |nodes| && (i + 1 <= j || !IsTarget(before[j].isMesh, before[j].name, lowerTargets, changeAll))
      ==> nodes[j].material == slots[j]
    ensures Owned(nodes, before, i + 1, lowerTargets, changeAll, owner')
    ensures forall m :: m in owner' ==> m in owner || fresh(m)
  {
    VisitAt(nodes, i, lowerTargets, changeAll, color);
    forall j | 0 <= j < i + 1
      ensures nodes[j].State() == Visit(before[j], lowerTargets, changeAll, color)
    {
    }
    forall j | 0 <= j < |nodes| && (i + 1 <= j || !IsTarget(before[j].isMesh, before[j].name, lowerTargets, changeAll))
      ensures nodes[j].material == slots[j]
    {
    }
    // The materials of the nodes before `i` are the same objects as before
    // the visit, so they are still recorded.
    forall j, k |
      && 0 <= j < i && IsTarget(before[j].isMesh, before[j].name, lowerTargets, changeAll)
      && 0 <= k < |nodes[j].Materials()|
      ensures nodes[j].Materials()[k] in owner && owner[nodes[j].Materials()[k]] == (j, k)
    {
      assert nodes[j].Materials() == old(nodes[j].Materials());
    }
    assert Owned(nodes, before, i, lowerTargets, changeAll, owner);
    owner' := owner;
    if IsTarget(before[i].isMesh, before[i].name, lowerTargets, changeAll) {
      ghost var ms := nodes[i].Materials();
      forall k | 0 <= k < |ms| ensures ms[k] !in owner {
        assert fresh(ms[k]);
      }
      OwnedExtend(nodes, before, i, lowerTargets, changeAll, owner);
      owner' := Record(owner, ms, i);
    }
  }

  /** Every material of the nodes before `i` that were selected meshes
      (`before` holding the state of each node before the pass) is recorded
      in `owner` with the node and the position holding it. */
  ghost predicate Owned(nodes: seq<Node>, before: seq<NodeState>, i: int, lowerTargets: seq<string>,
                        changeAll: bool, owner: map<Material, (int, int)>)
    reads nodes
  {
    forall j, k ::
      && 0 <= j < i && j < |nodes| && j < |before|
      && IsTarget(before[j].isMesh, before[j].name, lowerTargets, changeAll)
      && 0 <= k < |nodes[j].Materials()|
      ==> nodes[j].Materials()[k] in owner && owner[nodes[j].Materials()[k]] == (j, k)
  }

  /** `owner` with each material of `ms` recorded at node `i` and its
      position. */
  ghost function Record(owner: map<Material, (int, int)>, ms: seq<Material>, i: int): (r: map<Material, (int, int)>)
    requires forall k, l :: 0 <= k < l < |ms| ==> ms[k] != ms[l]
    ensures r.Keys == owner.Keys + set k | 0 <= k < |ms| :: ms[k]
    ensures forall k :: 0 <= k < |ms| ==> r[ms[k]] == (i, k)
    ensures forall m :: m in owner && m !in ms ==> r[m] == owner[m]
  {
    owner + map k | 0 <= k < |ms| :: ms[k] := (i, k)
  }

  /** Recording the distinct, new materials of node `i` extends `Owned` to
      node `i`. */
  lemma OwnedExtend(nodes: seq<Node>, before: seq<NodeState>, i: int, lowerTargets: seq<string>,
                    changeAll: bool, prev: map<Material, (int, int)>)
    requires 0 <= i < |nodes| && Owned(nodes, before, i, lowerTargets, changeAll, prev)
    requires forall k, l :: 0 <= k < l < |nodes[i].Materials()| ==> nodes[i].Materials()[k] != nodes[i].Materials()[l]
    requires forall k :: 0 <= k < |nodes[i].Materials()| ==> nodes[i].Materials()[k] !in prev
    ensures Owned(nodes, before, i + 1, lowerTargets, changeAll, Record(prev, nodes[i].Materials(), i))
  {
    var ms := nodes[i].Materials();
    var owner := Record(prev, ms, i);
    forall j, k |
      && 0 <= j <= i && j < |before| && IsTarget(before[j].isMesh, before[j].name, lowerTargets, changeAll)
      && 0 <= k < |nodes[j].Materials()|
      ensures nodes[j].Materials()[k] in owner && owner[nodes[j].Materials()[k]] == (j, k)
    {
      if j < i {
        assert nodes[j].Materials()[k] in prev;
      }
    }
  }

  /** Materials recorded with their positions are distinct across positions. */
  lemma OwnedDistinct(nodes: seq<Node>, before: seq<NodeState>, lowerTargets: seq<string>, changeAll: bool,
                      owner: map<Material, (int, int)>)
    requires |before| == |nodes| && Owned(nodes, before, |nodes|, lowerTargets, changeAll, owner)
    ensures forall i, j, k, l ::
      && 0 <= i < |nodes| && IsTarget(before[i].isMesh, before[i].name, lowerTargets, changeAll)
      && 0 <= j < |nodes| && IsTarget(before[j].isMesh, before[j].name, lowerTargets, changeAll)
      && 0 <= k < |nodes[i].Materials()| && 0 <= l < |nodes[j].Materials()| && (i, k) != (j, l)
      ==> nodes[i].Materials()[k] != nodes[j].Materials()[l]
  {
  }

  /** All the nodes are different objects: the traversal visits each node
      of the scene once. */
  predicate Distinct(nodes: seq<Node>) {
    forall i, j :: 0 <= i < j < |nodes| ==> nodes[i] != nodes[j]
  }

  /** The recolour part of GLBModel's effect: lower-case the targets, then
      visit every node of the scene. Each node ends in the state `Visit`
      gives for its state before the pass. Nodes that were not selected
      meshes keep their material slot; every material of a selected mesh is
      freshly allocated, and no two material positions of selected meshes
      share an object, so no original material is changed and no other node
      sees the new colour. */
  method RecolourScene(nodes: seq<Node>, targetMeshes: seq<string>, changeAll: bool, color: Color)
    requires Distinct(nodes)
    modifies nodes
    ensures forall i :: 0 <= i < |nodes| ==>
      nodes[i].State() == Visit(old(nodes[i].State()), LowerTargets(targetMeshes), changeAll, color)
    ensures forall i ::
      && 0 <= i < |nodes| && !IsTarget(old(nodes[i].isMesh), old(nodes[i].name), LowerTargets(targetMeshes), changeAll)
      ==> nodes[i].material == old(nodes[i].material)
    ensures forall i, k ::
      && 0 <= i < |nodes| && IsTarget(old(nodes[i].isMesh), old(nodes[i].name), LowerTargets(targetMeshes), changeAll)
      && 0 <= k < |nodes[i].Materials()|
      ==> fresh(nodes[i].Materials()[k])
    ensures forall i, j, k, l ::
      && 0 <= i < |nodes| && IsTarget(old(nodes[i].isMesh), old(nodes[i].name), LowerTargets(targetMeshes), changeAll)
      && 0 <= j < |nodes| && IsTarget(old(nodes[j].isMesh), old(nodes[j].name), LowerTargets(targetMeshes), changeAll)
      && 0 <= k < |nodes[i].Materials()| && 0 <= l < |nodes[j].Materials()| && (i, k) != (j, l)
      ==> nodes[i].Materials()[k] != nodes[j].Materials()[l]
  {
    var lowerTargets := LowerTargets(targetMeshes);
    // The state and the material slot of every node before the pass.
    ghost var before := seq(|nodes|, j requires 0 <= j < |nodes|
      reads (if 0 <= j < |nodes| then {nodes[j]} else {}), (if 0 <= j < |nodes| then nodes[j].Materials() else [])
      => nodes[j].State());
    ghost var slots := seq(|nodes|, j requires 0 <= j < |nodes| reads nodes => nodes[j].material);
    // Each clone made so far, with the node and the position holding it.
    ghost var owner: map<Material, (int, int)> := map[];
    var i := 0;
    while i < |nodes|
      invariant 0 <= i <= |nodes| && |before| == |nodes| == |slots|
      invariant forall j :: 0 <= j < |nodes| ==> before[j] == old(nodes[j].State()) && slots[j] == old(nodes[j].material)
      invariant forall j :: 0 <= j < i ==> nodes[j].State() == Visit(before[j], lowerTargets, changeAll, color)
      invariant forall j :: i <= j < |nodes| ==> nodes[j].State() == before[j]
      invariant forall j ::
        && 0 <= j < |nodes| && (i <= j || !IsTarget(before[j].isMesh, before[j].name, lowerTargets, changeAll))
        ==> nodes[j].material == slots[j]
      invariant Owned(nodes, before, i, lowerTargets, changeAll, owner)
      invariant forall m :: m in owner ==> fresh(m)
    {
      owner := VisitNodeOf(nodes, before, slots, i, lowerTargets, changeAll, color, owner);
      i := i + 1;
    }
    OwnedDistinct(nodes, before, lowerTargets, changeAll, owner);
  }

  /** The effect runs again when its colour changes, over the scene the
      first run left behind: with the same targets, the scene ends as one
      run with the new colour would leave it. */
  method RerunWithColour(nodes: seq<Node>, targetMeshes: seq<string>, changeAll: bool, first: Color, second: Color)
    requires Distinct(nodes)
    modifies nodes
    ensures forall i :: 0 <= i < |nodes| ==>
      nodes[i].State() == Visit(old(nodes[i].State()), LowerTargets(targetMeshes), changeAll, second)
  {
    RecolourScene(nodes, targetMeshes, changeAll, first);
    label FirstRun:
    RecolourScene(nodes, targetMeshes, changeAll, second);
    forall i | 0 <= i < |nodes|
      ensures nodes[i].State() == Visit(old(nodes[i].State()), LowerTargets(targetMeshes), changeAll, second)
    {
      VisitRerun(old(nodes[i].State()), LowerTargets(targetMeshes), changeAll, first, second);
    }
  }
}
