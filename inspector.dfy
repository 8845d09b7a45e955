/**
 * A model of the self-contained logic inside the editor's property inspector
 * (Editor/Source/InspectorPanel.cpp): the enum <-> label tables, the deferred
 * add / delete / rename of animation states, the fresh script file name search,
 * the material de-duplication loop, the one-shot component registration and the
 * per-frame selection gate, active toggle and debug-mode toggle.
 */
module Inspector {

  datatype Option<T> = None | Some(value: T)

  // ---------------------------------------------------------------------------
  // Text helpers: decimal formatting (std::to_string, fmt::format("{0}")),
  // lexicographic order (std::string operator<), and label suffixes.
  // ---------------------------------------------------------------------------

  predicate IsDigit(c: char) { '0' <= c <= '9' }

  function DigitChar(d: nat): (c: char)
    requires d < 10
    ensures IsDigit(c) && c as int - '0' as int == d
  {
    ['0', '1', '2', '3', '4', '5', '6', '7', '8', '9'][d]
  }

  /** Decimal spelling of a non-negative number, most significant digit first, no leading zeros. */
  function NatToString(n: nat): (s: string)
    ensures |s| >= 1
    ensures forall i :: 0 <= i < |s| ==> IsDigit(s[i])
    ensures n < 10 <==> |s| == 1
    decreases n
  {
    if n < 10 then [DigitChar(n)] else NatToString(n / 10) + [DigitChar(n % 10)]
  }

  /** Distinct numbers have distinct spellings, so "##<i>" suffixes and "Script(<k>)" names never clash. */
  lemma {:induction false} NatToStringInjective(a: nat, b: nat)
    requires NatToString(a) == NatToString(b)
    ensures a == b
    decreases a
  {
    var s := NatToString(a);
    if a >= 10 && b >= 10 {
      assert s[..|s| - 1] == NatToString(a / 10);
      assert s[..|s| - 1] == NatToString(b / 10);
      NatToStringInjective(a / 10, b / 10);
      assert s[|s| - 1] == DigitChar(a % 10) == DigitChar(b % 10);
    } else if a < 10 && b < 10 {
      assert s[0] == DigitChar(a) == DigitChar(b);
    }
  }

  /** The value of a string of decimal digits, the inverse of NatToString. */
  function ParseNat(s: string): nat
    requires forall i :: 0 <= i < |s| ==> IsDigit(s[i])
    decreases |s|
  {
    if s == [] then 0
    else
      assert IsDigit(s[|s| - 1]);
      10 * ParseNat(s[..|s| - 1]) + (s[|s| - 1] as int - '0' as int)
  }

  /** Reading back a number's decimal spelling gives the number. */
  lemma {:induction false} ParseNatToString(n: nat)
    ensures ParseNat(NatToString(n)) == n
    decreases n
  {
    var s := NatToString(n);
    if n >= 10 {
      assert s[..|s| - 1] == NatToString(n / 10);
      ParseNatToString(n / 10);
    }
  }

  /** Lexicographic order on strings, the order in which a std::map<std::string, _> is traversed. */
  predicate StringLess(a: string, b: string)
    decreases |a|
  {
    if a == [] then b != []
    else if b == [] then false
    else if a[0] != b[0] then a[0] < b[0]
    else StringLess(a[1..], b[1..])
  }

  lemma {:induction false} StringLessIrreflexive(a: string)
    ensures !StringLess(a, a)
    decreases |a|
  {
    if a != [] {
      StringLessIrreflexive(a[1..]);
    }
  }

  /**
   * The characters after the last `sep`: for an ImGui label the id after its "##",
   * for a registered component label the display name after its tab.
   */
  function AfterLast(s: string, sep: char): (r: string)
    ensures |r| <= |s| && r == s[|s| - |r|..]
    ensures forall i :: 0 <= i < |r| ==> r[i] != sep
    decreases |s|
  {
    if s == [] || s[|s| - 1] == sep then [] else AfterLast(s[..|s| - 1], sep) + [s[|s| - 1]]
  }

  lemma {:induction false} AfterLastOfSuffix(prefix: string, sep: char, tail: string)
    requires forall i :: 0 <= i < |tail| ==> tail[i] != sep
    ensures AfterLast(prefix + [sep] + tail, sep) == tail
    decreases |tail|
  {
    var s := prefix + [sep] + tail;
    if tail == [] {
      assert s[|s| - 1] == sep;
    } else {
      var t := tail[..|tail| - 1];
      assert s[..|s| - 1] == prefix + [sep] + t;
      AfterLastOfSuffix(prefix, sep, t);
    }
  }

  // ---------------------------------------------------------------------------
  // Enum <-> label tables (InspectorPanel.cpp:288-356, 1516-1575).
  // Each enum has one extra constructor for a value outside the listed
  // enumerators, which the C++ switch sends to its default / trailing return.
  // ---------------------------------------------------------------------------

  /** Index::CollisionShapeType. */
  datatype CollisionShapeType =
    | CollisionCuboid | CollisionSphere | CollisionPyramid | CollisionCapsule | CollisionHull
    | UnsupportedShape(code: int)

  const CollisionShapeLabels: set<string> := {"Cuboid", "Sphere", "Pyramid", "Capsule", "Hull"}

  function CollisionShapeTypeToString(t: CollisionShapeType): (s: string)
    ensures !t.UnsupportedShape? <==> s in CollisionShapeLabels
    ensures t.UnsupportedShape? ==> s == "Error"
  {
    match t
    case CollisionCuboid => "Cuboid"
    case CollisionSphere => "Sphere"
    case CollisionPyramid => "Pyramid"
    case CollisionCapsule => "Capsule"
    case CollisionHull => "Hull"
    case UnsupportedShape(_) => "Error"
  }

  function StringToCollisionShapeType(s: string): (t: CollisionShapeType)
    ensures !t.UnsupportedShape?
    ensures s !in CollisionShapeLabels ==> t == CollisionSphere
  {
    if s == "Sphere" then CollisionSphere
    else if s == "Cuboid" then CollisionCuboid
    else if s == "Pyramid" then CollisionPyramid
    else if s == "Capsule" then CollisionCapsule
    else if s == "Hull" then CollisionHull
    else CollisionSphere
  }

  /** Every listed shape survives type -> label -> type; an unsupported value comes back as a sphere. */
  lemma CollisionShapeRoundTrip(t: CollisionShapeType)
    ensures StringToCollisionShapeType(CollisionShapeTypeToString(t))
            == if t.UnsupportedShape? then CollisionSphere else t
  {
  }

  /** A label survives label -> type -> label exactly when it is one of the five listed labels. */
  lemma CollisionShapeLabelRoundTrip(s: string)
    ensures CollisionShapeTypeToString(StringToCollisionShapeType(s)) == s <==> s in CollisionShapeLabels
  {
  }

  /** Index::Shape, the 2D rigid-body shape. */
  datatype Shape2D = Circle | Square | Custom | UnlistedShape2D(code: int)

  const CollisionShape2DLabels: set<string> := {"Circle", "Square", "Custom"}

  function CollisionShape2DTypeToString(shape: Shape2D): (s: string)
    ensures !shape.UnlistedShape2D? <==> s in CollisionShape2DLabels
    ensures shape.UnlistedShape2D? ==> s == "Unknown Shape"
  {
    match shape
    case Circle => "Circle"
    case Square => "Square"
    case Custom => "Custom"
    case UnlistedShape2D(_) => "Unknown Shape"
  }

  function StringToCollisionShape2DType(s: string): (shape: Shape2D)
    ensures !shape.UnlistedShape2D?
    ensures s !in CollisionShape2DLabels ==> shape == Circle
  {
    if s == "Circle" then Circle
    else if s == "Square" then Square
    else if s == "Custom" then Custom
    else Circle
  }

  lemma CollisionShape2DRoundTrip(shape: Shape2D)
    ensures StringToCollisionShape2DType(CollisionShape2DTypeToString(shape))
            == if shape.UnlistedShape2D? then Circle else shape
  {
  }

  lemma CollisionShape2DLabelRoundTrip(s: string)
    ensures CollisionShape2DTypeToString(StringToCollisionShape2DType(s)) == s <==> s in CollisionShape2DLabels
  {
  }

  /** Index::Graphics::PrimitiveType. */
  datatype PrimitiveType =
    | Cube | Plane | Quad | Sphere | Pyramid | Capsule | Cylinder | File | NoPrimitive
    | UnlistedPrimitive(code: int)

  /** The primitives the name -> type parser knows. */
  predicate ParsablePrimitive(t: PrimitiveType) {
    t in {Cube, Quad, Sphere, Pyramid, Capsule, Cylinder}
  }

  const ParsablePrimitiveNames: set<string> := {"Cube", "Quad", "Sphere", "Pyramid", "Capsule", "Cylinder"}

  /** GetPrimativeName(PrimitiveType): the label shown for a primitive type. */
  function PrimitiveName(t: PrimitiveType): (s: string)
    ensures ParsablePrimitive(t) <==> s in ParsablePrimitiveNames
    ensures t.UnlistedPrimitive? <==> s == ""
  {
    match t
    case Cube => "Cube"
    case Plane => "Plane"
    case Quad => "Quad"
    case Sphere => "Sphere"
    case Pyramid => "Pyramid"
    case Capsule => "Capsule"
    case Cylinder => "Cylinder"
    case File => "Mesh File"
    case NoPrimitive => "None"
    case UnlistedPrimitive(_) => ""
  }

  /** GetPrimativeName(const std::string&): the primitive type for a label, Cube for anything unknown. */
  function PrimitiveFromName(s: string): (t: PrimitiveType)
    ensures ParsablePrimitive(t)
    ensures s !in ParsablePrimitiveNames ==> t == Cube
  {
    if s == "Cube" then Cube
    else if s == "Quad" then Quad
    else if s == "Sphere" then Sphere
    else if s == "Pyramid" then Pyramid
    else if s == "Capsule" then Capsule
    else if s == "Cylinder" then Cylinder
    else Cube
  }

  /** The pair is not a bijection: exactly the six parsable primitives survive the round trip. */
  lemma PrimitiveRoundTrip(t: PrimitiveType)
    ensures PrimitiveFromName(PrimitiveName(t)) == t <==> ParsablePrimitive(t)
    ensures !ParsablePrimitive(t) ==> PrimitiveFromName(PrimitiveName(t)) == Cube
  {
  }

  /** Plane, File and None all collapse onto Cube, so three distinct types share one parsed value. */
  lemma PrimitiveNameNotInvertible()
    ensures PrimitiveFromName(PrimitiveName(Plane)) == Cube
    ensures PrimitiveFromName(PrimitiveName(File)) == Cube
    ensures PrimitiveFromName(PrimitiveName(NoPrimitive)) == Cube
  {
  }

  // ---------------------------------------------------------------------------
  // Primitive dropdown of the model component editor (InspectorPanel.cpp:1817-1845).
  // ---------------------------------------------------------------------------

  /** The entries of the "Primitive Type" combo, in display order. */
  const PrimitiveDropdown: seq<string> :=
    ["Sphere", "Cube", "Pyramid", "Capsule", "Cylinder", "Mesh File", "Quad", "None"]

  /** What choosing a combo entry does to the model component. */
  datatype PrimitiveEdit =
    | ReplaceWithPrimitive(primitive: PrimitiveType)  // meshes cleared, one primitive mesh pushed, type set
    | LoadPrimitive(primitive: PrimitiveType)         // no model yet: the component loads a primitive
    | ClearAndMarkFile                                // meshes cleared, type set to File
    | NoEdit                                          // no model and the File branch: nothing happens

  /** The selection handler as written: the File branch is guarded by the label "File". */
  function OnPrimitiveSelected(entry: string, hasModel: bool): (e: PrimitiveEdit)
    ensures entry != "File" ==> (e.ReplaceWithPrimitive? || e.LoadPrimitive?) && e.primitive == PrimitiveFromName(entry)
    ensures entry != "File" ==> (hasModel <==> e.ReplaceWithPrimitive?)
    ensures entry == "File" ==> (hasModel <==> e.ClearAndMarkFile?)
  {
    if entry != "File" then
      if hasModel then ReplaceWithPrimitive(PrimitiveFromName(entry)) else LoadPrimitive(PrimitiveFromName(entry))
    else
      if hasModel then ClearAndMarkFile else NoEdit
  }

  /** No combo entry reaches the File branch; "Mesh File" and "None" load a cube instead. */
  lemma DropdownNeverMarksFile(n: nat, hasModel: bool)
    requires n < |PrimitiveDropdown|
    ensures !OnPrimitiveSelected(PrimitiveDropdown[n], hasModel).ClearAndMarkFile?
    ensures !OnPrimitiveSelected(PrimitiveDropdown[n], hasModel).NoEdit?
    ensures PrimitiveDropdown[n] in {"Mesh File", "None"} ==>
              OnPrimitiveSelected(PrimitiveDropdown[n], hasModel).primitive == Cube
  {
  }

  /** The handler as evidently intended: the File branch is guarded by File's own entry. */
  function OnPrimitiveSelectedFixed(entry: string, hasModel: bool): (e: PrimitiveEdit)
    ensures entry != "File" && entry != PrimitiveName(File) ==> e == OnPrimitiveSelected(entry, hasModel)
    ensures entry == PrimitiveName(File) ==> (hasModel <==> e.ClearAndMarkFile?)
  {
    if entry != PrimitiveName(File) then
      if hasModel then ReplaceWithPrimitive(PrimitiveFromName(entry)) else LoadPrimitive(PrimitiveFromName(entry))
    else
      if hasModel then ClearAndMarkFile else NoEdit
  }

  /**
   * With the corrected guard every entry except "None" leaves the model with the type
   * whose name is the entry that was chosen.
   */
  lemma {:induction false} DropdownFixedSelectsChosenType(n: nat)
    requires n < |PrimitiveDropdown| && PrimitiveDropdown[n] != "None"
    ensures var e := OnPrimitiveSelectedFixed(PrimitiveDropdown[n], true);
            (e.ClearAndMarkFile? && PrimitiveName(File) == PrimitiveDropdown[n])
            || (e.ReplaceWithPrimitive? && PrimitiveName(e.primitive) == PrimitiveDropdown[n])
  {
    var entry := PrimitiveDropdown[n];
    if entry != "Mesh File" {
      assert entry in ParsablePrimitiveNames;
    }
  }

  // ---------------------------------------------------------------------------
  // Animation states of an animated sprite (InspectorPanel.cpp:1178-1363).
  // The states live in a std::map<std::string, AnimationState>. While the map is
  // traversed, removals and renames are only recorded in two side lists; after the
  // traversal every removal is applied, then every rename by extract / rekey / insert.
  // ---------------------------------------------------------------------------

  datatype PlayMode = Loop | PingPong
  datatype Vec2 = Vec2(x: real, y: real)
  datatype AnimationState = AnimationState(frames: seq<Vec2>, frameDuration: real, mode: PlayMode)

  type StateMap = map<string, AnimationState>

  /** The key and the value the "+" button writes, overwriting any state already under that key. */
  const NewStateName: string := "--New--"
  const NewAnimationState: AnimationState := AnimationState([], 1.0, Loop)

  predicate Distinct<T(==)>(s: seq<T>) {
    forall i, j :: 0 <= i < j < |s| ==> s[i] != s[j]
  }

  /** `order` is the traversal order of `m`: its keys, each once, in increasing lexicographic order. */
  predicate IsIterationOrder(order: seq<string>, m: StateMap) {
    && (forall i, j :: 0 <= i < j < |order| ==> StringLess(order[i], order[j]))
    && m.Keys == set k | k in order
  }

  lemma IterationOrderDistinct(order: seq<string>, m: StateMap)
    requires IsIterationOrder(order, m)
    ensures Distinct(order)
  {
    forall i, j | 0 <= i < j < |order| ensures order[i] != order[j] {
      StringLessIrreflexive(order[i]);
    }
  }

  /** The removal loop: erase every listed name; erasing a name that is not there does nothing. */
  function DeleteAll(m: StateMap, names: seq<string>): (r: StateMap)
    ensures r.Keys == m.Keys - set n | n in names
    ensures forall k :: k in r ==> r[k] == m[k]
    decreases |names|
  {
    if names == [] then m
    else
      var init := names[..|names| - 1];
      assert (set n | n in names) == (set n | n in init) + {names[|names| - 1]};
      DeleteAll(m, init) - {names[|names| - 1]}
  }

  /**
   * One rename: extract the node under `from`, set its key to `to`, insert it back.
   * Extracting a missing key gives an empty handle whose key() may not be used (None).
   * When `to` is already taken the insert fails and the extracted state is dropped.
   */
  function RenameOne(m: StateMap, from: string, to: string): (r: Option<StateMap>)
    ensures r.Some? <==> from in m
    ensures r.Some? ==> r.value.Keys == (m.Keys - {from}) + {to}
    ensures r.Some? ==> r.value[to] == if to != from && to in m then m[to] else m[from]
    ensures r.Some? ==> forall k :: k in r.value && k != to ==> r.value[k] == m[k]
  {
    if from !in m then None
    else
      var rest := m - {from};
      if to in rest then Some(rest) else Some(rest[to := m[from]])
  }

  /** The rename loop, applied to the renames in list order. */
  function ApplyRenames(m: StateMap, renames: seq<(string, string)>): (r: Option<StateMap>)
    decreases |renames|
  {
    if renames == [] then Some(m)
    else
      match ApplyRenames(m, renames[..|renames| - 1])
      case None => None
      case Some(p) => RenameOne(p, renames[|renames| - 1].0, renames[|renames| - 1].1)
  }

  /** After the renames a name is present only if it was before or some rename wrote under it. */
  lemma {:induction false} ApplyRenamesKeys(m: StateMap, renames: seq<(string, string)>)
    ensures ApplyRenames(m, renames).Some? ==>
              ApplyRenames(m, renames).value.Keys <= m.Keys + set p | p in renames :: p.1
    decreases |renames|
  {
    if renames != [] {
      var init := renames[..|renames| - 1];
      ApplyRenamesKeys(m, init);
      assert (set p | p in init :: p.1) <= (set p | p in renames :: p.1) by {
        forall p | p in init ensures p in renames { }
      }
      assert renames[|renames| - 1].1 in (set p | p in renames :: p.1);
    }
  }

  /** The renames never add states: each takes one name away and writes at most one. */
  lemma {:induction false} ApplyRenamesNeverGrows(m: StateMap, renames: seq<(string, string)>)
    requires ApplyRenames(m, renames).Some?
    ensures |ApplyRenames(m, renames).value| <= |m|
    decreases |renames|
  {
    if renames != [] {
      var init := renames[..|renames| - 1];
      ApplyRenamesPrefixDefined(m, renames, |init|);
      assert renames[..|init|] == init;
      ApplyRenamesNeverGrows(m, init);
      var p := ApplyRenames(m, init).value;
      var (from, to) := renames[|renames| - 1];
      var r := RenameOne(p, from, to).value;
      assert |p - {from}| == |p| - 1;
      assert r.Keys <= (p - {from}).Keys + {to};
      SubsetCardinality(r.Keys, (p - {from}).Keys + {to});
    }
  }

  /** The whole apply phase: all removals first, then all renames. */
  function ApplyEdits(m: StateMap, toDelete: seq<string>, toRename: seq<(string, string)>): Option<StateMap> {
    ApplyRenames(DeleteAll(m, toDelete), toRename)
  }

  /** After the apply phase a name is present only if it survived the removals or some rename wrote under it. */
  lemma ApplyEditsKeys(m: StateMap, toDelete: seq<string>, toRename: seq<(string, string)>)
    requires ApplyEdits(m, toDelete, toRename).Some?
    ensures ApplyEdits(m, toDelete, toRename).value.Keys
            <= (m.Keys - set n | n in toDelete) + set p | p in toRename :: p.1
  {
    ApplyRenamesKeys(DeleteAll(m, toDelete), toRename);
  }

  /** The apply phase never adds states. */
  lemma ApplyEditsNeverGrows(m: StateMap, toDelete: seq<string>, toRename: seq<(string, string)>)
    requires ApplyEdits(m, toDelete, toRename).Some?
    ensures |ApplyEdits(m, toDelete, toRename).value| <= |m|
  {
    var d := DeleteAll(m, toDelete);
    ApplyRenamesNeverGrows(d, toRename);
    SubsetCardinality(d.Keys, m.Keys);
  }

  /** Once a rename hits a missing key, every longer list of renames does too. */
  lemma {:induction false} ApplyRenamesPrefixDefined(m: StateMap, renames: seq<(string, string)>, j: nat)
    requires j <= |renames|
    requires ApplyRenames(m, renames).Some?
    ensures ApplyRenames(m, renames[..j]).Some?
    decreases |renames|
  {
    if j < |renames| {
      var init := renames[..|renames| - 1];
      ApplyRenamesPrefixDefined(m, init, j);
      assert init[..j] == renames[..j];
    } else {
      assert renames[..j] == renames;
    }
  }

  /** A key that no rename names, neither as source nor as target, keeps its state through the renames. */
  lemma {:induction false} ApplyRenamesFrame(m: StateMap, renames: seq<(string, string)>, k: string)
    requires ApplyRenames(m, renames).Some?
    requires forall i :: 0 <= i < |renames| ==> k != renames[i].0 && k != renames[i].1
    ensures var r := ApplyRenames(m, renames).value;
            (k in r <==> k in m) && (k in m ==> r[k] == m[k])
    decreases |renames|
  {
    if renames != [] {
      var init := renames[..|renames| - 1];
      ApplyRenamesFrame(m, init, k);
    }
  }

  /** A key that is not the source of any rename is still present after the renames. */
  lemma {:induction false} ApplyRenamesKeepsUnrenamed(m: StateMap, renames: seq<(string, string)>, k: string)
    requires ApplyRenames(m, renames).Some?
    requires k in m
    requires forall i :: 0 <= i < |renames| ==> k != renames[i].0
    ensures k in ApplyRenames(m, renames).value
    decreases |renames|
  {
    if renames != [] {
      var init := renames[..|renames| - 1];
      ApplyRenamesKeepsUnrenamed(m, init, k);
    }
  }

  /** Renaming by a list and then by another is renaming by the two lists joined. */
  lemma {:induction false} ApplyRenamesAppend(m: StateMap, a: seq<(string, string)>, b: seq<(string, string)>)
    ensures ApplyRenames(m, a + b)
            == match ApplyRenames(m, a) case None => None case Some(p) => ApplyRenames(p, b)
    decreases |b|
  {
    if b == [] {
      assert a + b == a;
    } else {
      var init := b[..|b| - 1];
      assert (a + b)[..|a + b| - 1] == a + init;
      ApplyRenamesAppend(m, a, init);
      if ApplyRenames(m, a).Some? && ApplyRenames(ApplyRenames(m, a).value, init).None? {
        assert ApplyRenames(m, a + b) == None;
      }
    }
  }

  /**
   * Within any list of renames, a rename (old, new) onto a free name that no other rename
   * mentions removes old and stores old's state under new.
   */
  lemma ApplyRenamesMoves(m: StateMap, renames: seq<(string, string)>, i: nat)
    requires ApplyRenames(m, renames).Some?
    requires i < |renames| && renames[i].0 != renames[i].1 && renames[i].1 !in m
    requires forall j :: 0 <= j < |renames| && j != i ==>
               renames[j].0 != renames[i].0 && renames[j].1 != renames[i].0
               && renames[j].0 != renames[i].1 && renames[j].1 != renames[i].1
    ensures var (from, to) := renames[i];
            var r := ApplyRenames(m, renames).value;
            from in m && from !in r && to in r && r[to] == m[from]
  {
    var (from, to) := renames[i];
    ApplyRenamesSplitAt(m, renames, i);
    var p := ApplyRenames(m, renames[..i]).value;
    ApplyRenamesFrame(m, renames[..i], from);
    ApplyRenamesFrame(m, renames[..i], to);
    var q := RenameOne(p, from, to).value;
    ApplyRenamesFrame(q, renames[i + 1..], from);
    ApplyRenamesFrame(q, renames[i + 1..], to);
  }

  /** A defined list of renames splits at any rename into the renames before, that one, and those after. */
  lemma ApplyRenamesSplitAt(m: StateMap, renames: seq<(string, string)>, i: nat)
    requires ApplyRenames(m, renames).Some? && i < |renames|
    ensures ApplyRenames(m, renames[..i]).Some?
    ensures RenameOne(ApplyRenames(m, renames[..i]).value, renames[i].0, renames[i].1).Some?
    ensures ApplyRenames(m, renames)
            == ApplyRenames(RenameOne(ApplyRenames(m, renames[..i]).value, renames[i].0, renames[i].1).value, renames[i + 1..])
  {
    var before, after := renames[..i], renames[i + 1..];
    assert renames == before + [renames[i]] + after;
    ApplyRenamesAppend(m, before + [renames[i]], after);
    ApplyRenamesAppend(m, before, [renames[i]]);
    ApplyRenamesPrefixDefined(m, renames, i);
    assert [renames[i]][..0] == [];
  }

  /**
   * The same for the whole apply phase: a rename onto a name that is free after the
   * removals, mentioned by no other rename, moves the state and drops the old name.
   */
  lemma ApplyEditsMoves(m: StateMap, toDelete: seq<string>, toRename: seq<(string, string)>, i: nat)
    requires ApplyEdits(m, toDelete, toRename).Some?
    requires i < |toRename| && toRename[i].0 != toRename[i].1
    requires toRename[i].1 in m ==> toRename[i].1 in toDelete
    requires forall j :: 0 <= j < |toRename| && j != i ==>
               toRename[j].0 != toRename[i].0 && toRename[j].1 != toRename[i].0
               && toRename[j].0 != toRename[i].1 && toRename[j].1 != toRename[i].1
    ensures var (from, to) := toRename[i];
            var r := ApplyEdits(m, toDelete, toRename).value;
            from in m && from !in toDelete && from !in r && to in r && r[to] == m[from]
  {
    ApplyRenamesMoves(DeleteAll(m, toDelete), toRename, i);
  }

  /**
   * The renames are well defined whenever their sources are distinct keys of the map
   * that were not removed: an earlier rename only ever takes away its own source.
   */
  lemma {:induction false} ApplyEditsDefined(m: StateMap, toDelete: seq<string>, toRename: seq<(string, string)>)
    requires forall i, j :: 0 <= i < j < |toRename| ==> toRename[i].0 != toRename[j].0
    requires forall i :: 0 <= i < |toRename| ==> toRename[i].0 in m && toRename[i].0 !in toDelete
    ensures ApplyEdits(m, toDelete, toRename).Some?
    decreases |toRename|
  {
    if toRename != [] {
      var init := toRename[..|toRename| - 1];
      var last := toRename[|toRename| - 1];
      ApplyEditsDefined(m, toDelete, init);
      ApplyRenamesKeepsUnrenamed(DeleteAll(m, toDelete), init, last.0);
    }
  }

  /** After the apply phase a removed name is gone, unless some rename wrote a state under it. */
  lemma {:induction false} ApplyEditsRemoves(m: StateMap, toDelete: seq<string>, toRename: seq<(string, string)>, k: string)
    requires ApplyEdits(m, toDelete, toRename).Some?
    requires k in toDelete
    requires forall i :: 0 <= i < |toRename| ==> k != toRename[i].1
    ensures k !in ApplyEdits(m, toDelete, toRename).value
    decreases |toRename|
  {
    if toRename != [] {
      var init := toRename[..|toRename| - 1];
      ApplyRenamesPrefixDefined(DeleteAll(m, toDelete), toRename, |init|);
      assert toRename[..|init|] == init;
      ApplyEditsRemoves(m, toDelete, init, k);
    }
  }

  /** Every state that the apply phase names nowhere keeps its name and its value. */
  lemma ApplyEditsFrame(m: StateMap, toDelete: seq<string>, toRename: seq<(string, string)>, k: string)
    requires ApplyEdits(m, toDelete, toRename).Some?
    requires k !in toDelete
    requires forall i :: 0 <= i < |toRename| ==> k != toRename[i].0 && k != toRename[i].1
    ensures var r := ApplyEdits(m, toDelete, toRename).value;
            (k in r <==> k in m) && (k in m ==> r[k] == m[k])
  {
    ApplyRenamesFrame(DeleteAll(m, toDelete), toRename, k);
  }

  /** A single rename onto a free name moves the state; onto a taken name it loses the renamed state. */
  lemma SingleRename(m: StateMap, from: string, to: string)
    requires from in m && to != from
    ensures to !in m ==> ApplyEdits(m, [], [(from, to)]) == Some((m - {from})[to := m[from]])
    ensures to in m ==> ApplyEdits(m, [], [(from, to)]) == Some(m - {from})
  {
    var renames := [(from, to)];
    assert renames[..0] == [];
    assert DeleteAll(m, []) == m;
    assert ApplyRenames(m, renames[..0]) == Some(m);
  }

  /**
   * Renaming a removed state is not defined unless an earlier rename wrote a state back
   * under that name: the removals run first, so the rename extracts a missing key and
   * then uses the empty handle's key().
   */
  lemma DeleteThenRenameUndefined(m: StateMap, toDelete: seq<string>, toRename: seq<(string, string)>, i: nat)
    requires i < |toRename| && toRename[i].0 in toDelete
    requires forall j :: 0 <= j < i ==> toRename[j].1 != toRename[i].0
    ensures ApplyEdits(m, toDelete, toRename) == None
  {
    var d := DeleteAll(m, toDelete);
    var from := toRename[i].0;
    if ApplyEdits(m, toDelete, toRename).Some? {
      ApplyRenamesSplitAt(d, toRename, i);
      ApplyRenamesKeys(d, toRename[..i]);
      assert from !in set q | q in toRename[..i] :: q.1;
      assert false;
    }
  }

  /**
   * A removed name an earlier rename wrote back can be renamed again: with W renamed
   * to X, X removed and X renamed to Y, the state of W ends up under Y alone.
   */
  lemma RenameOfRecreatedName(w: AnimationState, x: AnimationState)
    ensures ApplyEdits(map["W" := w, "X" := x], ["X"], [("W", "X"), ("X", "Y")]) == Some(map["Y" := w])
  {
    var m := map["W" := w, "X" := x];
    var renames := [("W", "X"), ("X", "Y")];
    var d := DeleteAll(m, ["X"]);
    assert d == map["W" := w];
    assert renames[..1] == [("W", "X")] && renames[..1][..0] == [];
    assert ApplyRenames(d, renames[..1]) == Some(map["X" := w]);
    assert RenameOne(map["X" := w], "X", "Y") == Some(map["Y" := w]);
  }

  /** What the user did to one row of the "States" tree during a frame. */
  datatype StateRow = StateRow(removeClicked: bool, open: bool, editedName: Option<string>)

  /** The names recorded for removal: every row whose "Remove" button was pressed, in traversal order. */
  function DeletesOf(order: seq<string>, rows: seq<StateRow>): (r: seq<string>)
    requires |rows| == |order|
    ensures |r| <= |order|
    ensures forall d :: d in r ==> d in order
    decreases |order|
  {
    if order == [] then []
    else
      var n := |order| - 1;
      DeletesOf(order[..n], rows[..n]) + (if rows[n].removeClicked then [order[n]] else [])
  }

  /** The renames recorded: every open row whose name field was edited, in traversal order. */
  function RenamesOf(order: seq<string>, rows: seq<StateRow>): (r: seq<(string, string)>)
    requires |rows| == |order|
    ensures |r| <= |order|
    ensures forall p :: p in r ==> p.0 in order
    decreases |order|
  {
    if order == [] then []
    else
      var n := |order| - 1;
      RenamesOf(order[..n], rows[..n])
        + (if rows[n].open && rows[n].editedName.Some? then [(order[n], rows[n].editedName.value)] else [])
  }

  /** A name is recorded for removal exactly when its row's "Remove" button was pressed. */
  lemma {:induction false} DeletesOfMembers(order: seq<string>, rows: seq<StateRow>, k: string)
    requires |rows| == |order|
    ensures k in DeletesOf(order, rows) <==> exists i :: 0 <= i < |order| && order[i] == k && rows[i].removeClicked
    decreases |order|
  {
    if order != [] {
      var n := |order| - 1;
      DeletesOfMembers(order[..n], rows[..n], k);
      if k in DeletesOf(order, rows) && k !in DeletesOf(order[..n], rows[..n]) {
        assert order[n] == k && rows[n].removeClicked;
      }
      if exists i :: 0 <= i < |order| && order[i] == k && rows[i].removeClicked {
        var i :| 0 <= i < |order| && order[i] == k && rows[i].removeClicked;
        if i < n {
          assert order[..n][i] == k && rows[..n][i].removeClicked;
        }
      }
    }
  }

  /** Row i is the open row of state k whose name field was edited to v. */
  predicate RowRenames(order: seq<string>, rows: seq<StateRow>, i: nat, k: string, v: string)
    requires |rows| == |order| && i < |order|
  {
    order[i] == k && rows[i].open && rows[i].editedName == Some(v)
  }

  /** A rename (k, v) is recorded exactly when k's row was open and its name field was edited to v. */
  lemma {:induction false} RenamesOfMembers(order: seq<string>, rows: seq<StateRow>, k: string, v: string)
    requires |rows| == |order|
    ensures (k, v) in RenamesOf(order, rows) <==> exists i :: 0 <= i < |order| && RowRenames(order, rows, i, k, v)
    decreases |order|
  {
    if order != [] {
      var n := |order| - 1;
      var initOrder, initRows := order[..n], rows[..n];
      RenamesOfMembers(initOrder, initRows, k, v);
      var last := if rows[n].open && rows[n].editedName.Some? then [(order[n], rows[n].editedName.value)] else [];
      assert RenamesOf(order, rows) == RenamesOf(initOrder, initRows) + last;
      if (k, v) in RenamesOf(initOrder, initRows) {
        var i :| 0 <= i < n && RowRenames(initOrder, initRows, i, k, v);
        assert RowRenames(order, rows, i, k, v);
      } else if (k, v) in last {
        assert RowRenames(order, rows, n, k, v);
      }
      if exists i :: 0 <= i < |order| && RowRenames(order, rows, i, k, v) {
        var i :| 0 <= i < |order| && RowRenames(order, rows, i, k, v);
        if i < n {
          assert RowRenames(initOrder, initRows, i, k, v);
        } else {
          assert (k, v) in last;
        }
      }
    }
  }

  /**
   * When no row is both removed and renamed, the recorded renames have distinct sources,
   * each of them a traversed name that is not recorded for removal.
   */
  lemma {:induction false} RecordedEditsWellFormed(order: seq<string>, rows: seq<StateRow>)
    requires |rows| == |order| && Distinct(order)
    requires forall i :: 0 <= i < |rows| ==> !(rows[i].removeClicked && rows[i].open && rows[i].editedName.Some?)
    ensures forall d :: d in DeletesOf(order, rows) ==> d in order
    ensures forall p :: 0 <= p < |RenamesOf(order, rows)| ==>
              RenamesOf(order, rows)[p].0 in order && RenamesOf(order, rows)[p].0 !in DeletesOf(order, rows)
    ensures forall p, q :: 0 <= p < q < |RenamesOf(order, rows)| ==>
              RenamesOf(order, rows)[p].0 != RenamesOf(order, rows)[q].0
    decreases |order|
  {
    if order != [] {
      var n := |order| - 1;
      var initOrder, initRows := order[..n], rows[..n];
      assert Distinct(initOrder);
      RecordedEditsWellFormed(initOrder, initRows);
      var ds, rs := DeletesOf(order, rows), RenamesOf(order, rows);
      var initDs, initRs := DeletesOf(initOrder, initRows), RenamesOf(initOrder, initRows);
      assert ds == initDs + (if rows[n].removeClicked then [order[n]] else []);
      assert rs == initRs + (if rows[n].open && rows[n].editedName.Some? then [(order[n], rows[n].editedName.value)] else []);
      assert forall k :: k in initOrder ==> k != order[n] && k in order;
      forall d | d in ds ensures d in order {
        if d !in initDs {
          assert d == order[n];
        }
      }
      forall p | 0 <= p < |rs| ensures rs[p].0 in order && rs[p].0 !in ds {
        if p < |initRs| {
          assert rs[p] == initRs[p];
          assert rs[p].0 in initOrder && rs[p].0 !in initDs;
        } else {
          assert rs[p].0 == order[n] && !rows[n].removeClicked;
          assert ds == initDs;
        }
      }
      forall p, q | 0 <= p < q < |rs| ensures rs[p].0 != rs[q].0 {
        assert rs[p] == initRs[p];
        if q < |initRs| {
          assert rs[q] == initRs[q];
        } else {
          assert rs[p].0 in initOrder;
          assert rs[q].0 == order[n];
        }
      }
    }
  }

  /**
   * The traversal loop (InspectorPanel.cpp:1205-1350), as far as the map's keys go: it
   * fills the two side lists. The in-place edits of each open state's duration, play mode
   * and frames are not part of this model.
   */
  method CollectStateEdits(order: seq<string>, rows: seq<StateRow>)
    returns (toDelete: seq<string>, toRename: seq<(string, string)>)
    requires |rows| == |order|
    ensures toDelete == DeletesOf(order, rows)
    ensures toRename == RenamesOf(order, rows)
  {
    toDelete, toRename := [], [];
    for i := 0 to |order|
      invariant toDelete == DeletesOf(order[..i], rows[..i])
      invariant toRename == RenamesOf(order[..i], rows[..i])
    {
      assert order[..i + 1][..i] == order[..i] && rows[..i + 1][..i] == rows[..i];
      if rows[i].removeClicked {
        toDelete := toDelete + [order[i]];
      }
      if rows[i].open && rows[i].editedName.Some? {
        toRename := toRename + [(order[i], rows[i].editedName.value)];
      }
    }
    assert order[..|order|] == order && rows[..|rows|] == rows;
  }

  /**
   * The lists one traversal records can always be applied, provided no row was both
   * removed and renamed in that frame.
   */
  lemma CollectedEditsApplicable(m: StateMap, order: seq<string>, rows: seq<StateRow>)
    requires IsIterationOrder(order, m) && |rows| == |order|
    requires forall i :: 0 <= i < |rows| ==> !(rows[i].removeClicked && rows[i].open && rows[i].editedName.Some?)
    ensures ApplyEdits(m, DeletesOf(order, rows), RenamesOf(order, rows)).Some?
  {
    IterationOrderDistinct(order, m);
    RecordedEditsWellFormed(order, rows);
    var ds, rs := DeletesOf(order, rows), RenamesOf(order, rows);
    forall p | 0 <= p < |rs| ensures rs[p].0 in m && rs[p].0 !in ds {
      assert rs[p].0 in order;
    }
    ApplyEditsDefined(m, ds, rs);
  }

  /** The animation states of one AnimatedSprite, edited in place. */
  class AnimatedSprite {
    var states: StateMap

    constructor (initial: StateMap)
      ensures states == initial
    {
      states := initial;
    }

    /** The "+" button: animStates["--New--"] = a fresh looping state. */
    method AddState()
      modifies this
      ensures states == old(states)[NewStateName := NewAnimationState]
      ensures NewStateName in states && states[NewStateName].frames == []
    {
      states := states[NewStateName := NewAnimationState];
    }

    /** The apply phase after the traversal: all removals, then all renames. */
    method ApplyStateEdits(toDelete: seq<string>, toRename: seq<(string, string)>)
      requires ApplyEdits(states, toDelete, toRename).Some?
      modifies this
      ensures Some(states) == ApplyEdits(old(states), toDelete, toRename)
    {
      for i := 0 to |toDelete|
        invariant states == DeleteAll(old(states), toDelete[..i])
      {
        assert toDelete[..i + 1][..i] == toDelete[..i];
        states := states - {toDelete[i]};
      }
      assert toDelete[..|toDelete|] == toDelete;
      ghost var afterDeletes := states;
      for i := 0 to |toRename|
        invariant ApplyRenames(afterDeletes, toRename[..i]) == Some(states)
      {
        var (from, to) := toRename[i];
        ApplyRenamesPrefixDefined(afterDeletes, toRename, i + 1);
        assert toRename[..i + 1][..i] == toRename[..i];
        var node := states[from];      // extract
        states := states - {from};
        if to !in states {             // insert fails when the key is taken
          states := states[to := node];
        }
      }
      assert toRename[..|toRename|] == toRename;
    }

    /**
     * One frame of the "States" tree: the optional "+" press, the traversal that records
     * removals and renames, and the apply phase.
     */
    method EditStates(addClicked: bool, order: seq<string>, rows: seq<StateRow>)
      requires IsIterationOrder(order, if addClicked then states[NewStateName := NewAnimationState] else states)
      requires |rows| == |order|
      requires ApplyEdits(if addClicked then states[NewStateName := NewAnimationState] else states,
                          DeletesOf(order, rows), RenamesOf(order, rows)).Some?
      modifies this
      ensures var shown := if addClicked then old(states)[NewStateName := NewAnimationState] else old(states);
              Some(states) == ApplyEdits(shown, DeletesOf(order, rows), RenamesOf(order, rows))
    {
      if addClicked {
        AddState();
      }
      var toDelete, toRename := CollectStateEdits(order, rows);
      ApplyStateEdits(toDelete, toRename);
    }
  }

  // ---------------------------------------------------------------------------
  // "New File" of the script component editor (InspectorPanel.cpp:74-104).
  // FileSystem::FileExists is the membership test of a finite set of taken paths.
  // ---------------------------------------------------------------------------

  /** The virtual directory new scripts go to. */
  const ScriptsDirectory: string := "//Scripts"

  /** The k-th name the search tries: "Script", then "Script(1)", "Script(2)", ... */
  function ScriptCandidate(k: nat): (name: string)
    ensures k == 0 <==> name == "Script"
  {
    if k == 0 then "Script" else "Script(" + NatToString(k) + ")"
  }

  /** The file a script name stands for inside a directory. */
  function ScriptFile(dir: string, name: string): string {
    dir + "/" + name + ".lua"
  }

  lemma ScriptCandidateInjective(j: nat, k: nat)
    requires ScriptCandidate(j) == ScriptCandidate(k)
    ensures j == k
  {
    if j != 0 && k != 0 {
      var c := ScriptCandidate(j);
      assert c[7..|c| - 1] == NatToString(j);
      assert c[7..|c| - 1] == NatToString(k);
      NatToStringInjective(j, k);
    }
  }

  lemma ScriptFileInjective(dir: string, a: string, b: string)
    requires ScriptFile(dir, a) == ScriptFile(dir, b)
    ensures a == b
  {
    var f := ScriptFile(dir, a);
    assert f[|dir| + 1..|f| - 4] == a;
    assert f[|dir| + 1..|f| - 4] == b;
  }

  /** The files of the first k + 1 candidates. */
  ghost function CandidateFiles(dir: string, k: nat): set<string>
    decreases k
  {
    (if k == 0 then {} else CandidateFiles(dir, k - 1)) + {ScriptFile(dir, ScriptCandidate(k))}
  }

  /** Every file in CandidateFiles(dir, k) is the file of some candidate j <= k. */
  lemma {:induction false} CandidateFileIndex(dir: string, k: nat, f: string) returns (j: nat)
    requires f in CandidateFiles(dir, k)
    ensures j <= k && ScriptFile(dir, ScriptCandidate(j)) == f
    decreases k
  {
    if f == ScriptFile(dir, ScriptCandidate(k)) {
      j := k;
    } else {
      j := CandidateFileIndex(dir, k - 1, f);
    }
  }

  /** If the first k + 1 candidates are all taken, their files lie inside the taken set. */
  lemma {:induction false} CandidateFilesWithin(dir: string, k: nat, existing: set<string>)
    requires forall j: nat :: j <= k ==> ScriptFile(dir, ScriptCandidate(j)) in existing
    ensures CandidateFiles(dir, k) <= existing
    decreases k
  {
    if k > 0 {
      CandidateFilesWithin(dir, k - 1, existing);
    }
  }

  /** The first k + 1 candidates name k + 1 different files. */
  lemma {:induction false} CandidateFilesCount(dir: string, k: nat)
    ensures |CandidateFiles(dir, k)| == k + 1
    decreases k
  {
    if k > 0 {
      var f := ScriptFile(dir, ScriptCandidate(k));
      if f in CandidateFiles(dir, k - 1) {
        var j := CandidateFileIndex(dir, k - 1, f);
        ScriptFileInjective(dir, ScriptCandidate(j), ScriptCandidate(k));
        ScriptCandidateInjective(j, k);
        assert false;
      }
      CandidateFilesCount(dir, k - 1);
    }
  }

  /**
   * The naming loop: the first candidate whose file is not taken. It stops for every
   * finite set of taken files, at the latest after as many steps as there are taken files.
   */
  method FreshScriptName(physicalPath: string, existing: set<string>) returns (name: string, fileIndex: nat)
    ensures name == ScriptCandidate(fileIndex)
    ensures ScriptFile(physicalPath, name) !in existing
    ensures forall j: nat :: j < fileIndex ==> ScriptFile(physicalPath, ScriptCandidate(j)) in existing
    ensures fileIndex <= |existing|
  {
    name := "Script";
    fileIndex := 0;
    while ScriptFile(physicalPath, name) in existing
      invariant name == ScriptCandidate(fileIndex)
      invariant forall j: nat :: j < fileIndex ==> ScriptFile(physicalPath, ScriptCandidate(j)) in existing
      invariant fileIndex <= |existing|
      decreases |existing| - fileIndex
    {
      CandidateFilesCount(physicalPath, fileIndex);
      CandidateFilesWithin(physicalPath, fileIndex, existing);
      assert fileIndex + 1 <= |existing| by {
        SubsetCardinality(CandidateFiles(physicalPath, fileIndex), existing);
      }
      fileIndex := fileIndex + 1;
      name := "Script(" + NatToString(fileIndex) + ")";
    }
  }

  lemma SubsetCardinality<T>(a: set<T>, b: set<T>)
    requires a <= b
    ensures |a| <= |b|
  {
    assert b == a + (b - a);
  }

  /** The file the button writes and the script path it then assigns to the component. */
  datatype NewScript = NewScript(physicalFile: string, scriptPath: string)

  /**
   * The button as a whole. When "//Scripts" does not resolve to a physical directory an
   * error is logged and nothing is written; otherwise the first free candidate is used
   * both for the written file and for the component's new path.
   */
  method NewScriptFile(resolved: Option<string>, existing: set<string>) returns (r: Option<NewScript>)
    ensures r.None? <==> resolved.None?
    ensures r.Some? ==> r.value.physicalFile !in existing
    ensures r.Some? ==> exists k: nat ::
              && r.value.physicalFile == ScriptFile(resolved.value, ScriptCandidate(k))
              && r.value.scriptPath == ScriptFile(ScriptsDirectory, ScriptCandidate(k))
              && (forall j: nat :: j < k ==> ScriptFile(resolved.value, ScriptCandidate(j)) in existing)
  {
    if resolved.None? {
      r := None;
    } else {
      var name, k := FreshScriptName(resolved.value, existing);
      r := Some(NewScript(ScriptFile(resolved.value, name), ScriptFile(ScriptsDirectory, name)));
    }
  }

  // ---------------------------------------------------------------------------
  // The "Materials" tree of the model component editor (InspectorPanel.cpp:1914-1940).
  // Meshes may share a material; each material pointer, null included, is shown once.
  // ---------------------------------------------------------------------------

  /** A mesh's material pointer; materials are compared by address. */
  datatype MaterialPtr = NullMaterial | MaterialAt(address: nat)

  /** The size of the stack buffer MaterialShown. */
  const MaxMaterialsShown: nat := 1000

  /** The distinct elements of a sequence, each at the place it first occurs. */
  function FirstOccurrences(ms: seq<MaterialPtr>): (r: seq<MaterialPtr>)
    ensures forall m :: m in r <==> m in ms
    ensures |r| <= |ms|
    decreases |ms|
  {
    if ms == [] then []
    else
      var d := FirstOccurrences(ms[..|ms| - 1]);
      if ms[|ms| - 1] in d then d else d + [ms[|ms| - 1]]
  }

  /** No material is shown twice. */
  lemma {:induction false} FirstOccurrencesDistinct(ms: seq<MaterialPtr>)
    ensures Distinct(FirstOccurrences(ms))
    decreases |ms|
  {
    if ms != [] {
      var init := ms[..|ms| - 1];
      FirstOccurrencesDistinct(init);
    }
  }

  /** The index at which an element first occurs. */
  function FirstIndex(ms: seq<MaterialPtr>, m: MaterialPtr): (i: nat)
    requires m in ms
    ensures i < |ms| && ms[i] == m
    ensures forall j :: 0 <= j < i ==> ms[j] != m
  {
    if ms[0] == m then 0 else 1 + FirstIndex(ms[1..], m)
  }

  /** The de-duplicated sequence lists the materials in the order of their first occurrence. */
  lemma {:induction false} FirstOccurrencesInOrder(ms: seq<MaterialPtr>)
    ensures forall p, q :: 0 <= p < q < |FirstOccurrences(ms)| ==>
              FirstIndex(ms, FirstOccurrences(ms)[p]) < FirstIndex(ms, FirstOccurrences(ms)[q])
    decreases |ms|
  {
    if ms != [] {
      var n := |ms| - 1;
      var init := ms[..n];
      FirstOccurrencesInOrder(init);
      var r, d := FirstOccurrences(ms), FirstOccurrences(init);
      forall x | x in init ensures FirstIndex(init, x) == FirstIndex(ms, x) {
        var i := FirstIndex(init, x);
        assert ms[i] == x;
      }
      forall p, q | 0 <= p < q < |r| ensures FirstIndex(ms, r[p]) < FirstIndex(ms, r[q]) {
        assert r[p] == d[p] && r[p] in init;
        if q < |d| {
          assert r[q] == d[q];
        } else {
          assert r[q] == ms[n] && ms[n] !in init;
          assert FirstIndex(ms, r[q]) == n;
        }
      }
    }
  }

  /** De-duplicating a prefix gives a prefix of the de-duplicated whole. */
  lemma {:induction false} FirstOccurrencesOfPrefix(ms: seq<MaterialPtr>, k: nat)
    requires k <= |ms|
    ensures |FirstOccurrences(ms[..k])| <= |FirstOccurrences(ms)|
    ensures FirstOccurrences(ms[..k]) == FirstOccurrences(ms)[..|FirstOccurrences(ms[..k])|]
    decreases |ms|
  {
    if k < |ms| {
      var init := ms[..|ms| - 1];
      assert init[..k] == ms[..k];
      FirstOccurrencesOfPrefix(init, k);
    } else {
      assert ms[..k] == ms;
    }
  }

  /** material ? material->GetName() : "" -- a material's name is a function of its address. */
  function MaterialName(m: MaterialPtr, names: nat -> string): (name: string)
    ensures m.NullMaterial? ==> name == ""
    ensures m.MaterialAt? ==> name == names(m.address)
  {
    if m.MaterialAt? then names(m.address) else ""
  }

  /** The tree-node label of the i-th material shown: its name (or "Material<i>") and the id suffix "##<i>". */
  function MaterialLabel(name: string, i: nat): (s: string)
    ensures name != "" ==> |s| > |name| && s[..|name|] == name
    ensures name == "" ==> |s| > 8 && s[..8] == "Material"
    ensures |s| >= |NatToString(i)| + 2 && s[|s| - |NatToString(i)| - 2..] == "##" + NatToString(i)
  {
    var base := if name == "" then "Material" + NatToString(i) else name;
    assert (base + "##" + NatToString(i))[..|base|] == base;
    base + "##" + NatToString(i)
  }

  /** The part of a material label after its last '#' is the material's index. */
  lemma MaterialLabelId(name: string, i: nat)
    ensures AfterLast(MaterialLabel(name, i), '#') == NatToString(i)
  {
    var base := if name == "" then "Material" + NatToString(i) else name;
    assert MaterialLabel(name, i) == (base + "#") + ['#'] + NatToString(i);
    AfterLastOfSuffix(base + "#", '#', NatToString(i));
  }

  /** Labels of different materials never clash, whatever the materials are called. */
  lemma MaterialLabelsDistinct(a: string, i: nat, b: string, j: nat)
    requires MaterialLabel(a, i) == MaterialLabel(b, j)
    ensures i == j
  {
    MaterialLabelId(a, i);
    MaterialLabelId(b, j);
    NatToStringInjective(i, j);
  }

  /** The labels of the materials shown, in order: the i-th is built from index i. */
  function MaterialLabels(shown: seq<MaterialPtr>, names: nat -> string): (r: seq<string>)
    ensures |r| == |shown|
    decreases |shown|
  {
    if shown == [] then []
    else MaterialLabels(shown[..|shown| - 1], names) + [MaterialLabel(MaterialName(shown[|shown| - 1], names), |shown| - 1)]
  }

  /** Showing one more material appends its label, built from the next index. */
  lemma MaterialLabelsSnoc(shown: seq<MaterialPtr>, m: MaterialPtr, names: nat -> string)
    ensures MaterialLabels(shown + [m], names) == MaterialLabels(shown, names) + [MaterialLabel(MaterialName(m, names), |shown|)]
  {
    assert (shown + [m])[..|shown|] == shown;
  }

  /** Label i names the i-th material shown and carries the id suffix "##<i>". */
  lemma {:induction false} MaterialLabelsAt(shown: seq<MaterialPtr>, names: nat -> string, i: nat)
    requires i < |shown|
    ensures MaterialLabels(shown, names)[i] == MaterialLabel(MaterialName(shown[i], names), i)
    decreases |shown|
  {
    if i < |shown| - 1 {
      MaterialLabelsAt(shown[..|shown| - 1], names, i);
    }
  }

  /** One more mesh either repeats a material already seen or appends a new one. */
  lemma FirstOccurrencesStep(ms: seq<MaterialPtr>, k: nat)
    requires k < |ms|
    ensures ms[k] in FirstOccurrences(ms[..k]) ==> FirstOccurrences(ms[..k + 1]) == FirstOccurrences(ms[..k])
    ensures ms[k] !in FirstOccurrences(ms[..k]) ==> FirstOccurrences(ms[..k + 1]) == FirstOccurrences(ms[..k]) + [ms[k]]
  {
    assert ms[..k + 1][..k] == ms[..k];
  }

  /** The inner loop over MaterialShown[0 .. count): it runs to the end and reports a match. */
  method AlreadyShown(materialShown: array<MaterialPtr>, count: nat, material: MaterialPtr) returns (found: bool)
    requires count <= materialShown.Length
    ensures found <==> material in materialShown[..count]
  {
    found := false;
    for i := 0 to count
      invariant found <==> material in materialShown[..i]
    {
      assert materialShown[..i + 1] == materialShown[..i] + [materialShown[i]];
      if materialShown[i] == material {
        found := true;
      }
    }
  }

  /** The two in-place edits of matName: a default for an empty name, then the "##<i>" suffix. */
  method AppendMaterialId(name: string, matIndex: nat) returns (matName: string)
    ensures matName == MaterialLabel(name, matIndex)
  {
    matName := name;
    if matName == "" {
      matName := "Material" + NatToString(matIndex);
    }
    matName := matName + "##" + NatToString(matIndex);
  }

  /**
   * The branch for a pointer not yet shown: MaterialShown[MaterialCount++] = material, and
   * the material's label is built from matIndex, which equals MaterialCount.
   */
  method RecordMaterial(materialShown: array<MaterialPtr>, names: nat -> string, material: MaterialPtr,
                        shown: seq<MaterialPtr>, labels: seq<string>)
    returns (shown': seq<MaterialPtr>, labels': seq<string>)
    requires |shown| < materialShown.Length
    requires materialShown[..|shown|] == shown
    requires labels == MaterialLabels(shown, names)
    modifies materialShown
    ensures shown' == shown + [material] == materialShown[..|shown'|]
    ensures labels' == MaterialLabels(shown', names)
  {
    var count := |shown|;
    materialShown[count] := material;
    assert materialShown[..count + 1] == materialShown[..count] + [material];
    var matName := AppendMaterialId(MaterialName(material, names), count);
    MaterialLabelsSnoc(shown, material, names);
    shown', labels' := shown + [material], labels + [matName];
  }

  /**
   * One iteration of the loop over the meshes: a pointer already in MaterialShown is
   * skipped; otherwise it is recorded, its label is built from matIndex, and matIndex
   * and MaterialCount advance.
   */
  method ShowMesh(materialShown: array<MaterialPtr>, meshes: seq<MaterialPtr>, names: nat -> string, k: nat,
                  materialCount: nat, shown: seq<MaterialPtr>, labels: seq<string>)
    returns (count': nat, shown': seq<MaterialPtr>, labels': seq<string>)
    requires k < |meshes| && |FirstOccurrences(meshes)| <= materialShown.Length
    requires materialCount == |labels| == |shown| <= materialShown.Length
    requires materialShown[..materialCount] == shown == FirstOccurrences(meshes[..k])
    requires labels == MaterialLabels(shown, names)
    modifies materialShown
    ensures count' == |labels'| == |shown'| <= materialShown.Length
    ensures materialShown[..count'] == shown' == FirstOccurrences(meshes[..k + 1])
    ensures labels' == MaterialLabels(shown', names)
  {
    FirstOccurrencesStep(meshes, k);
    var material := meshes[k];
    var materialFound := AlreadyShown(materialShown, materialCount, material);
    if materialFound {
      return materialCount, shown, labels;
    }
    FirstOccurrencesOfPrefix(meshes, k + 1);
    shown', labels' := RecordMaterial(materialShown, names, material, shown, labels);
    count' := materialCount + 1;
  }

  /**
   * The loop over the meshes. Each distinct pointer is shown once, in the order of its
   * first occurrence. Only the label of a non-null material is displayed; a null one
   * shows "Empty Material".
   */
  method ShowMaterials(meshes: seq<MaterialPtr>, names: nat -> string)
    returns (shown: seq<MaterialPtr>, labels: seq<string>, matIndex: nat)
    requires |FirstOccurrences(meshes)| <= MaxMaterialsShown
    ensures shown == FirstOccurrences(meshes)
    ensures matIndex == |shown| == |labels|
    ensures forall i :: 0 <= i < |labels| ==> labels[i] == MaterialLabel(MaterialName(shown[i], names), i)
  {
    var materialShown := new MaterialPtr[MaxMaterialsShown];
    var materialCount: nat := 0;
    labels := [];
    shown := [];
    for k := 0 to |meshes|
      invariant materialCount == |labels| == |shown| <= MaxMaterialsShown
      invariant materialShown[..materialCount] == shown == FirstOccurrences(meshes[..k])
      invariant labels == MaterialLabels(shown, names)
    {
      materialCount, shown, labels := ShowMesh(materialShown, meshes, names, k, materialCount, shown, labels);
    }
    matIndex := materialCount;
    assert meshes[..|meshes|] == meshes;
    forall i | 0 <= i < |labels| ensures labels[i] == MaterialLabel(MaterialName(shown[i], names), i) {
      MaterialLabelsAt(shown, names, i);
    }
  }

  // ---------------------------------------------------------------------------
  // The panel itself (InspectorPanel.cpp:2267-2461): one-shot registration of the
  // component editors, the selection gate, the active checkbox, the name field and
  // the debug-mode toggle.
  // ---------------------------------------------------------------------------

  /** The component types that get an editor, in the order they are registered. */
  datatype ComponentKind =
    | Transform | ModelComponent | Camera | AxisConstraintComponent | RigidBody3DComponent
    | RigidBody2DComponent | SoundComponent | AnimatedSpriteComponent | SpriteComponent | LightComponent
    | LuaScriptComponent | EnvironmentComponent | TextureMatrixComponent | DefaultCameraController
    | TextComponent

  /** The keys of the editor's icon map: a component type, or the Editor type whose icon is the fallback. */
  datatype TypeKey = ComponentType(kind: ComponentKind) | EditorType

  const RegistrationOrder: seq<ComponentKind> := [
    Transform, ModelComponent, Camera, AxisConstraintComponent, RigidBody3DComponent,
    RigidBody2DComponent, SoundComponent, AnimatedSpriteComponent, SpriteComponent, LightComponent,
    LuaScriptComponent, EnvironmentComponent, TextureMatrixComponent, DefaultCameraController,
    TextComponent]

  /** The display name passed to TRIVIAL_COMPONENT. */
  function DisplayName(k: ComponentKind): (name: string)
    ensures forall i :: 0 <= i < |name| ==> name[i] != '\t'
  {
    match k
    case Transform => "Transform"
    case ModelComponent => "Mesh Renderer"
    case Camera => "Camera"
    case AxisConstraintComponent => "Axis Constraint"
    case RigidBody3DComponent => "Rigidbody"
    case RigidBody2DComponent => "Rigidbody 2D"
    case SoundComponent => "Audio Source"
    case AnimatedSpriteComponent => "Animated Sprite"
    case SpriteComponent => "Sprite Mask"
    case LightComponent => "Light"
    case LuaScriptComponent => "Script"
    case EnvironmentComponent => "Environment"
    case TextureMatrixComponent => "Texture Matrix"
    case DefaultCameraController => "Camera Controller"
    case TextComponent => "Text"
  }

  /** The position of a component type in the registration order; every type has one. */
  function RegistrationIndex(k: ComponentKind): (i: nat)
    ensures i < |RegistrationOrder| && RegistrationOrder[i] == k
  {
    match k
    case Transform => 0
    case ModelComponent => 1
    case Camera => 2
    case AxisConstraintComponent => 3
    case RigidBody3DComponent => 4
    case RigidBody2DComponent => 5
    case SoundComponent => 6
    case AnimatedSpriteComponent => 7
    case SpriteComponent => 8
    case LightComponent => 9
    case LuaScriptComponent => 10
    case EnvironmentComponent => 11
    case TextureMatrixComponent => 12
    case DefaultCameraController => 13
    case TextComponent => 14
  }

  /** No component type is registered twice, and no two share a display name. */
  lemma RegistrationOrderDistinct()
    ensures Distinct(RegistrationOrder)
    ensures forall k1: ComponentKind, k2: ComponentKind :: DisplayName(k1) == DisplayName(k2) ==> k1 == k2
  {
  }

  /**
   * The icon map can supply an icon for every type: either the Editor fallback is present,
   * or every component type has its own. (Reading the missing fallback through operator[]
   * would append a null pointer to a std::string.)
   */
  predicate IconsResolvable(iconMap: map<TypeKey, string>) {
    EditorType in iconMap || forall k: ComponentKind :: ComponentType(k) in iconMap
  }

  /** The icon a type is labelled with: its own if the map has one, the Editor icon otherwise. */
  function Icon(k: ComponentKind, iconMap: map<TypeKey, string>): (icon: string)
    requires IconsResolvable(iconMap)
    ensures icon in iconMap.Values
    ensures ComponentType(k) in iconMap ==> icon == iconMap[ComponentType(k)]
  {
    if ComponentType(k) in iconMap then iconMap[ComponentType(k)] else iconMap[EditorType]
  }

  /** The label TRIVIAL_COMPONENT builds: the icon, a tab, the display name. */
  function ComponentLabel(k: ComponentKind, iconMap: map<TypeKey, string>): string
    requires IconsResolvable(iconMap)
  {
    Icon(k, iconMap) + "\t" + DisplayName(k)
  }

  /** A type with its own icon is labelled the same whatever the Editor fallback icon is. */
  lemma ComponentLabelOwnIcon(k: ComponentKind, iconMap: map<TypeKey, string>, fallback: string)
    requires IconsResolvable(iconMap) && ComponentType(k) in iconMap
    ensures ComponentLabel(k, iconMap) == ComponentLabel(k, iconMap[EditorType := fallback])
  {
  }

  /** All types without an icon of their own share the Editor icon. */
  lemma IconFallbackShared(k1: ComponentKind, k2: ComponentKind, iconMap: map<TypeKey, string>)
    requires EditorType in iconMap
    requires ComponentType(k1) !in iconMap && ComponentType(k2) !in iconMap
    ensures Icon(k1, iconMap) == Icon(k2, iconMap) == iconMap[EditorType]
  {
  }

  /** The display name is what follows the label's last tab, whatever the icon holds. */
  lemma ComponentLabelNamesType(k: ComponentKind, iconMap: map<TypeKey, string>)
    requires IconsResolvable(iconMap)
    ensures AfterLast(ComponentLabel(k, iconMap), '\t') == DisplayName(k)
  {
    assert ComponentLabel(k, iconMap) == Icon(k, iconMap) + ['\t'] + DisplayName(k);
    AfterLastOfSuffix(Icon(k, iconMap), '\t', DisplayName(k));
  }

  /** Different component types always get different labels. */
  lemma ComponentLabelsDistinct(k1: ComponentKind, k2: ComponentKind, iconMap: map<TypeKey, string>)
    requires IconsResolvable(iconMap)
    requires ComponentLabel(k1, iconMap) == ComponentLabel(k2, iconMap)
    ensures k1 == k2
  {
    ComponentLabelNamesType(k1, iconMap);
    ComponentLabelNamesType(k2, iconMap);
    RegistrationOrderDistinct();
  }

  /** One call of m_EnttEditor.registerComponent<T>(label). */
  datatype RegisteredEditor = RegisteredEditor(kind: ComponentKind, caption: string)

  /** The fifteen registrations OnNewScene performs, in source order. */
  function TrivialComponents(iconMap: map<TypeKey, string>): (r: seq<RegisteredEditor>)
    requires IconsResolvable(iconMap)
    ensures |r| == |RegistrationOrder|
    ensures forall i :: 0 <= i < |r| ==> r[i].kind == RegistrationOrder[i]
    ensures forall i :: 0 <= i < |r| ==> r[i].caption == ComponentLabel(r[i].kind, iconMap)
  {
    seq(|RegistrationOrder|, i requires 0 <= i < |RegistrationOrder| =>
      RegisteredEditor(RegistrationOrder[i], ComponentLabel(RegistrationOrder[i], iconMap)))
  }

  /** The registrations name each component type once, under pairwise different labels. */
  lemma TrivialComponentsOnePerType(iconMap: map<TypeKey, string>)
    requires IconsResolvable(iconMap)
    ensures forall k: ComponentKind :: TrivialComponents(iconMap)[RegistrationIndex(k)].kind == k
    ensures forall i, j :: 0 <= i < j < |TrivialComponents(iconMap)| ==>
              TrivialComponents(iconMap)[i].kind != TrivialComponents(iconMap)[j].kind
              && TrivialComponents(iconMap)[i].caption != TrivialComponents(iconMap)[j].caption
  {
    var r := TrivialComponents(iconMap);
    RegistrationOrderDistinct();
    forall i, j | 0 <= i < j < |r| ensures r[i].kind != r[j].kind && r[i].caption != r[j].caption {
      if r[i].caption == r[j].caption {
        ComponentLabelsDistinct(r[i].kind, r[j].kind, iconMap);
      }
    }
  }

  type Entity = nat

  /** The parts of the scene's entity registry the panel reads and writes. */
  class SceneRegistry {
    var valid: set<Entity>                // registry.valid
    var active: map<Entity, bool>         // ActiveComponent::active
    var names: map<Entity, string>        // NameComponent::name

    constructor (valid: set<Entity>, active: map<Entity, bool>, names: map<Entity, string>)
      ensures this.valid == valid && this.active == active && this.names == names
    {
      this.valid, this.active, this.names := valid, active, names;
    }
  }

  /** The editor shell's selection. */
  class EditorShell {
    var selected: seq<Entity>

    constructor (selected: seq<Entity>)
      ensures this.selected == selected
    {
      this.selected := selected;
    }
  }

  /** The static `init` flag of the file, shared by every panel. */
  class InitGuard {
    var init: bool

    constructor ()
      ensures !init
    {
      init := false;
    }
  }

  /** The panel only inspects when exactly one entity is selected and that entity is valid. */
  predicate InspectsSingle(selected: seq<Entity>, valid: set<Entity>): (b: bool)
    ensures b <==> exists e :: e in valid && selected == [e]
  {
    |selected| == 1 && selected[0] in valid
  }

  /** The checkbox value: the entity's active flag, or true when it has no ActiveComponent. */
  function ShownActive(active: map<Entity, bool>, e: Entity): (shown: bool)
    ensures !shown ==> e in active && !active[e]
    ensures e in active ==> shown == active[e]
  {
    if e in active then active[e] else true
  }

  /** A click on the checkbox: emplace the flipped value, or flip the existing component in place. */
  function ToggleActive(active: map<Entity, bool>, e: Entity): (r: map<Entity, bool>)
    ensures e in r && r[e] == !ShownActive(active, e)
    ensures e !in active ==> r[e] == false
    ensures r.Keys == active.Keys + {e}
    ensures forall x :: x in active && x != e ==> r[x] == active[x]
  {
    // absent: the shown default true, flipped, is emplaced
    if e !in active then active[e := false] else active[e := !active[e]]
  }

  /** Two clicks restore what the checkbox shows; only the component may have been created. */
  lemma ToggleActiveTwice(active: map<Entity, bool>, e: Entity)
    ensures ShownActive(ToggleActive(ToggleActive(active, e), e), e) == ShownActive(active, e)
    ensures ToggleActive(ToggleActive(active, e), e) == active[e := ShownActive(active, e)]
  {
  }

  /** The name shown in the name field: the NameComponent, or the entity's number. */
  function DisplayedName(names: map<Entity, string>, e: Entity): (name: string)
    ensures e in names ==> name == names[e]
    ensures e !in names ==> (forall i :: 0 <= i < |name| ==> IsDigit(name[i])) && ParseNat(name) == e
  {
    if e in names then names[e] else ParseNatToString(e); NatToString(e)
  }

  /** What the user did in the panel during one frame. */
  datatype FrameInput = FrameInput(
    windowOpen: bool,              // ImGui::Begin returned true
    activeClicked: bool,           // the "##ActiveCheckbox" was clicked
    nameEdit: Option<string>,      // the name field was edited to this text
    debugClicked: bool)            // "Debug Mode" was chosen in the tune popup

  class InspectorPanel {
    var debugMode: bool
    /** The registrations handed to the entity editor, in order. */
    var registered: seq<RegisteredEditor>
    const guard: InitGuard

    constructor (guard: InitGuard)
      ensures this.guard == guard && !debugMode && registered == []
    {
      this.guard := guard;
      debugMode := false;
      registered := [];
    }

    /** The first scene registers the fifteen component editors; every later scene registers nothing. */
    method OnNewScene(iconMap: map<TypeKey, string>)
      requires !guard.init ==> IconsResolvable(iconMap)
      modifies this, guard
      ensures guard.init
      ensures registered == if old(guard.init) then old(registered) else old(registered) + TrivialComponents(iconMap)
      ensures debugMode == old(debugMode)
    {
      if guard.init {
        return;
      }
      guard.init := true;
      for i := 0 to |RegistrationOrder|
        invariant registered == old(registered) + TrivialComponents(iconMap)[..i]
        invariant guard.init && debugMode == old(debugMode)
      {
        var k := RegistrationOrder[i];
        var name := Icon(k, iconMap);
        name := name + "\t";
        name := name + DisplayName(k);
        assert TrivialComponents(iconMap)[..i + 1] == TrivialComponents(iconMap)[..i] + [RegisteredEditor(k, name)];
        registered := registered + [RegisteredEditor(k, name)];
      }
      assert TrivialComponents(iconMap)[..|RegistrationOrder|] == TrivialComponents(iconMap);
    }

    method SetDebugMode(mode: bool)
      modifies this
      ensures debugMode == mode && registered == old(registered)
    {
      debugMode := mode;
    }

    /**
     * One frame of the panel. Without a scene, or unless exactly one valid entity is
     * selected, the selection is cleared and nothing else happens. Otherwise the active
     * checkbox, the name field and the debug toggle apply the user's edits to that entity.
     */
    method OnImGui(editor: EditorShell, scene: SceneRegistry?, input: FrameInput)
      returns (inspected: Option<Entity>, nameShown: string)
      modifies this, editor, scene
      ensures registered == old(registered)
      ensures inspected.Some? <==>
                input.windowOpen && scene != null && InspectsSingle(old(editor.selected), old(scene.valid))
      ensures !input.windowOpen ==>
                editor.selected == old(editor.selected) && debugMode == old(debugMode)
                && (scene != null ==> scene.active == old(scene.active) && scene.names == old(scene.names))
      ensures input.windowOpen && inspected.None? ==>
                editor.selected == [] && debugMode == old(debugMode)
                && (scene != null ==> scene.active == old(scene.active) && scene.names == old(scene.names))
      ensures scene != null ==> scene.valid == old(scene.valid)
      ensures inspected.Some? ==>
                && scene != null
                && inspected.value == old(editor.selected)[0]
                && nameShown == DisplayedName(old(scene.names), inspected.value)
                && editor.selected == old(editor.selected)
                && scene.active == (if input.activeClicked then ToggleActive(old(scene.active), inspected.value)
                                    else old(scene.active))
                && scene.names == (if input.nameEdit.Some? then old(scene.names)[inspected.value := input.nameEdit.value]
                                   else old(scene.names))
                && debugMode == (old(debugMode) != input.debugClicked)
    {
      inspected, nameShown := None, "";
      if !input.windowOpen {
        return;
      }
      if scene == null {
        editor.selected := [];
        return;
      }
      if |editor.selected| != 1 || editor.selected[0] !in scene.valid {
        editor.selected := [];
        return;
      }
      var selected := editor.selected[0];

      if input.activeClicked {
        var active := ShownActive(scene.active, selected);
        active := !active;
        // registry.emplace<ActiveComponent> when absent, activeComponent->active = active otherwise
        scene.active := scene.active[selected := active];
      }

      var hasName := selected in scene.names;
      nameShown := if hasName then scene.names[selected] else NatToString(selected);
      if input.nameEdit.Some? {
        scene.names := scene.names[selected := input.nameEdit.value];
      }

      if input.debugClicked {
        debugMode := !debugMode;
      }
      inspected := Some(selected);
    }
  }

  /** Loading a second scene into a fresh panel leaves exactly the fifteen first registrations. */
  method NewSceneTwice(iconMap: map<TypeKey, string>) returns (panel: InspectorPanel)
    requires IconsResolvable(iconMap)
    ensures panel.registered == TrivialComponents(iconMap)
    ensures |panel.registered| == 15
  {
    var guard := new InitGuard();
    panel := new InspectorPanel(guard);
    panel.OnNewScene(iconMap);
    panel.OnNewScene(iconMap);
  }
}
