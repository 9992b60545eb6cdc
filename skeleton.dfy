/** The loaded scene, the named joint roles of the animated rig, and the
    one-pass resolution of those roles into slots (`BoneSet`). */
module Skeleton {

  datatype Option<T> = None | Some(value: T)

  /** A joint rotation as three Euler angles; the rotation order is not modelled. */
  datatype Euler = Euler(x: real, y: real, z: real)

  /** One node of the loaded scene. `isBone` is the `instanceof THREE.Bone`
      test; `posY` is the node's `position.y`. */
  datatype Node = Node(name: string, isBone: bool, rot: Euler, posY: real)

  /** The single-valued joint roles of the rig. */
  datatype Role =
    | Pelvis | Head | Neck
    | UpperarmL | UpperarmR | LowerarmL | LowerarmR
    | ThighL | ThighR | CalfL | CalfR

  /** The bone name each role is matched against (exact match). */
  function RoleName(r: Role): string {
    match r
    case Pelvis => "pelvis"
    case Head => "head"
    case Neck => "neck_01"
    case UpperarmL => "upperarm_l"
    case UpperarmR => "upperarm_r"
    case LowerarmL => "lowerarm_l"
    case LowerarmR => "lowerarm_r"
    case ThighL => "thigh_l"
    case ThighR => "thigh_r"
    case CalfL => "calf_l"
    case CalfR => "calf_r"
  }

  /** Names of the bones collected, in traversal order, into the spine list. */
  const SpineNames: seq<string> := ["spine_03", "spine_04", "spine_05"]

  /** A slot is an optional index into the scene; `spine` is a list of indices. */
  datatype BoneSet = BoneSet(
    spine: seq<nat>,
    pelvis: Option<nat>, head: Option<nat>, neck: Option<nat>,
    upperarmL: Option<nat>, upperarmR: Option<nat>,
    lowerarmL: Option<nat>, lowerarmR: Option<nat>,
    thighL: Option<nat>, thighR: Option<nat>,
    calfL: Option<nat>, calfR: Option<nat>)

  const NoBones: BoneSet :=
    BoneSet([], None, None, None, None, None, None, None, None, None, None, None)

  function SlotOf(b: BoneSet, r: Role): Option<nat> {
    match r
    case Pelvis => b.pelvis
    case Head => b.head
    case Neck => b.neck
    case UpperarmL => b.upperarmL
    case UpperarmR => b.upperarmR
    case LowerarmL => b.lowerarmL
    case LowerarmR => b.lowerarmR
    case ThighL => b.thighL
    case ThighR => b.thighR
    case CalfL => b.calfL
    case CalfR => b.calfR
  }

  /** The baseline map's keys: `spine_${i}` and one key per saved role
      ('head', 'neck', 'upperarmL', ...). */
  datatype Key = SpineKey(index: nat) | RoleKey(role: Role)

  /** Every slot of `b` indexes into a scene of `n` nodes. */
  ghost predicate InRange(b: BoneSet, n: nat) {
    && (forall r :: SlotOf(b, r).Some? ==> SlotOf(b, r).value < n)
    && (forall j :: 0 <= j < |b.spine| ==> b.spine[j] < n)
  }

  ghost predicate NamedBone(s: seq<Node>, k: int, name: string) {
    0 <= k < |s| && s[k].isBone && s[k].name == name
  }

  ghost predicate SpineBone(s: seq<Node>, k: int) {
    0 <= k < |s| && s[k].isBone && s[k].name in SpineNames
  }

  /** What resolution guarantees about a bone set: each slot holds a bone of
      its role's name, the spine holds spine bones in strictly increasing
      (traversal) order. */
  ghost predicate WellFormed(b: BoneSet, s: seq<Node>) {
    && (forall r :: SlotOf(b, r).Some? ==> NamedBone(s, SlotOf(b, r).value, RoleName(r)))
    && (forall j :: 0 <= j < |b.spine| ==> SpineBone(s, b.spine[j]))
    && (forall j, j' :: 0 <= j < j' < |b.spine| ==> b.spine[j] < b.spine[j'])
  }

  /** Two scenes agree on which nodes are bones and on the names of the bones. */
  ghost predicate SameBones(s: seq<Node>, t: seq<Node>) {
    && |s| == |t|
    && (forall k :: 0 <= k < |s| ==> s[k].isBone == t[k].isBone)
    && (forall k :: 0 <= k < |s| && s[k].isBone ==> s[k].name == t[k].name)
  }

  /** The traversal callback for one node at index `i`: the spine test and
      the eleven independent name tests. */
  function Visit(b: BoneSet, child: Node, i: nat): BoneSet {
    if !child.isBone then b
    else
      var n := child.name;
      var b := if n in SpineNames then b.(spine := b.spine + [i]) else b;
      b.(pelvis := if n == RoleName(Pelvis) then Some(i) else b.pelvis,
         head := if n == RoleName(Head) then Some(i) else b.head,
         neck := if n == RoleName(Neck) then Some(i) else b.neck,
         upperarmL := if n == RoleName(UpperarmL) then Some(i) else b.upperarmL,
         upperarmR := if n == RoleName(UpperarmR) then Some(i) else b.upperarmR,
         lowerarmL := if n == RoleName(LowerarmL) then Some(i) else b.lowerarmL,
         lowerarmR := if n == RoleName(LowerarmR) then Some(i) else b.lowerarmR,
         thighL := if n == RoleName(ThighL) then Some(i) else b.thighL,
         thighR := if n == RoleName(ThighR) then Some(i) else b.thighR,
         calfL := if n == RoleName(CalfL) then Some(i) else b.calfL,
         calfR := if n == RoleName(CalfR) then Some(i) else b.calfR)
  }

  /** The bone set the traversal of `s` produces (specification of `Resolve`). */
  function Resolution(s: seq<Node>): (r: BoneSet)
    ensures |r.spine| <= |s|
  {
    if |s| == 0 then NoBones
    else Visit(Resolution(s[..|s| - 1]), s[|s| - 1], |s| - 1)
  }

  /** The callback body for one node: the spine test, then one test per role. */
  method VisitBone(b: BoneSet, child: Node, i: nat) returns (bones: BoneSet)
    ensures bones == Visit(b, child, i)
  {
    bones := b;
    if child.isBone {
      var n := child.name;
      if n in SpineNames { bones := bones.(spine := bones.spine + [i]); }
      if n == "pelvis" { bones := bones.(pelvis := Some(i)); }
      if n == "head" { bones := bones.(head := Some(i)); }
      if n == "neck_01" { bones := bones.(neck := Some(i)); }
      if n == "upperarm_l" { bones := bones.(upperarmL := Some(i)); }
      if n == "upperarm_r" { bones := bones.(upperarmR := Some(i)); }
      if n == "lowerarm_l" { bones := bones.(lowerarmL := Some(i)); }
      if n == "lowerarm_r" { bones := bones.(lowerarmR := Some(i)); }
      if n == "thigh_l" { bones := bones.(thighL := Some(i)); }
      if n == "thigh_r" { bones := bones.(thighR := Some(i)); }
      if n == "calf_l" { bones := bones.(calfL := Some(i)); }
      if n == "calf_r" { bones := bones.(calfR := Some(i)); }
    }
  }

  /** Walks the scene once in traversal order, filling the slots. */
  method Resolve(scene: array<Node>) returns (bones: BoneSet)
    ensures bones == Resolution(scene[..])
  {
    bones := NoBones;
    var i := 0;
    while i < scene.Length
      invariant 0 <= i <= scene.Length
      invariant bones == Resolution(scene[..i])
    {
      bones := VisitBone(bones, scene[i], i);
      assert scene[..i + 1][..i] == scene[..i];
      i := i + 1;
    }
    assert scene[..] == scene[..scene.Length];
  }

  /** Visiting one node sets a role's slot exactly when the node is a bone of
      that role's name, and leaves it alone otherwise. */
  lemma VisitSlot(b: BoneSet, child: Node, i: nat, r: Role)
    ensures SlotOf(Visit(b, child, i), r) ==
      if child.isBone && child.name == RoleName(r) then Some(i) else SlotOf(b, r)
  {
  }

  /** A single-valued slot holds the LAST bone, in traversal order, whose
      name is the role's name, and is empty exactly when there is none. */
  lemma {:induction false} ResolutionSlot(s: seq<Node>, r: Role)
    ensures SlotOf(Resolution(s), r).None? <==>
      forall k :: 0 <= k < |s| ==> !NamedBone(s, k, RoleName(r))
    ensures SlotOf(Resolution(s), r).Some? ==>
      && NamedBone(s, SlotOf(Resolution(s), r).value, RoleName(r))
      && forall k :: SlotOf(Resolution(s), r).value < k < |s| ==> !NamedBone(s, k, RoleName(r))
  {
    if |s| > 0 {
      var p := s[..|s| - 1];
      ResolutionSlot(p, r);
      VisitSlot(Resolution(p), s[|s| - 1], |s| - 1, r);
      assert forall k :: 0 <= k < |p| ==> (NamedBone(p, k, RoleName(r)) <==> NamedBone(s, k, RoleName(r)));
      var last := |s| - 1;
      assert NamedBone(s, last, RoleName(r)) <==> s[last].isBone && s[last].name == RoleName(r);
      if SlotOf(Resolution(s), r).None? {
        forall k | 0 <= k < |s| ensures !NamedBone(s, k, RoleName(r)) {
          if k < last { assert !NamedBone(p, k, RoleName(r)); }
        }
      }
    }
  }

  /** The spine list holds exactly the bones named `spine_03`, `spine_04` or
      `spine_05`, each once, in traversal order. */
  lemma {:induction false} ResolutionSpine(s: seq<Node>)
    ensures forall j :: 0 <= j < |Resolution(s).spine| ==> SpineBone(s, Resolution(s).spine[j])
    ensures forall j, j' :: 0 <= j < j' < |Resolution(s).spine| ==>
      Resolution(s).spine[j] < Resolution(s).spine[j']
    ensures forall k :: SpineBone(s, k) ==> k in Resolution(s).spine
  {
    if |s| > 0 {
      var p := s[..|s| - 1];
      ResolutionSpine(p);
      assert forall k :: 0 <= k < |p| ==> (SpineBone(p, k) <==> SpineBone(s, k));
      var sp, sp' := Resolution(p).spine, Resolution(s).spine;
      assert sp' == if SpineBone(s, |s| - 1) then sp + [|s| - 1] else sp;
    }
  }

  /** Resolution reads nothing but which nodes are bones and the bones' names:
      non-bone nodes, rotations and positions never affect a slot. Resolving
      the same hierarchy again (or after its joints moved) gives the same slots. */
  lemma {:induction false} ResolutionSeesOnlyBones(s: seq<Node>, t: seq<Node>)
    requires SameBones(s, t)
    ensures Resolution(s) == Resolution(t)
  {
    if |s| > 0 {
      var n := |s| - 1;
      assert SameBones(s[..n], t[..n]);
      ResolutionSeesOnlyBones(s[..n], t[..n]);
      assert s[n].isBone ==> s[n].name == t[n].name;
    }
  }

  lemma ResolutionWellFormed(s: seq<Node>)
    ensures WellFormed(Resolution(s), s)
  {
    forall r | SlotOf(Resolution(s), r).Some?
      ensures NamedBone(s, SlotOf(Resolution(s), r).value, RoleName(r))
    {
      ResolutionSlot(s, r);
    }
    ResolutionSpine(s);
  }

  /** Different roles have different names, and no role is a spine name. */
  lemma RoleNamesDistinct()
    ensures forall r, r' :: RoleName(r) == RoleName(r') ==> r == r'
    ensures forall r :: RoleName(r) !in SpineNames
  {
  }

  /** No two roles, and no role and spine segment, share a node; the spine
      lists distinct nodes in increasing order. */
  ghost predicate Disjoint(b: BoneSet) {
    && (forall r, r' :: SlotOf(b, r).Some? && SlotOf(b, r) == SlotOf(b, r') ==> r == r')
    && (forall r, j :: 0 <= j < |b.spine| ==> SlotOf(b, r) != Some(b.spine[j]))
    && (forall j, j' :: 0 <= j < j' < |b.spine| ==> b.spine[j] < b.spine[j'])
  }

  /** In a well-formed bone set no two roles, and no role and spine segment,
      share a node. */
  lemma SlotsDistinct(b: BoneSet, s: seq<Node>)
    requires WellFormed(b, s)
    ensures Disjoint(b)
    ensures InRange(b, |s|)
  {
    RoleNamesDistinct();
  }

  lemma WellFormedSameBones(b: BoneSet, s: seq<Node>, t: seq<Node>)
    requires WellFormed(b, s) && SameBones(s, t)
    ensures WellFormed(b, t)
  {
  }
}
