/** The one-time corrective arm pose and the baseline snapshot taken after it. */
module PoseInitializer {
  import opened Skeleton

  /** Corrective `rotation.y` deltas of the static stance. */
  const UpperarmDeltaY: real := 0.25
  const LowerarmLDeltaY: real := -0.35
  const LowerarmRDeltaY: real := 0.05

  /** The animator's state besides the pointer: the scene's nodes, the
      baseline rotations, the pelvis baseline height and the init guard. */
  datatype Pose = Pose(nodes: seq<Node>, orig: map<Key, Euler>, pelvisY: real, initialized: bool)

  /** `bone.rotation.y += d` when the slot holds a bone. */
  function AddY(s: seq<Node>, slot: Option<nat>, d: real): (r: seq<Node>)
    requires slot.Some? ==> slot.value < |s|
    ensures |r| == |s|
    ensures SameBones(s, r)
  {
    if slot.None? then s
    else
      var i := slot.value;
      s[i := s[i].(rot := s[i].rot.(y := s[i].rot.y + d))]
  }

  /** The static stance: both upper arms +0.25, left lower arm -0.35,
      right lower arm +0.05, all on the y axis, in that order. */
  function StaticPose(s: seq<Node>, b: BoneSet): (r: seq<Node>)
    requires InRange(b, |s|)
    ensures |r| == |s|
    ensures SameBones(s, r)
  {
    var s := AddY(s, SlotOf(b, UpperarmL), UpperarmDeltaY);
    var s := AddY(s, SlotOf(b, UpperarmR), UpperarmDeltaY);
    var s := AddY(s, SlotOf(b, LowerarmL), LowerarmLDeltaY);
    AddY(s, SlotOf(b, LowerarmR), LowerarmRDeltaY)
  }

  /** The baseline entries `spine_0` .. `spine_{n-1}` (the `forEach` over the spine). */
  function SpineBaseline(s: seq<Node>, spine: seq<nat>, n: nat): (r: map<Key, Euler>)
    requires n <= |spine|
    requires forall j :: 0 <= j < |spine| ==> spine[j] < |s|
    ensures forall k :: k in r <==> k.SpineKey? && k.index < n
  {
    if n == 0 then map[]
    else SpineBaseline(s, spine, n - 1)[SpineKey(n - 1) := s[spine[n - 1]].rot]
  }

  /** The `save` helper: records the slot's rotation under `key` when the slot holds a bone. */
  function Save(m: map<Key, Euler>, s: seq<Node>, key: Key, slot: Option<nat>): map<Key, Euler>
    requires slot.Some? ==> slot.value < |s|
  {
    if slot.Some? then m[key := s[slot.value].rot] else m
  }

  /** The roles saved after the spine, in the order the init block saves them (the pelvis is
      saved separately, as a height). */
  const SavedRoles: seq<Role> :=
    [Head, Neck, UpperarmL, UpperarmR, LowerarmL, LowerarmR, ThighL, ThighR, CalfL, CalfR]

  /** The `save` calls for the roles `rs`, in order. */
  function SaveRoles(m: map<Key, Euler>, s: seq<Node>, b: BoneSet, rs: seq<Role>): map<Key, Euler>
    requires InRange(b, |s|)
  {
    if |rs| == 0 then m
    else
      var r := rs[|rs| - 1];
      Save(SaveRoles(m, s, b, rs[..|rs| - 1]), s, RoleKey(r), SlotOf(b, r))
  }

  /** The baseline map built from the nodes `s`: the spine entries, then the roles. */
  function Baseline(s: seq<Node>, b: BoneSet): map<Key, Euler>
    requires InRange(b, |s|)
  {
    SaveRoles(SpineBaseline(s, b.spine, |b.spine|), s, b, SavedRoles)
  }

  /** The guarded init block: when not yet initialised and the spine is
      non-empty, pose the arms, then snapshot the baseline and the pelvis
      height; otherwise nothing changes. */
  function Initialize(p: Pose, b: BoneSet): (r: Pose)
    requires InRange(b, |p.nodes|)
    ensures |r.nodes| == |p.nodes|
    ensures r.initialized == (p.initialized || |b.spine| > 0)
    ensures p.initialized || |b.spine| == 0 ==> r == p
  {
    if p.initialized || |b.spine| == 0 then p
    else
      var posed := StaticPose(p.nodes, b);
      var pelvisY := if SlotOf(b, Pelvis).Some? then posed[SlotOf(b, Pelvis).value].posY else p.pelvisY;
      Pose(posed, Baseline(posed, b), pelvisY, true)
  }

  /** Keys the baseline holds for bone set `b`: one per spine segment and one
      per present role except the pelvis. */
  ghost predicate BaselineKey(b: BoneSet, k: Key) {
    match k
    case SpineKey(j) => j < |b.spine|
    case RoleKey(r) => r != Pelvis && SlotOf(b, r).Some?
  }

  /** `AddY` changes only the y rotation of the slot's node. */
  lemma AddYEffect(s: seq<Node>, slot: Option<nat>, d: real)
    requires slot.Some? ==> slot.value < |s|
    ensures forall k :: 0 <= k < |s| && slot != Some(k) ==> AddY(s, slot, d)[k] == s[k]
    ensures slot.Some? ==> (AddY(s, slot, d)[slot.value] ==
      s[slot.value].(rot := s[slot.value].rot.(y := s[slot.value].rot.y + d)))
  {
  }

  /** The static pose changes only `rotation.y`, only on the four arm bones,
      by +0.25, +0.25, -0.35 and +0.05; every other node is untouched. */
  lemma StaticPoseEffect(s: seq<Node>, b: BoneSet)
    requires WellFormed(b, s)
    ensures InRange(b, |s|)
    ensures forall k :: 0 <= k < |s| ==>
      StaticPose(s, b)[k] == s[k].(rot := s[k].rot.(y := StaticPose(s, b)[k].rot.y))
    ensures forall k: nat ::
      (&& k < |s|
       && Some(k) != SlotOf(b, UpperarmL) && Some(k) != SlotOf(b, UpperarmR)
       && Some(k) != SlotOf(b, LowerarmL) && Some(k) != SlotOf(b, LowerarmR))
      ==> StaticPose(s, b)[k] == s[k]
    ensures SlotOf(b, UpperarmL).Some? ==> var i := SlotOf(b, UpperarmL).value;
      StaticPose(s, b)[i].rot.y == s[i].rot.y + 0.25
    ensures SlotOf(b, UpperarmR).Some? ==> var i := SlotOf(b, UpperarmR).value;
      StaticPose(s, b)[i].rot.y == s[i].rot.y + 0.25
    ensures SlotOf(b, LowerarmL).Some? ==> var i := SlotOf(b, LowerarmL).value;
      StaticPose(s, b)[i].rot.y == s[i].rot.y - 0.35
    ensures SlotOf(b, LowerarmR).Some? ==> var i := SlotOf(b, LowerarmR).value;
      StaticPose(s, b)[i].rot.y == s[i].rot.y + 0.05
  {
    SlotsDistinct(b, s);
    var s1 := AddY(s, SlotOf(b, UpperarmL), UpperarmDeltaY);
    var s2 := AddY(s1, SlotOf(b, UpperarmR), UpperarmDeltaY);
    var s3 := AddY(s2, SlotOf(b, LowerarmL), LowerarmLDeltaY);
    AddYEffect(s, SlotOf(b, UpperarmL), UpperarmDeltaY);
    AddYEffect(s1, SlotOf(b, UpperarmR), UpperarmDeltaY);
    AddYEffect(s2, SlotOf(b, LowerarmL), LowerarmLDeltaY);
    AddYEffect(s3, SlotOf(b, LowerarmR), LowerarmRDeltaY);
  }

  /** The spine part of the baseline maps `spine_j` to the rotation of spine segment j. */
  lemma {:induction false} SpineBaselineContents(s: seq<Node>, spine: seq<nat>, n: nat)
    requires n <= |spine|
    requires forall j :: 0 <= j < |spine| ==> spine[j] < |s|
    ensures forall k :: k in SpineBaseline(s, spine, n) <==> k.SpineKey? && k.index < n
    ensures forall j :: 0 <= j < n ==> SpineBaseline(s, spine, n)[SpineKey(j)] == s[spine[j]].rot
  {
    if n > 0 {
      SpineBaselineContents(s, spine, n - 1);
    }
  }

  /** Saving the roles `rs` adds their present roles' keys, each mapped to
      its bone's rotation, and keeps every other entry. */
  lemma {:induction false} SaveRolesContents(m: map<Key, Euler>, s: seq<Node>, b: BoneSet, rs: seq<Role>)
    requires InRange(b, |s|)
    ensures forall k :: k in SaveRoles(m, s, b, rs) <==>
      k in m || (k.RoleKey? && k.role in rs && SlotOf(b, k.role).Some?)
    ensures forall r :: r in rs && SlotOf(b, r).Some? ==>
      SaveRoles(m, s, b, rs)[RoleKey(r)] == s[SlotOf(b, r).value].rot
    ensures forall k :: k in m && !(k.RoleKey? && k.role in rs && SlotOf(b, k.role).Some?) ==>
      SaveRoles(m, s, b, rs)[k] == m[k]
  {
    if |rs| > 0 {
      var init := rs[..|rs| - 1];
      SaveRolesContents(m, s, b, init);
      assert forall r :: r in rs <==> r in init || r == rs[|rs| - 1];
    }
  }

  /** The baseline holds exactly the spine keys and the keys of the present
      roles (the pelvis aside), each mapped to that bone's rotation in `s`. */
  lemma BaselineContents(s: seq<Node>, b: BoneSet)
    requires InRange(b, |s|)
    ensures forall k :: k in Baseline(s, b) <==> BaselineKey(b, k)
    ensures forall j :: 0 <= j < |b.spine| ==>
      SpineKey(j) in Baseline(s, b) && Baseline(s, b)[SpineKey(j)] == s[b.spine[j]].rot
    ensures forall r :: r != Pelvis && SlotOf(b, r).Some? ==>
      RoleKey(r) in Baseline(s, b) && Baseline(s, b)[RoleKey(r)] == s[SlotOf(b, r).value].rot
  {
    var m := SpineBaseline(s, b.spine, |b.spine|);
    SpineBaselineContents(s, b.spine, |b.spine|);
    SaveRolesContents(m, s, b, SavedRoles);
    assert forall r :: r in SavedRoles <==> r != Pelvis;
  }

  /** The arm baselines are captured AFTER the corrective pose: each saved
      arm rotation is the rest rotation plus its delta. */
  lemma BaselineAfterPose(p: Pose, b: BoneSet)
    requires WellFormed(b, p.nodes)
    requires !p.initialized && |b.spine| > 0
    ensures InRange(b, |p.nodes|)
    ensures SlotOf(b, UpperarmL).Some? ==> var rest := p.nodes[SlotOf(b, UpperarmL).value].rot;
      RoleKey(UpperarmL) in Initialize(p, b).orig && Initialize(p, b).orig[RoleKey(UpperarmL)] == rest.(y := rest.y + 0.25)
    ensures SlotOf(b, UpperarmR).Some? ==> var rest := p.nodes[SlotOf(b, UpperarmR).value].rot;
      RoleKey(UpperarmR) in Initialize(p, b).orig && Initialize(p, b).orig[RoleKey(UpperarmR)] == rest.(y := rest.y + 0.25)
    ensures SlotOf(b, LowerarmL).Some? ==> var rest := p.nodes[SlotOf(b, LowerarmL).value].rot;
      RoleKey(LowerarmL) in Initialize(p, b).orig && Initialize(p, b).orig[RoleKey(LowerarmL)] == rest.(y := rest.y - 0.35)
    ensures SlotOf(b, LowerarmR).Some? ==> var rest := p.nodes[SlotOf(b, LowerarmR).value].rot;
      RoleKey(LowerarmR) in Initialize(p, b).orig && Initialize(p, b).orig[RoleKey(LowerarmR)] == rest.(y := rest.y + 0.05)
  {
    SlotsDistinct(b, p.nodes);
    StaticPoseEffect(p.nodes, b);
    var posed := StaticPose(p.nodes, b);
    assert Initialize(p, b) == Pose(posed, Baseline(posed, b), Initialize(p, b).pelvisY, true);
    BaselineContents(posed, b);
  }

  /** The baseline holds exactly the keys of the joints present, and the
      pelvis baseline is the pelvis height. */
  lemma BaselineKeys(p: Pose, b: BoneSet)
    requires WellFormed(b, p.nodes)
    requires !p.initialized && |b.spine| > 0
    ensures forall k :: k in Initialize(p, b).orig <==> BaselineKey(b, k)
    ensures Initialize(p, b).pelvisY ==
      if SlotOf(b, Pelvis).Some? then p.nodes[SlotOf(b, Pelvis).value].posY else p.pelvisY
  {
    SlotsDistinct(b, p.nodes);
    StaticPoseEffect(p.nodes, b);
    var posed := StaticPose(p.nodes, b);
    BaselineContents(posed, b);
  }

  /** The head, neck, thigh and calf baselines are the rest rotations: the
      corrective pose does not touch those joints. */
  lemma BaselineRestJoints(p: Pose, b: BoneSet)
    requires WellFormed(b, p.nodes)
    requires !p.initialized && |b.spine| > 0
    ensures InRange(b, |p.nodes|)
    ensures forall r :: r in {Head, Neck, ThighL, ThighR, CalfL, CalfR} && SlotOf(b, r).Some? ==>
      RoleKey(r) in Initialize(p, b).orig && Initialize(p, b).orig[RoleKey(r)] == p.nodes[SlotOf(b, r).value].rot
  {
    SlotsDistinct(b, p.nodes);
    StaticPoseEffect(p.nodes, b);
    var posed := StaticPose(p.nodes, b);
    BaselineContents(posed, b);
    forall r | r in {Head, Neck, ThighL, ThighR, CalfL, CalfR} && SlotOf(b, r).Some?
      ensures posed[SlotOf(b, r).value] == p.nodes[SlotOf(b, r).value]
    {
      assert r != UpperarmL && r != UpperarmR && r != LowerarmL && r != LowerarmR;
    }
  }

  /** The spine baselines are the rest rotations of the spine segments. */
  lemma BaselineRestSpine(p: Pose, b: BoneSet)
    requires WellFormed(b, p.nodes)
    requires !p.initialized && |b.spine| > 0
    ensures InRange(b, |p.nodes|)
    ensures forall j :: 0 <= j < |b.spine| ==>
      SpineKey(j) in Initialize(p, b).orig && Initialize(p, b).orig[SpineKey(j)] == p.nodes[b.spine[j]].rot
  {
    SlotsDistinct(b, p.nodes);
    StaticPoseEffect(p.nodes, b);
    var posed := StaticPose(p.nodes, b);
    BaselineContents(posed, b);
    forall j | 0 <= j < |b.spine|
      ensures posed[b.spine[j]] == p.nodes[b.spine[j]]
    {
      assert forall r :: SlotOf(b, r) != Some(b.spine[j]);
    }
  }

  /** Initialisation moves rotations only: which nodes are bones, their
      names, and so the resolved bone slots stay as they were. */
  lemma InitializeKeepsBones(p: Pose, b: BoneSet)
    requires WellFormed(b, p.nodes) && b == Resolution(p.nodes)
    ensures InRange(b, |p.nodes|)
    ensures Resolution(Initialize(p, b).nodes) == b
    ensures WellFormed(b, Initialize(p, b).nodes)
  {
    SlotsDistinct(b, p.nodes);
    if !p.initialized && |b.spine| > 0 {
      StaticPoseEffect(p.nodes, b);
      var t := StaticPose(p.nodes, b);
      assert SameBones(p.nodes, t);
      ResolutionSeesOnlyBones(p.nodes, t);
      WellFormedSameBones(b, p.nodes, t);
    }
  }

  /** A second initialisation is a no-op: initialising twice gives the same
      nodes, baseline, pelvis baseline and guard as initialising once. */
  lemma InitializeOnce(p: Pose, b: BoneSet)
    requires WellFormed(b, p.nodes)
    ensures InRange(b, |Initialize(p, b).nodes|)
    ensures Initialize(Initialize(p, b), b) == Initialize(p, b)
  {
    SlotsDistinct(b, p.nodes);
  }
}
