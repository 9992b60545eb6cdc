/** The animated character component: the scene's nodes, the resolved bone
    slots, the baseline refs and the pointer refs, with the three things that
    change them: the one-time pose initialisation, the pointer listener and
    the per-frame update. */
module CharacterModel {
  import opened Skeleton
  import opened PoseInitializer
  import opened PointerTracker
  import opened Animation

  class Character {
    /** The loaded scene's nodes, in traversal order; bones are written in place. */
    const scene: array<Node>
    /** The bone slots, resolved once from the scene. */
    const bones: BoneSet
    /** `orig`: baseline rotations, keyed by joint. */
    var orig: map<Key, Euler>
    /** `origPelvisY`: baseline pelvis height. */
    var origPelvisY: real
    /** `initialized`: the one-time guard of the static pose. */
    var initialized: bool
    /** Last normalised pointer position, and its smoothed follower. */
    var mouseTarget: Vec2
    var mouseCurrent: Vec2

    /** The slots are the scene's bones, and nothing is stored before the
        initialisation has run. */
    ghost predicate Valid()
      reads this, scene
    {
      && bones == Resolution(scene[..])
      && WellFormed(bones, scene[..])
      && (!initialized ==> orig == map[] && origPelvisY == 0.0)
    }

    /** The part of the state the initialisation and the frame work on. */
    ghost function State(): Pose
      reads this, scene
    {
      Pose(scene[..], orig, origPelvisY, initialized)
    }

    /** Mounting: resolve the bones of the loaded scene; all refs start empty. */
    constructor(model: array<Node>)
      ensures scene == model && model[..] == old(model[..])
      ensures bones == Resolution(model[..])
      ensures orig == map[] && origPelvisY == 0.0 && !initialized
      ensures mouseTarget == Vec2(0.0, 0.0) && mouseCurrent == Vec2(0.0, 0.0)
      ensures Valid()
    {
      var b := Resolve(model);
      ResolutionWellFormed(model[..]);
      scene := model;
      bones := b;
      orig := map[];
      origPelvisY := 0.0;
      initialized := false;
      mouseTarget := Vec2(0.0, 0.0);
      mouseCurrent := Vec2(0.0, 0.0);
    }

    /** `bone.rotation.y += d` for the bone in `slot`, if any. */
    method AddRotY(slot: Option<nat>, d: real)
      requires slot.Some? ==> slot.value < scene.Length
      modifies scene
      ensures scene[..] == AddY(old(scene[..]), slot, d)
    {
      if slot.Some? {
        var i := slot.value;
        scene[i] := scene[i].(rot := scene[i].rot.(y := scene[i].rot.y + d));
      }
    }

    /** The `save` helper: record the rotation of role `r`'s bone, if any. */
    method SaveBone(m: map<Key, Euler>, r: Role) returns (m': map<Key, Euler>)
      requires InRange(bones, scene.Length)
      ensures m' == Save(m, scene[..], RoleKey(r), SlotOf(bones, r))
    {
      m' := m;
      var slot := SlotOf(bones, r);
      if slot.Some? {
        m' := m'[RoleKey(r) := scene[slot.value].rot];
      }
    }

    /** The static stance: the four arm adjustments, in order. */
    method PoseArms()
      requires InRange(bones, scene.Length)
      modifies scene
      ensures scene[..] == StaticPose(old(scene[..]), bones)
    {
      AddRotY(SlotOf(bones, UpperarmL), UpperarmDeltaY);
      AddRotY(SlotOf(bones, UpperarmR), UpperarmDeltaY);
      AddRotY(SlotOf(bones, LowerarmL), LowerarmLDeltaY);
      AddRotY(SlotOf(bones, LowerarmR), LowerarmRDeltaY);
    }

    /** The spine `forEach` of the snapshot: `spine_i` for every segment. */
    method SnapshotSpine() returns (m: map<Key, Euler>)
      requires InRange(bones, scene.Length)
      ensures m == SpineBaseline(scene[..], bones.spine, |bones.spine|)
    {
      m := map[];
      var i := 0;
      while i < |bones.spine|
        invariant 0 <= i <= |bones.spine|
        invariant m == SpineBaseline(scene[..], bones.spine, i)
      {
        m := m[SpineKey(i) := scene[bones.spine[i]].rot];
        i := i + 1;
      }
    }

    /** The baseline snapshot: the spine segments, then the `save` calls. */
    method SnapshotBaseline() returns (m: map<Key, Euler>)
      requires InRange(bones, scene.Length)
      ensures m == Baseline(scene[..], bones)
    {
      m := SnapshotSpine();
      m := SaveBone(m, Head);
      m := SaveBone(m, Neck);
      m := SaveBone(m, UpperarmL);
      m := SaveBone(m, UpperarmR);
      m := SaveBone(m, LowerarmL);
      m := SaveBone(m, LowerarmR);
      m := SaveBone(m, ThighL);
      m := SaveBone(m, ThighR);
      m := SaveBone(m, CalfL);
      m := SaveBone(m, CalfR);
      SavedRolesInOrder(scene[..], bones);
    }

    /** The guarded init block: pose the arms once, then snapshot every
        baseline rotation and the pelvis height. */
    method Init()
      requires Valid()
      modifies this, scene
      ensures Valid()
      ensures State() == Initialize(old(State()), bones)
      ensures mouseTarget == old(mouseTarget) && mouseCurrent == old(mouseCurrent)
    {
      ghost var before := State();
      InitializeKeepsBones(before, bones);
      if !initialized && |bones.spine| > 0 {
        initialized := true;
        PoseArms();
        orig := SnapshotBaseline();
        if SlotOf(bones, Pelvis).Some? {
          origPelvisY := scene[SlotOf(bones, Pelvis).value].posY;
        }
      }
    }

    /** The pointer listener: the target becomes the pointer position
        normalised to [-1, 1] on both axes. */
    method OnMouseMove(clientX: real, clientY: real, innerWidth: real, innerHeight: real)
      requires Valid()
      requires innerWidth > 0.0 && innerHeight > 0.0
      modifies this
      ensures Valid()
      ensures mouseTarget == Vec2(Normalize(clientX, innerWidth), Normalize(clientY, innerHeight))
      ensures mouseCurrent == old(mouseCurrent) && orig == old(orig)
      ensures origPelvisY == old(origPelvisY) && initialized == old(initialized)
    {
      mouseTarget := mouseTarget.(x := (clientX / innerWidth) * 2.0 - 1.0);
      mouseTarget := mouseTarget.(y := (clientY / innerHeight) * 2.0 - 1.0);
    }

    /** One joint row of the frame: when the joint of role `r` is present and
        has a baseline, write that row's rotation from the baseline. */
    method WriteJoint(o: map<Key, Euler>, r: Role, row: Row, c: Cycles, m: Vec2)
      requires InRange(bones, scene.Length)
      modifies scene
      ensures scene[..] == WriteRow(old(scene[..]), bones, r, row, o, c, m)
    {
      var slot := SlotOf(bones, r);
      if RoleKey(r) in o && slot.Some? {
        var base := o[RoleKey(r)];
        var i := slot.value;
        var rot := scene[i].rot;
        match row {
          case HeadRow => rot := Euler(base.x + m.x * 0.15, base.y - m.y * 0.10 + c.head * 0.015, base.z);
          case NeckRow => rot := Euler(base.x + m.x * 0.06, base.y - m.y * 0.04 + c.head * 0.008, base.z);
          case ElbowRow => rot := rot.(y := base.y + c.arm * 0.03);
          case ThighRow => rot := rot.(z := base.z + c.leg * 0.008);
          case CalfRow => rot := rot.(z := base.z - c.leg * 0.01);
        }
        scene[i] := scene[i].(rot := rot);
      }
    }

    /** The spine loop: segment i leans from its baseline, when it has one. */
    method Breathe(o: map<Key, Euler>, spineCycle: real)
      requires InRange(bones, scene.Length)
      modifies scene
      ensures scene[..] == SpineWrites(old(scene[..]), bones.spine, o, spineCycle, |bones.spine|)
    {
      var i := 0;
      while i < |bones.spine|
        invariant 0 <= i <= |bones.spine|
        invariant scene[..] == SpineWrites(old(scene[..]), bones.spine, o, spineCycle, i)
      {
        var k := bones.spine[i];
        if SpineKey(i) in o {
          var base := o[SpineKey(i)];
          scene[k] := scene[k].(rot := scene[k].rot.(z := base.z + spineCycle * (0.006 + i as real * 0.003)));
        }
        i := i + 1;
      }
    }

    /** The body bob: the pelvis height becomes `y`. */
    method Bob(y: real)
      requires InRange(bones, scene.Length)
      modifies scene
      ensures scene[..] == SetPelvis(old(scene[..]), bones, y)
    {
      if SlotOf(bones, Pelvis).Some? {
        var k := SlotOf(bones, Pelvis).value;
        scene[k] := scene[k].(posY := y);
      }
    }

    /** The joint writes of one frame from the baseline `o` and the pelvis
        baseline `pelvisY`, in the order the frame applies them. */
    method Animate(o: map<Key, Euler>, pelvisY: real, c: Cycles, m: Vec2)
      requires InRange(bones, scene.Length)
      modifies scene
      ensures scene[..] == FrameWrites(Pose(old(scene[..]), o, pelvisY, initialized), bones, c, m)
    {
      WriteJoint(o, Head, HeadRow, c, m);
      WriteJoint(o, Neck, NeckRow, c, m);
      Breathe(o, c.spine);
      Bob(pelvisY + c.body * 0.003);
      WriteJoint(o, LowerarmL, ElbowRow, c, m);
      WriteJoint(o, LowerarmR, ElbowRow, c, m);
      WriteJoint(o, ThighL, ThighRow, c, m);
      WriteJoint(o, ThighR, ThighRow, c, m);
      WriteJoint(o, CalfL, CalfRow, c, m);
      WriteJoint(o, CalfR, CalfRow, c, m);
    }

    /** The per-frame update at elapsed time `t`: smooth the pointer, sample
        the oscillators, then write every animated joint from its baseline. */
    method Frame(t: real, sin: real -> real)
      requires Valid()
      modifies this, scene
      ensures Valid()
      ensures mouseCurrent == SmoothPointer(old(mouseCurrent), mouseTarget)
      ensures scene[..] == FrameWrites(old(State()), bones, Oscillate(t, sin), mouseCurrent)
      ensures orig == old(orig) && origPelvisY == old(origPelvisY)
      ensures initialized == old(initialized) && mouseTarget == old(mouseTarget)
    {
      ghost var before := State();
      var o := orig;
      mouseCurrent := mouseCurrent.(x := mouseCurrent.x + (mouseTarget.x - mouseCurrent.x) * Lerp);
      mouseCurrent := mouseCurrent.(y := mouseCurrent.y + (mouseTarget.y - mouseCurrent.y) * Lerp);
      var m := mouseCurrent;
      var c := Cycles(sin(t * 0.7), sin(t * 1.0), sin(t * 1.3), sin(t * 1.1 + 0.5), sin(t * 1.3 + 1.0));
      FrameKeepsBones(before, bones, c, m);
      Animate(o, origPelvisY, c, m);
    }
  }

  /** The ten `save` calls after the spine entries, one by one, build the
      baseline: its role entries are saved in `SavedRoles` order. */
  lemma SavedRolesInOrder(s: seq<Node>, b: BoneSet)
    requires InRange(b, |s|)
    ensures Baseline(s, b) ==
      var m := SpineBaseline(s, b.spine, |b.spine|);
      var m := Save(m, s, RoleKey(Head), SlotOf(b, Head));
      var m := Save(m, s, RoleKey(Neck), SlotOf(b, Neck));
      var m := Save(m, s, RoleKey(UpperarmL), SlotOf(b, UpperarmL));
      var m := Save(m, s, RoleKey(UpperarmR), SlotOf(b, UpperarmR));
      var m := Save(m, s, RoleKey(LowerarmL), SlotOf(b, LowerarmL));
      var m := Save(m, s, RoleKey(LowerarmR), SlotOf(b, LowerarmR));
      var m := Save(m, s, RoleKey(ThighL), SlotOf(b, ThighL));
      var m := Save(m, s, RoleKey(ThighR), SlotOf(b, ThighR));
      var m := Save(m, s, RoleKey(CalfL), SlotOf(b, CalfL));
      Save(m, s, RoleKey(CalfR), SlotOf(b, CalfR))
  {
    var m := SpineBaseline(s, b.spine, |b.spine|);
    assert [] + [Head] == [Head];
    SaveRolesSnoc(m, s, b, [], Head);
    assert [Head] + [Neck] == [Head, Neck];
    SaveRolesSnoc(m, s, b, [Head], Neck);
    assert [Head, Neck] + [UpperarmL] == [Head, Neck, UpperarmL];
    SaveRolesSnoc(m, s, b, [Head, Neck], UpperarmL);
    assert [Head, Neck, UpperarmL] + [UpperarmR] == [Head, Neck, UpperarmL, UpperarmR];
    SaveRolesSnoc(m, s, b, [Head, Neck, UpperarmL], UpperarmR);
    assert [Head, Neck, UpperarmL, UpperarmR] + [LowerarmL] == [Head, Neck, UpperarmL, UpperarmR, LowerarmL];
    SaveRolesSnoc(m, s, b, [Head, Neck, UpperarmL, UpperarmR], LowerarmL);
    assert [Head, Neck, UpperarmL, UpperarmR, LowerarmL] + [LowerarmR] == [Head, Neck, UpperarmL, UpperarmR, LowerarmL, LowerarmR];
    SaveRolesSnoc(m, s, b, [Head, Neck, UpperarmL, UpperarmR, LowerarmL], LowerarmR);
    assert [Head, Neck, UpperarmL, UpperarmR, LowerarmL, LowerarmR] + [ThighL] == [Head, Neck, UpperarmL, UpperarmR, LowerarmL, LowerarmR, ThighL];
    SaveRolesSnoc(m, s, b, [Head, Neck, UpperarmL, UpperarmR, LowerarmL, LowerarmR], ThighL);
    assert [Head, Neck, UpperarmL, UpperarmR, LowerarmL, LowerarmR, ThighL] + [ThighR] == [Head, Neck, UpperarmL, UpperarmR, LowerarmL, LowerarmR, ThighL, ThighR];
    SaveRolesSnoc(m, s, b, [Head, Neck, UpperarmL, UpperarmR, LowerarmL, LowerarmR, ThighL], ThighR);
    assert [Head, Neck, UpperarmL, UpperarmR, LowerarmL, LowerarmR, ThighL, ThighR] + [CalfL] == [Head, Neck, UpperarmL, UpperarmR, LowerarmL, LowerarmR, ThighL, ThighR, CalfL];
    SaveRolesSnoc(m, s, b, [Head, Neck, UpperarmL, UpperarmR, LowerarmL, LowerarmR, ThighL, ThighR], CalfL);
    assert [Head, Neck, UpperarmL, UpperarmR, LowerarmL, LowerarmR, ThighL, ThighR, CalfL] + [CalfR] == [Head, Neck, UpperarmL, UpperarmR, LowerarmL, LowerarmR, ThighL, ThighR, CalfL, CalfR];
    SaveRolesSnoc(m, s, b, [Head, Neck, UpperarmL, UpperarmR, LowerarmL, LowerarmR, ThighL, ThighR, CalfL], CalfR);
  }

  /** One more `save` call after the saves of `rs`. */
  lemma SaveRolesSnoc(m: map<Key, Euler>, s: seq<Node>, b: BoneSet, rs: seq<Role>, r: Role)
    requires InRange(b, |s|)
    ensures SaveRoles(m, s, b, rs + [r]) == Save(SaveRoles(m, s, b, rs), s, RoleKey(r), SlotOf(b, r))
  {
    assert (rs + [r])[..|rs|] == rs;
  }
}
