/** The per-frame idle and head-follow update: five sine oscillators, the
    offset formulas per joint, and the joint writes of one frame, each of
    them baseline plus offset. */
module Animation {
  import opened Skeleton
  import opened PoseInitializer
  import opened PointerTracker

  /** Values of the five oscillators at one instant. */
  datatype Cycles = Cycles(head: real, spine: real, body: real, arm: real, leg: real)

  /** `Math.sin` is abstract here: any function whose values lie in [-1, 1]. */
  ghost predicate SineBounded(sin: real -> real) {
    forall x :: -1.0 <= sin(x) <= 1.0
  }

  ghost predicate InUnit(c: Cycles) {
    && -1.0 <= c.head <= 1.0 && -1.0 <= c.spine <= 1.0 && -1.0 <= c.body <= 1.0
    && -1.0 <= c.arm <= 1.0 && -1.0 <= c.leg <= 1.0
  }

  /** The oscillator bank at elapsed time `t`: frequencies 0.7, 1.0, 1.3, 1.1
      and 1.3, phases 0, 0, 0, 0.5 and 1.0. */
  function Oscillate(t: real, sin: real -> real): (c: Cycles)
    ensures SineBounded(sin) ==> InUnit(c)
  {
    Cycles(sin(t * 0.7), sin(t * 1.0), sin(t * 1.3), sin(t * 1.1 + 0.5), sin(t * 1.3 + 1.0))
  }

  /** Head: x follows the pointer, y nods with the pointer and the head cycle,
      z is reset to the baseline. */
  function HeadRot(base: Euler, m: Vec2, headCycle: real): (r: Euler)
    ensures r.z == base.z
    ensures Abs(m.x) <= 1.0 ==> Abs(r.x - base.x) <= 0.15
    ensures Abs(m.y) <= 1.0 && Abs(headCycle) <= 1.0 ==> Abs(r.y - base.y) <= 0.115
  {
    Euler(base.x + m.x * 0.15, base.y - m.y * 0.10 + headCycle * 0.015, base.z)
  }

  /** Neck: the head's motion, scaled down. */
  function NeckRot(base: Euler, m: Vec2, headCycle: real): (r: Euler)
    ensures r.z == base.z
    ensures Abs(m.x) <= 1.0 ==> Abs(r.x - base.x) <= 0.06
    ensures Abs(m.y) <= 1.0 && Abs(headCycle) <= 1.0 ==> Abs(r.y - base.y) <= 0.048
  {
    Euler(base.x + m.x * 0.06, base.y - m.y * 0.04 + headCycle * 0.008, base.z)
  }

  /** Spine segment j: only z is written, leaning by at most 0.006 + 0.003 j. */
  function SpineRot(prev: Euler, base: Euler, j: nat, spineCycle: real): (r: Euler)
    ensures r.x == prev.x && r.y == prev.y
    ensures Abs(spineCycle) <= 1.0 ==> Abs(r.z - base.z) <= 0.006 + 0.003 * j as real
  {
    var w := 0.006 + j as real * 0.003;
    ScaledBound(spineCycle, w);
    prev.(z := base.z + spineCycle * w)
  }

  lemma ScaledBound(a: real, w: real)
    requires w >= 0.0
    ensures Abs(a) <= 1.0 ==> Abs(a * w) <= w
  {
    if -1.0 <= a < 0.0 {
      assert (1.0 + a) * w >= 0.0;
    } else if 0.0 <= a <= 1.0 {
      assert (1.0 - a) * w >= 0.0;
    }
  }

  /** Lower arm (either side): only y is written. */
  function ElbowRot(prev: Euler, base: Euler, armCycle: real): (r: Euler)
    ensures r.x == prev.x && r.z == prev.z
    ensures Abs(armCycle) <= 1.0 ==> Abs(r.y - base.y) <= 0.03
  {
    prev.(y := base.y + armCycle * 0.03)
  }

  /** Thigh (either side): only z is written. */
  function ThighRot(prev: Euler, base: Euler, legCycle: real): (r: Euler)
    ensures r.x == prev.x && r.y == prev.y
    ensures Abs(legCycle) <= 1.0 ==> Abs(r.z - base.z) <= 0.008
  {
    prev.(z := base.z + legCycle * 0.008)
  }

  /** Calf (either side): only z is written, against the thigh. */
  function CalfRot(prev: Euler, base: Euler, legCycle: real): (r: Euler)
    ensures r.x == prev.x && r.y == prev.y
    ensures Abs(legCycle) <= 1.0 ==> Abs(r.z - base.z) <= 0.01
  {
    prev.(z := base.z - legCycle * 0.01)
  }

  /** The joint rows of the per-frame update that write a rotation from a
      single baseline entry. */
  datatype Row = HeadRow | NeckRow | ElbowRow | ThighRow | CalfRow

  /** A row writes its own axes from the baseline and keeps the others:
      head and neck reset z to the baseline, an elbow writes y only, a thigh
      or calf writes z only. */
  function RowRot(row: Row, prev: Euler, base: Euler, c: Cycles, m: Vec2): (r: Euler)
    ensures row.HeadRow? || row.NeckRow? ==> r.z == base.z
    ensures row.ElbowRow? ==> r.x == prev.x && r.z == prev.z
    ensures row.ThighRow? || row.CalfRow? ==> r.x == prev.x && r.y == prev.y
  {
    match row
    case HeadRow => HeadRot(base, m, c.head)
    case NeckRow => NeckRot(base, m, c.head)
    case ElbowRow => ElbowRot(prev, base, c.arm)
    case ThighRow => ThighRot(prev, base, c.leg)
    case CalfRow => CalfRot(prev, base, c.leg)
  }

  /** `o.get(key)`: the baseline entry, if any. */
  function Lookup(o: map<Key, Euler>, k: Key): Option<Euler> {
    if k in o then Some(o[k]) else None
  }

  /** One node after its row is applied; nothing happens without a baseline. */
  function RowNode(n: Node, row: Row, base: Option<Euler>, c: Cycles, m: Vec2): (r: Node)
    ensures r.name == n.name && r.isBone == n.isBone && r.posY == n.posY
    ensures base.None? ==> r == n
  {
    if base.Some? then n.(rot := RowRot(row, n.rot, base.value, c, m)) else n
  }

  /* The frame as stages over the whole scene. Each stage changes every node
     independently of the others, so its effect is stated node by node, and
     the frame's effect on node k is the composition of the stages' effects
     on node k (`NodeFrame`). */

  /** What the row of role `r` does to node k. */
  function RoleStep(n: Node, k: nat, b: BoneSet, r: Role, row: Row, o: map<Key, Euler>, c: Cycles, m: Vec2): Node {
    if SlotOf(b, r) == Some(k) then RowNode(n, row, Lookup(o, RoleKey(r)), c, m) else n
  }

  /** One row of the frame: applied when the slot holds a bone and the bone has a baseline. */
  function WriteRow(s: seq<Node>, b: BoneSet, r: Role, row: Row, o: map<Key, Euler>, c: Cycles, m: Vec2): (res: seq<Node>)
    requires SlotOf(b, r).Some? ==> SlotOf(b, r).value < |s|
    ensures |res| == |s|
    ensures forall k :: 0 <= k < |s| && SlotOf(b, r) != Some(k) ==> res[k] == s[k]
  {
    if SlotOf(b, r).Some? then
      var i := SlotOf(b, r).value;
      s[i := RowNode(s[i], row, Lookup(o, RoleKey(r)), c, m)]
    else s
  }

  /** The row of role `r` changes node k exactly as `RoleStep` says. */
  lemma WriteRowAt(s: seq<Node>, b: BoneSet, r: Role, row: Row, o: map<Key, Euler>, c: Cycles, m: Vec2, k: nat)
    requires SlotOf(b, r).Some? ==> SlotOf(b, r).value < |s|
    requires k < |s|
    ensures WriteRow(s, b, r, row, o, c, m)[k] == RoleStep(s[k], k, b, r, row, o, c, m)
  {
  }

  /** Spine segment j after the frame; nothing happens without a baseline. */
  function SpineNode(n: Node, j: nat, base: Option<Euler>, spineCycle: real): Node {
    if base.Some? then n.(rot := SpineRot(n.rot, base.value, j, spineCycle)) else n
  }

  /** What the first `len` iterations of the spine loop do to node k. */
  function SpineStep(n: Node, k: nat, spine: seq<nat>, o: map<Key, Euler>, spineCycle: real, len: nat): Node
    requires len <= |spine|
  {
    if len == 0 then n
    else
      var prev := SpineStep(n, k, spine, o, spineCycle, len - 1);
      if spine[len - 1] == k then SpineNode(prev, len - 1, Lookup(o, SpineKey(len - 1)), spineCycle) else prev
  }

  /** The `forEach` over the first `n` spine segments. */
  function SpineWrites(s: seq<Node>, spine: seq<nat>, o: map<Key, Euler>, spineCycle: real, n: nat): (r: seq<Node>)
    requires n <= |spine|
    requires forall j :: 0 <= j < |spine| ==> spine[j] < |s|
    ensures |r| == |s|
    ensures forall k :: 0 <= k < |s| && (forall j :: 0 <= j < n ==> spine[j] != k) ==> r[k] == s[k]
  {
    if n == 0 then s
    else
      var r := SpineWrites(s, spine, o, spineCycle, n - 1);
      var i := spine[n - 1];
      r[i := SpineNode(r[i], n - 1, Lookup(o, SpineKey(n - 1)), spineCycle)]
  }

  /** The first `n` iterations of the spine loop change node k exactly as
      `SpineStep` says. */
  lemma {:induction false} SpineWritesAt(s: seq<Node>, spine: seq<nat>, o: map<Key, Euler>, spineCycle: real, n: nat, k: nat)
    requires n <= |spine|
    requires forall j :: 0 <= j < |spine| ==> spine[j] < |s|
    requires k < |s|
    ensures SpineWrites(s, spine, o, spineCycle, n)[k] == SpineStep(s[k], k, spine, o, spineCycle, n)
  {
    if n > 0 {
      SpineWritesAt(s, spine, o, spineCycle, n - 1, k);
    }
  }

  /** What the pelvis bob does to node k. */
  function PelvisStep(n: Node, k: nat, b: BoneSet, y: real): Node {
    if SlotOf(b, Pelvis) == Some(k) then n.(posY := y) else n
  }

  /** The pelvis bob: the pelvis' height becomes `y`. */
  function SetPelvis(s: seq<Node>, b: BoneSet, y: real): (r: seq<Node>)
    requires SlotOf(b, Pelvis).Some? ==> SlotOf(b, Pelvis).value < |s|
    ensures |r| == |s|
    ensures forall k :: 0 <= k < |s| && SlotOf(b, Pelvis) != Some(k) ==> r[k] == s[k]
    ensures forall k :: 0 <= k < |s| ==> r[k].rot == s[k].rot
  {
    if SlotOf(b, Pelvis).Some? then
      var i := SlotOf(b, Pelvis).value;
      s[i := s[i].(posY := y)]
    else s
  }

  /** The bob changes node k exactly as `PelvisStep` says. */
  lemma SetPelvisAt(s: seq<Node>, b: BoneSet, y: real, k: nat)
    requires SlotOf(b, Pelvis).Some? ==> SlotOf(b, Pelvis).value < |s|
    requires k < |s|
    ensures SetPelvis(s, b, y)[k] == PelvisStep(s[k], k, b, y)
  {
  }

  /** The height the pelvis bob writes: `origPelvisY + bodyCycle * 0.003`. */
  function PelvisHeight(pelvisY: real, c: Cycles): (y: real)
    ensures -1.0 <= c.body <= 1.0 ==> pelvisY - 0.003 <= y <= pelvisY + 0.003
  {
    pelvisY + c.body * 0.003
  }

  /** The scene's nodes after one frame with oscillator values `c` and
      smoothed pointer `m`, writing the rows in the order the frame applies them. */
  function FrameWrites(p: Pose, b: BoneSet, c: Cycles, m: Vec2): (r: seq<Node>)
    requires InRange(b, |p.nodes|)
    ensures |r| == |p.nodes|
  {
    var o := p.orig;
    var s := WriteRow(p.nodes, b, Head, HeadRow, o, c, m);
    var s := WriteRow(s, b, Neck, NeckRow, o, c, m);
    var s := SpineWrites(s, b.spine, o, c.spine, |b.spine|);
    var s := SetPelvis(s, b, PelvisHeight(p.pelvisY, c));
    var s := WriteRow(s, b, LowerarmL, ElbowRow, o, c, m);
    var s := WriteRow(s, b, LowerarmR, ElbowRow, o, c, m);
    var s := WriteRow(s, b, ThighL, ThighRow, o, c, m);
    var s := WriteRow(s, b, ThighR, ThighRow, o, c, m);
    var s := WriteRow(s, b, CalfL, CalfRow, o, c, m);
    WriteRow(s, b, CalfR, CalfRow, o, c, m)
  }

  /** What one frame does to node `n` at index k: the stages of the frame,
      node by node, in the same order. */
  function NodeFrame(n: Node, k: nat, b: BoneSet, o: map<Key, Euler>, pelvisY: real, c: Cycles, m: Vec2): Node {
    var n := RoleStep(n, k, b, Head, HeadRow, o, c, m);
    var n := RoleStep(n, k, b, Neck, NeckRow, o, c, m);
    var n := SpineStep(n, k, b.spine, o, c.spine, |b.spine|);
    var n := PelvisStep(n, k, b, PelvisHeight(pelvisY, c));
    var n := RoleStep(n, k, b, LowerarmL, ElbowRow, o, c, m);
    var n := RoleStep(n, k, b, LowerarmR, ElbowRow, o, c, m);
    var n := RoleStep(n, k, b, ThighL, ThighRow, o, c, m);
    var n := RoleStep(n, k, b, ThighR, ThighRow, o, c, m);
    var n := RoleStep(n, k, b, CalfL, CalfRow, o, c, m);
    RoleStep(n, k, b, CalfR, CalfRow, o, c, m)
  }

  /** The frame, node by node: node k ends up as `NodeFrame` of its value
      before the frame, whatever the rows write to the other nodes. */
  lemma FrameWritesAt(p: Pose, b: BoneSet, c: Cycles, m: Vec2, k: nat)
    requires InRange(b, |p.nodes|) && k < |p.nodes|
    ensures |FrameWrites(p, b, c, m)| == |p.nodes|
    ensures FrameWrites(p, b, c, m)[k] == NodeFrame(p.nodes[k], k, b, p.orig, p.pelvisY, c, m)
  {
    var o := p.orig;
    var s0 := p.nodes;
    var s1 := WriteRow(s0, b, Head, HeadRow, o, c, m);
    var s2 := WriteRow(s1, b, Neck, NeckRow, o, c, m);
    var s3 := SpineWrites(s2, b.spine, o, c.spine, |b.spine|);
    var s4 := SetPelvis(s3, b, PelvisHeight(p.pelvisY, c));
    var s5 := WriteRow(s4, b, LowerarmL, ElbowRow, o, c, m);
    var s6 := WriteRow(s5, b, LowerarmR, ElbowRow, o, c, m);
    var s7 := WriteRow(s6, b, ThighL, ThighRow, o, c, m);
    var s8 := WriteRow(s7, b, ThighR, ThighRow, o, c, m);
    var s9 := WriteRow(s8, b, CalfL, CalfRow, o, c, m);
    WriteRowAt(s0, b, Head, HeadRow, o, c, m, k);
    WriteRowAt(s1, b, Neck, NeckRow, o, c, m, k);
    SpineWritesAt(s2, b.spine, o, c.spine, |b.spine|, k);
    SetPelvisAt(s3, b, PelvisHeight(p.pelvisY, c), k);
    WriteRowAt(s4, b, LowerarmL, ElbowRow, o, c, m, k);
    WriteRowAt(s5, b, LowerarmR, ElbowRow, o, c, m, k);
    WriteRowAt(s6, b, ThighL, ThighRow, o, c, m, k);
    WriteRowAt(s7, b, ThighR, ThighRow, o, c, m, k);
    WriteRowAt(s8, b, CalfL, CalfRow, o, c, m, k);
    WriteRowAt(s9, b, CalfR, CalfRow, o, c, m, k);
  }

  /** The row a role's joint is animated with, if any. */
  function RowOf(r: Role): Option<Row> {
    match r
    case Head => Some(HeadRow)
    case Neck => Some(NeckRow)
    case LowerarmL => Some(ElbowRow)
    case LowerarmR => Some(ElbowRow)
    case ThighL => Some(ThighRow)
    case ThighR => Some(ThighRow)
    case CalfL => Some(CalfRow)
    case CalfR => Some(CalfRow)
    case _ => None
  }

  /** The nodes the frame may write: the joints with a row, the pelvis and
      the spine segments. */
  ghost predicate Animated(b: BoneSet, k: nat) {
    || k in b.spine
    || exists r :: SlotOf(b, r) == Some(k) && (r == Pelvis || RowOf(r).Some?)
  }

  /** A node the spine loop never reaches keeps its value. */
  lemma {:induction false} SpineStepOutside(n: Node, k: nat, spine: seq<nat>, o: map<Key, Euler>, spineCycle: real, len: nat)
    requires len <= |spine| && k !in spine[..len]
    ensures SpineStep(n, k, spine, o, spineCycle, len) == n
  {
    if len > 0 {
      assert spine[..len - 1] == spine[..len][..len - 1];
      SpineStepOutside(n, k, spine, o, spineCycle, len - 1);
    }
  }

  /** Spine segment j gets exactly its own write: the segments are distinct nodes. */
  lemma {:induction false} SpineStepAt(n: Node, spine: seq<nat>, o: map<Key, Euler>, spineCycle: real, len: nat, j: nat)
    requires len <= |spine| && j < len
    requires forall i, i' :: 0 <= i < i' < |spine| ==> spine[i] < spine[i']
    ensures SpineStep(n, spine[j], spine, o, spineCycle, len) == SpineNode(n, j, Lookup(o, SpineKey(j)), spineCycle)
  {
    if j == len - 1 {
      SpineStepOutside(n, spine[j], spine, o, spineCycle, len - 1);
    } else {
      SpineStepAt(n, spine, o, spineCycle, len - 1, j);
    }
  }

  /** A joint with a row ends up as its baseline plus that row's offset (or
      unchanged without a baseline), whatever the other rows write. */
  lemma NodeFrameAtJoint(n: Node, k: nat, b: BoneSet, o: map<Key, Euler>, pelvisY: real, c: Cycles, m: Vec2, r: Role)
    requires Disjoint(b) && SlotOf(b, r) == Some(k) && RowOf(r).Some?
    ensures NodeFrame(n, k, b, o, pelvisY, c, m) == RowNode(n, RowOf(r).value, Lookup(o, RoleKey(r)), c, m)
  {
    assert k !in b.spine;
    SpineStepOutside(RoleStep(RoleStep(n, k, b, Head, HeadRow, o, c, m), k, b, Neck, NeckRow, o, c, m),
      k, b.spine, o, c.spine, |b.spine|);
  }

  /** The pelvis keeps its rotation and gets the bob height. */
  lemma NodeFrameAtPelvis(n: Node, k: nat, b: BoneSet, o: map<Key, Euler>, pelvisY: real, c: Cycles, m: Vec2)
    requires Disjoint(b) && SlotOf(b, Pelvis) == Some(k)
    ensures NodeFrame(n, k, b, o, pelvisY, c, m) == n.(posY := pelvisY + c.body * 0.003)
  {
    assert RoleStep(n, k, b, Head, HeadRow, o, c, m) == n;
    assert RoleStep(n, k, b, Neck, NeckRow, o, c, m) == n;
    assert k !in b.spine;
    SpineStepOutside(n, k, b.spine, o, c.spine, |b.spine|);
    var n1 := n.(posY := pelvisY + c.body * 0.003);
    assert PelvisStep(n, k, b, PelvisHeight(pelvisY, c)) == n1;
    assert RoleStep(n1, k, b, LowerarmL, ElbowRow, o, c, m) == n1;
    assert RoleStep(n1, k, b, LowerarmR, ElbowRow, o, c, m) == n1;
    assert RoleStep(n1, k, b, ThighL, ThighRow, o, c, m) == n1;
    assert RoleStep(n1, k, b, ThighR, ThighRow, o, c, m) == n1;
    assert RoleStep(n1, k, b, CalfL, CalfRow, o, c, m) == n1;
  }

  /** Spine segment j ends up with its baseline plus the lean for j (or
      unchanged without a baseline). */
  lemma NodeFrameAtSpine(n: Node, b: BoneSet, o: map<Key, Euler>, pelvisY: real, c: Cycles, m: Vec2, j: nat)
    requires Disjoint(b) && j < |b.spine|
    ensures NodeFrame(n, b.spine[j], b, o, pelvisY, c, m) == SpineNode(n, j, Lookup(o, SpineKey(j)), c.spine)
  {
    SpineStepAt(n, b.spine, o, c.spine, |b.spine|, j);
  }

  /** A node the frame does not animate keeps its value. */
  lemma NodeFrameAtOther(n: Node, k: nat, b: BoneSet, o: map<Key, Euler>, pelvisY: real, c: Cycles, m: Vec2)
    requires !Animated(b, k)
    ensures NodeFrame(n, k, b, o, pelvisY, c, m) == n
  {
    assert b.spine[..|b.spine|] == b.spine;
    SpineStepOutside(n, k, b.spine, o, c.spine, |b.spine|);
  }

  /** Without baseline entries the spine loop changes nothing. */
  lemma {:induction false} SpineStepNoBaseline(n: Node, k: nat, spine: seq<nat>, spineCycle: real, len: nat)
    requires len <= |spine|
    ensures SpineStep(n, k, spine, map[], spineCycle, len) == n
  {
    if len > 0 {
      SpineStepNoBaseline(n, k, spine, spineCycle, len - 1);
    }
  }

  /** Without a baseline the frame does nothing to a node but the pelvis bob. */
  lemma NodeFrameNoBaseline(n: Node, k: nat, b: BoneSet, pelvisY: real, c: Cycles, m: Vec2)
    ensures NodeFrame(n, k, b, map[], pelvisY, c, m) == PelvisStep(n, k, b, PelvisHeight(pelvisY, c))
  {
    var o: map<Key, Euler> := map[];
    assert RoleStep(n, k, b, Head, HeadRow, o, c, m) == n;
    assert RoleStep(n, k, b, Neck, NeckRow, o, c, m) == n;
    SpineStepNoBaseline(n, k, b.spine, c.spine, |b.spine|);
    var n1 := PelvisStep(n, k, b, PelvisHeight(pelvisY, c));
    assert RoleStep(n1, k, b, LowerarmL, ElbowRow, o, c, m) == n1;
    assert RoleStep(n1, k, b, LowerarmR, ElbowRow, o, c, m) == n1;
    assert RoleStep(n1, k, b, ThighL, ThighRow, o, c, m) == n1;
    assert RoleStep(n1, k, b, ThighR, ThighRow, o, c, m) == n1;
    assert RoleStep(n1, k, b, CalfL, CalfRow, o, c, m) == n1;
  }

  /** The frame only ever changes a node's rotation and height: it never
      changes whether the node is a bone, nor its name. */
  lemma NodeFrameKeepsIdentity(n: Node, k: nat, b: BoneSet, o: map<Key, Euler>, pelvisY: real, c: Cycles, m: Vec2)
    ensures NodeFrame(n, k, b, o, pelvisY, c, m).name == n.name
    ensures NodeFrame(n, k, b, o, pelvisY, c, m).isBone == n.isBone
  {
    var n1 := RoleStep(n, k, b, Head, HeadRow, o, c, m);
    var n2 := RoleStep(n1, k, b, Neck, NeckRow, o, c, m);
    var n3 := SpineStep(n2, k, b.spine, o, c.spine, |b.spine|);
    SpineStepKeepsIdentity(n2, k, b.spine, o, c.spine, |b.spine|);
    var n4 := PelvisStep(n3, k, b, PelvisHeight(pelvisY, c));
    var n5 := RoleStep(n4, k, b, LowerarmL, ElbowRow, o, c, m);
    var n6 := RoleStep(n5, k, b, LowerarmR, ElbowRow, o, c, m);
    var n7 := RoleStep(n6, k, b, ThighL, ThighRow, o, c, m);
    var n8 := RoleStep(n7, k, b, ThighR, ThighRow, o, c, m);
    var n9 := RoleStep(n8, k, b, CalfL, CalfRow, o, c, m);
    assert n2.name == n.name && n2.isBone == n.isBone;
    assert n4.name == n.name && n4.isBone == n.isBone;
    assert n6.name == n.name && n6.isBone == n.isBone;
    assert n9.name == n.name && n9.isBone == n.isBone;
  }

  lemma {:induction false} SpineStepKeepsIdentity(n: Node, k: nat, spine: seq<nat>, o: map<Key, Euler>, spineCycle: real, len: nat)
    requires len <= |spine|
    ensures SpineStep(n, k, spine, o, spineCycle, len).name == n.name
    ensures SpineStep(n, k, spine, o, spineCycle, len).isBone == n.isBone
  {
    if len > 0 {
      SpineStepKeepsIdentity(n, k, spine, o, spineCycle, len - 1);
    }
  }

  /** A node under two frames is the node under the second frame alone:
      every written axis is recomputed from the baseline, and the axes a frame
      keeps are never written by any frame. */
  lemma NodeFrameNoDrift(n: Node, k: nat, b: BoneSet, o: map<Key, Euler>, pelvisY: real, c1: Cycles, m1: Vec2, c2: Cycles, m2: Vec2)
    requires Disjoint(b)
    ensures NodeFrame(NodeFrame(n, k, b, o, pelvisY, c1, m1), k, b, o, pelvisY, c2, m2) == NodeFrame(n, k, b, o, pelvisY, c2, m2)
  {
    if r :| SlotOf(b, r) == Some(k) && RowOf(r).Some? {
      JointNoDrift(n, k, b, o, pelvisY, c1, m1, c2, m2, r);
    } else if SlotOf(b, Pelvis) == Some(k) {
      PelvisNoDrift(n, k, b, o, pelvisY, c1, m1, c2, m2);
    } else if j :| 0 <= j < |b.spine| && b.spine[j] == k {
      SpineNoDrift(n, b, o, pelvisY, c1, m1, c2, m2, j);
    } else {
      NodeFrameAtOther(n, k, b, o, pelvisY, c1, m1);
      NodeFrameAtOther(n, k, b, o, pelvisY, c2, m2);
    }
  }

  lemma JointNoDrift(n: Node, k: nat, b: BoneSet, o: map<Key, Euler>, pelvisY: real, c1: Cycles, m1: Vec2, c2: Cycles, m2: Vec2, r: Role)
    requires Disjoint(b) && SlotOf(b, r) == Some(k) && RowOf(r).Some?
    ensures NodeFrame(NodeFrame(n, k, b, o, pelvisY, c1, m1), k, b, o, pelvisY, c2, m2) == NodeFrame(n, k, b, o, pelvisY, c2, m2)
  {
    var n1 := NodeFrame(n, k, b, o, pelvisY, c1, m1);
    NodeFrameAtJoint(n, k, b, o, pelvisY, c1, m1, r);
    NodeFrameAtJoint(n1, k, b, o, pelvisY, c2, m2, r);
    NodeFrameAtJoint(n, k, b, o, pelvisY, c2, m2, r);
  }

  lemma PelvisNoDrift(n: Node, k: nat, b: BoneSet, o: map<Key, Euler>, pelvisY: real, c1: Cycles, m1: Vec2, c2: Cycles, m2: Vec2)
    requires Disjoint(b) && SlotOf(b, Pelvis) == Some(k)
    ensures NodeFrame(NodeFrame(n, k, b, o, pelvisY, c1, m1), k, b, o, pelvisY, c2, m2) == NodeFrame(n, k, b, o, pelvisY, c2, m2)
  {
    var n1 := NodeFrame(n, k, b, o, pelvisY, c1, m1);
    NodeFrameAtPelvis(n, k, b, o, pelvisY, c1, m1);
    NodeFrameAtPelvis(n1, k, b, o, pelvisY, c2, m2);
    NodeFrameAtPelvis(n, k, b, o, pelvisY, c2, m2);
  }

  lemma SpineNoDrift(n: Node, b: BoneSet, o: map<Key, Euler>, pelvisY: real, c1: Cycles, m1: Vec2, c2: Cycles, m2: Vec2, j: nat)
    requires Disjoint(b) && j < |b.spine|
    ensures var k := b.spine[j];
      NodeFrame(NodeFrame(n, k, b, o, pelvisY, c1, m1), k, b, o, pelvisY, c2, m2) == NodeFrame(n, k, b, o, pelvisY, c2, m2)
  {
    var n1 := NodeFrame(n, b.spine[j], b, o, pelvisY, c1, m1);
    NodeFrameAtSpine(n, b, o, pelvisY, c1, m1, j);
    NodeFrameAtSpine(n1, b, o, pelvisY, c2, m2, j);
    NodeFrameAtSpine(n, b, o, pelvisY, c2, m2, j);
  }

  /** No drift: a frame at one time and pointer position followed by a frame
      at another leaves the scene exactly as the second frame alone would,
      because every written value is baseline plus offset and never builds on
      the value an earlier frame wrote. */
  lemma FrameNoDrift(p: Pose, b: BoneSet, c1: Cycles, m1: Vec2, c2: Cycles, m2: Vec2)
    requires InRange(b, |p.nodes|) && Disjoint(b)
    ensures FrameWrites(p.(nodes := FrameWrites(p, b, c1, m1)), b, c2, m2) == FrameWrites(p, b, c2, m2)
  {
    var r1 := FrameWrites(p, b, c1, m1);
    var p1 := p.(nodes := r1);
    var r2 := FrameWrites(p1, b, c2, m2);
    var r := FrameWrites(p, b, c2, m2);
    forall k | 0 <= k < |r1|
      ensures r2[k] == r[k]
    {
      FrameWritesAt(p, b, c1, m1, k);
      FrameWritesAt(p1, b, c2, m2, k);
      FrameWritesAt(p, b, c2, m2, k);
      NodeFrameNoDrift(p.nodes[k], k, b, p.orig, p.pelvisY, c1, m1, c2, m2);
    }
  }

  /** In particular a frame repeated with the same time and pointer changes nothing. */
  lemma FrameIdempotent(p: Pose, b: BoneSet, c: Cycles, m: Vec2)
    requires InRange(b, |p.nodes|) && Disjoint(b)
    ensures FrameWrites(p.(nodes := FrameWrites(p, b, c, m)), b, c, m) == FrameWrites(p, b, c, m)
  {
    FrameNoDrift(p, b, c, m, c, m);
  }

  /** The frame moves rotations and the pelvis height only: which nodes are
      bones, their names, and so the resolved bone slots stay as they were. */
  lemma FrameKeepsBones(p: Pose, b: BoneSet, c: Cycles, m: Vec2)
    requires WellFormed(b, p.nodes) && b == Resolution(p.nodes)
    ensures InRange(b, |p.nodes|)
    ensures Resolution(FrameWrites(p, b, c, m)) == b
    ensures WellFormed(b, FrameWrites(p, b, c, m))
  {
    SlotsDistinct(b, p.nodes);
    var r := FrameWrites(p, b, c, m);
    forall k | 0 <= k < |r|
      ensures r[k].isBone == p.nodes[k].isBone && r[k].name == p.nodes[k].name
    {
      FrameWritesAt(p, b, c, m, k);
      NodeFrameKeepsIdentity(p.nodes[k], k, b, p.orig, p.pelvisY, c, m);
    }
    assert SameBones(p.nodes, r);
    ResolutionSeesOnlyBones(p.nodes, r);
    WellFormedSameBones(b, p.nodes, r);
  }

  /** Before initialisation (empty baseline) a frame moves nothing but the
      pelvis, which it sets to the stored pelvis height plus the bob. */
  lemma FrameBeforeInit(p: Pose, b: BoneSet, c: Cycles, m: Vec2)
    requires InRange(b, |p.nodes|) && p.orig == map[]
    ensures FrameWrites(p, b, c, m) == SetPelvis(p.nodes, b, PelvisHeight(p.pelvisY, c))
  {
    forall k | 0 <= k < |p.nodes|
      ensures FrameWrites(p, b, c, m)[k] == SetPelvis(p.nodes, b, PelvisHeight(p.pelvisY, c))[k]
    {
      FrameWritesAt(p, b, c, m, k);
      NodeFrameNoBaseline(p.nodes[k], k, b, p.pelvisY, c, m);
    }
  }

  /** A joint with a row, in the whole frame: baseline plus that row's
      offset (or unchanged without a baseline). */
  lemma FrameAtJoint(p: Pose, b: BoneSet, c: Cycles, m: Vec2, k: nat, r: Role)
    requires InRange(b, |p.nodes|) && Disjoint(b) && k < |p.nodes|
    requires SlotOf(b, r) == Some(k) && RowOf(r).Some?
    ensures FrameWrites(p, b, c, m)[k] == RowNode(p.nodes[k], RowOf(r).value, Lookup(p.orig, RoleKey(r)), c, m)
  {
    FrameWritesAt(p, b, c, m, k);
    NodeFrameAtJoint(p.nodes[k], k, b, p.orig, p.pelvisY, c, m, r);
  }

  /** The offset the frame gives the joint of role `r` on the axis its row writes. */
  function Offset(f: seq<Node>, o: map<Key, Euler>, r: Role, k: nat): real
    requires k < |f| && RoleKey(r) in o
  {
    if RowOf(r) == Some(ElbowRow) then f[k].rot.y - o[RoleKey(r)].y else f[k].rot.z - o[RoleKey(r)].z
  }

  /** The offset of a limb row: elbow swing, thigh sway, calf counter-sway. */
  function LimbOffset(row: Row, c: Cycles): real {
    match row
    case ElbowRow => c.arm * 0.03
    case ThighRow => c.leg * 0.008
    case CalfRow => -(c.leg * 0.01)
    case _ => 0.0
  }

  predicate IsLimbRow(row: Option<Row>) {
    row == Some(ElbowRow) || row == Some(ThighRow) || row == Some(CalfRow)
  }

  /** A limb row moves its joint from the baseline by the row's offset. */
  lemma RowNodeOffset(n: Node, row: Row, base: Euler, c: Cycles, m: Vec2)
    requires IsLimbRow(Some(row))
    ensures row == ElbowRow ==> RowNode(n, row, Some(base), c, m).rot.y - base.y == LimbOffset(row, c)
    ensures row != ElbowRow ==> RowNode(n, row, Some(base), c, m).rot.z - base.z == LimbOffset(row, c)
  {
  }

  /** A limb joint with a baseline is offset from its baseline by its row's
      offset, which depends on the oscillators alone: not on the side, the
      node's previous value or the baseline. */
  lemma FrameLimbOffset(p: Pose, b: BoneSet, c: Cycles, m: Vec2, r: Role, k: nat)
    requires InRange(b, |p.nodes|) && Disjoint(b)
    requires SlotOf(b, r) == Some(k) && IsLimbRow(RowOf(r)) && RoleKey(r) in p.orig
    ensures Offset(FrameWrites(p, b, c, m), p.orig, r, k) == LimbOffset(RowOf(r).value, c)
  {
    var f := FrameWrites(p, b, c, m);
    var base := p.orig[RoleKey(r)];
    FrameAtJoint(p, b, c, m, k, r);
    assert f[k] == RowNode(p.nodes[k], RowOf(r).value, Some(base), c, m);
    RowNodeOffset(p.nodes[k], RowOf(r).value, base, c, m);
  }

  /** Left and right sides move together: two joints animated with the same
      limb row get the same offset. */
  lemma FrameSymmetry(p: Pose, b: BoneSet, c: Cycles, m: Vec2, l: Role, r: Role, kl: nat, kr: nat)
    requires InRange(b, |p.nodes|) && Disjoint(b)
    requires RowOf(l) == RowOf(r) && IsLimbRow(RowOf(l))
    requires SlotOf(b, l) == Some(kl) && SlotOf(b, r) == Some(kr)
    requires RoleKey(l) in p.orig && RoleKey(r) in p.orig
    ensures Offset(FrameWrites(p, b, c, m), p.orig, l, kl) == Offset(FrameWrites(p, b, c, m), p.orig, r, kr)
  {
    FrameLimbOffset(p, b, c, m, l, kl);
    FrameLimbOffset(p, b, c, m, r, kr);
  }

  /** On each leg the calf counter-rotates the thigh: the thigh's offset is
      -0.8 times the calf's, so the two never lean the same way. */
  lemma LegCounterRotation(p: Pose, b: BoneSet, c: Cycles, m: Vec2, thigh: Role, calf: Role, kt: nat, kc: nat)
    requires InRange(b, |p.nodes|) && Disjoint(b)
    requires RowOf(thigh) == Some(ThighRow) && RowOf(calf) == Some(CalfRow)
    requires SlotOf(b, thigh) == Some(kt) && SlotOf(b, calf) == Some(kc)
    requires RoleKey(thigh) in p.orig && RoleKey(calf) in p.orig
    ensures Offset(FrameWrites(p, b, c, m), p.orig, thigh, kt) == -0.8 * Offset(FrameWrites(p, b, c, m), p.orig, calf, kc)
  {
    FrameLimbOffset(p, b, c, m, thigh, kt);
    FrameLimbOffset(p, b, c, m, calf, kc);
  }
}
