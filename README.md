# Procedural idle and head-follow animator

This project models the animator of a rigged character, written in Dafny and verified by Dafny's verifier. The original is `components/CharacterModel.tsx`, a React Three Fiber component. The animator has four parts:

1. **Bone resolution.** One traversal of the loaded scene fills a bone set: eleven named single-valued slots (pelvis, head, neck, upper and lower arms, thighs, calves) and a spine list collecting `spine_03`, `spine_04` and `spine_05` in traversal order. A missing bone leaves its slot empty.
2. **One-time initialisation.** It is guarded by an `initialized` flag and runs only when the spine list is non-empty. It first applies a corrective arm pose: both upper arms +0.25, left lower arm −0.35 and right lower arm +0.05, all on the y axis. Only then does it snapshot a baseline rotation for every spine segment and every present joint except the pelvis, whose height is saved instead.
3. **Pointer tracking.** The pointer listener normalises the pointer position to [−1, 1]. Each frame moves a smoothed copy 3 % of the way toward that target.
4. **The per-frame update.** Five sine oscillators drive the motion. The head and neck follow the smoothed pointer. The spine leans, the pelvis bobs, the elbows swing, and the thighs sway with the calves counter-swaying. Every written axis is *baseline + offset*. Joints that are absent or have no baseline are skipped.

Modules:

- `Skeleton` (`skeleton.dfy`) holds:
  - the node and bone-set data;
  - the resolution traversal `Resolve`, a loop over the scene array, proved against the specification function `Resolution`.
- `PoseInitializer` (`pose_initializer.dfy`) holds the specification of the init block:
  - `StaticPose`, `Baseline` and `Initialize` over the value `Pose`: the nodes, the baseline map, the pelvis baseline and the guard;
  - the lemmas about them.
- `PointerTracker` (`pointer_tracker.dfy`) holds the normalisation and smoothing formulas and their convergence.
- `Animation` (`animation.dfy`) holds:
  - the oscillators and the per-joint offset formulas;
  - `FrameWrites`, the whole frame as stages over the scene;
  - `NodeFrame`, the same frame node by node, joined to `FrameWrites` by `FrameWritesAt`;
  - the no-drift, symmetry and before-initialisation lemmas.
- `CharacterModel` (`character_model.dfy`) holds the class `Character`, the component's mutable state:
  - the scene array and the resolved bones;
  - the `orig`, `origPelvisY`, `initialized`, `mouseTarget` and `mouseCurrent` refs as fields.

  Its methods `Init`, `OnMouseMove` and `Frame` update the fields and the array in place. Each is proved to produce exactly the state the specification functions describe, and to keep the invariant `Valid`: the slots are the scene's bones, and nothing is stored before initialisation.

How the abstractions work:

- The scene is an array of nodes in traversal order. A slot is an optional index into it.
- Baseline keys are the datatype `Key`: `SpineKey(i)` for `spine_${i}` and `RoleKey(r)` for the keys `'head'`, `'neck'`, `'upperarmL'`, … .
- `Math.sin` is a parameter `sin: real -> real`. The bound lemmas assume only that its values lie in [−1, 1].
- Elapsed time `t` is a parameter of `Frame`.

One behaviour of the source is modelled as written. When the scene has no spine bone, the init block never runs and `origPelvisY` stays 0. Every frame still sets the pelvis height to `0 + bodyCycle · 0.003`, because the pelvis bob is not guarded by a baseline. `Animation.FrameBeforeInit` states what a frame does with an empty baseline.

## Model

| member | source | states |
|---|---|---|
| Skeleton.RoleName | components/CharacterModel.tsx:38-48 | the exact bone name each role is matched against (`neck_01` for the neck); no contract of its own: `RoleNamesDistinct` states that the names are pairwise distinct and differ from the spine names |
| Skeleton.Visit | components/CharacterModel.tsx:35-49 | specification of the traversal callback; no contract of its own: `VisitSlot` states its effect on each slot, `VisitBone` implements it |
| Skeleton.Resolution | components/CharacterModel.tsx:27-52 | specification of the whole traversal; its own contract says only that the spine list is no longer than the scene; `ResolutionSlot` and `ResolutionSpine` state the rest |
| Skeleton.VisitBone | components/CharacterModel.tsx:35-49 | the traversal callback on one node equals `Visit`: the spine test, then one exact-name test per role, for bones only |
| Skeleton.Resolve | components/CharacterModel.tsx:27-52 | walking the scene array in order yields exactly `Resolution` of the scene |
| Skeleton.VisitSlot | components/CharacterModel.tsx:38-48 | one visit sets a role's slot to the node's index exactly when the node is a bone with that role's name, and otherwise leaves the slot alone |
| Skeleton.ResolutionSlot | components/CharacterModel.tsx:38-48 | a slot is empty iff no bone has the role's name; otherwise it holds the LAST such bone in traversal order |
| Skeleton.ResolutionSpine | components/CharacterModel.tsx:37 | the spine list holds only bones named `spine_03`/`spine_04`/`spine_05`, strictly in traversal order, and every such bone is in it |
| Skeleton.ResolutionSeesOnlyBones | components/CharacterModel.tsx:35-36 | two scenes with the same bones and bone names resolve to the same bone set: non-bone nodes, rotations and heights never affect a slot |
| Skeleton.ResolutionWellFormed | components/CharacterModel.tsx:34-50 | every resolved slot names a bone with its role's name, and the spine list is increasing |
| Skeleton.RoleNamesDistinct | components/CharacterModel.tsx:37-48 | the eleven role names are pairwise distinct and none is a spine name |
| Skeleton.SlotsDistinct | components/CharacterModel.tsx:37-48 | in a well-formed bone set no two roles share a node, no role shares a node with a spine segment, and all indices are in range |
| PoseInitializer.AddY | components/CharacterModel.tsx:84-89 | one guarded `rotation.y += d`: the length is preserved and no node's bone flag or name changes; the per-node effect is in `AddYEffect` |
| PoseInitializer.StaticPose | components/CharacterModel.tsx:84-89 | the four pose adjustments: the length is preserved and no node's bone flag or name changes; the rotations are in `StaticPoseEffect` |
| PoseInitializer.SpineBaseline | components/CharacterModel.tsx:92 | the spine entries: the keys are exactly `spine_0` … `spine_{n-1}`; the values are in `SpineBaselineContents` |
| PoseInitializer.Save | components/CharacterModel.tsx:77-79 | the `save` helper; no contract of its own: `SaveRolesContents` states what repeated saves add and keep |
| PoseInitializer.SaveRoles | components/CharacterModel.tsx:93-102 | the `save` calls for a list of roles, in order; no contract of its own: `SaveRolesContents` states its keys and values |
| PoseInitializer.Baseline | components/CharacterModel.tsx:91-102 | the whole baseline map; no contract of its own: `BaselineContents` states its keys and values |
| PoseInitializer.AddYEffect | components/CharacterModel.tsx:84-89 | `rotation.y += d` changes the slot's y rotation by d and nothing else |
| PoseInitializer.StaticPoseEffect | components/CharacterModel.tsx:84-89 | the static pose changes only y rotations, only of the four arm bones: +0.25, +0.25, −0.35, +0.05 |
| PoseInitializer.SpineBaselineContents | components/CharacterModel.tsx:92 | the spine loop saves `spine_0` … `spine_{n-1}`, each with its segment's rotation |
| PoseInitializer.SaveRolesContents | components/CharacterModel.tsx:77-79 | the `save` calls add exactly the keys of the present roles, with their bones' rotations, and keep every other entry |
| PoseInitializer.BaselineContents | components/CharacterModel.tsx:91-102 | the baseline's keys are exactly the spine keys plus the present non-pelvis roles, each mapped to the current rotation |
| PoseInitializer.BaselineAfterPose | components/CharacterModel.tsx:84-102 | the arm baselines are taken after the pose: rest y + 0.25, + 0.25, − 0.35, + 0.05 |
| PoseInitializer.BaselineKeys | components/CharacterModel.tsx:91-104 | after initialisation the baseline holds exactly the expected keys, and the pelvis baseline is the pelvis height (unchanged without a pelvis) |
| PoseInitializer.BaselineRestJoints | components/CharacterModel.tsx:93-101 | head, neck, thigh and calf baselines are their rest rotations |
| PoseInitializer.BaselineRestSpine | components/CharacterModel.tsx:92 | spine baselines are the segments' rest rotations |
| PoseInitializer.Initialize | components/CharacterModel.tsx:73-75 | the guard: when already initialised or with an empty spine nothing changes; otherwise the flag becomes true |
| PoseInitializer.InitializeOnce | components/CharacterModel.tsx:73-75 | initialising twice equals initialising once |
| PoseInitializer.InitializeKeepsBones | components/CharacterModel.tsx:73-106 | initialisation never changes which nodes are bones or their names, so the resolved bone set stays valid |
| PointerTracker.Normalize | components/CharacterModel.tsx:66-67 | a position within the extent maps into [−1, 1], 0 to −1, the extent to 1, and the map is invertible |
| PointerTracker.NormalizeMonotone | components/CharacterModel.tsx:66-67 | normalisation preserves the order of positions |
| PointerTracker.Smooth | components/CharacterModel.tsx:114-116 | one lerp step leaves 0.97 of the gap, never overshoots, and stays in [−1, 1] when both ends are |
| PointerTracker.SmoothPointer | components/CharacterModel.tsx:115-116 | both axes are smoothed: each gap to the target shrinks by 0.97, and a pointer inside [−1, 1]² stays inside |
| PointerTracker.SmoothN | components/CharacterModel.tsx:114-116 | after any number of frames with a fixed target the value stays between its start and the target |
| PointerTracker.SmoothNGap | components/CharacterModel.tsx:114-116 | after n frames with a fixed target the gap is 0.97ⁿ times the first gap |
| PointerTracker.PowBound | components/CharacterModel.tsx:114 | 0.97ⁿ is positive and at most 1/(1 + 0.03 n) |
| PointerTracker.SmoothingConverges | components/CharacterModel.tsx:114-116 | with a fixed target the smoothed value stays on its side, approaches monotonically, and the gap after n frames is at most the first gap / (1 + 0.03 n) |
| Animation.Oscillate | components/CharacterModel.tsx:121-125 | with a sine bounded by 1 all five cycles lie in [−1, 1] |
| Animation.HeadRot | components/CharacterModel.tsx:129-134 | head z is reset to the baseline; with the pointer in [−1, 1] the head turns by at most 0.15 and nods by at most 0.115 |
| Animation.NeckRot | components/CharacterModel.tsx:135-140 | neck z is reset to the baseline; offsets at most 0.06 and 0.048 |
| Animation.SpineRot | components/CharacterModel.tsx:143-147 | only z is written; segment j leans by at most 0.006 + 0.003 j |
| Animation.ElbowRot | components/CharacterModel.tsx:155-162 | only y is written, within 0.03 of the baseline |
| Animation.ThighRot | components/CharacterModel.tsx:165-172 | only z is written, within 0.008 of the baseline |
| Animation.CalfRot | components/CharacterModel.tsx:175-182 | only z is written, within 0.01 of the baseline |
| Animation.RowRot | components/CharacterModel.tsx:129-182 | each row writes only its own axes: head and neck reset z to the baseline, an elbow keeps x and z, a thigh or calf keeps x and y |
| Animation.RowNode | components/CharacterModel.tsx:129-182 | a row never changes a node's bone flag, name or height, and changes nothing when the joint has no baseline |
| Animation.WriteRow | components/CharacterModel.tsx:129-182 | one guarded joint write: the length is preserved and every node but the row's own slot is untouched |
| Animation.SpineWrites | components/CharacterModel.tsx:143-147 | the spine `forEach` over the first n segments: the length is preserved and every node outside those segments is untouched |
| Animation.SetPelvis | components/CharacterModel.tsx:150-152 | the bob: every node but the pelvis is untouched and no rotation changes |
| Animation.PelvisHeight | components/CharacterModel.tsx:151 | with the body cycle in [−1, 1] the pelvis stays within 0.003 of its baseline height |
| Animation.FrameWrites | components/CharacterModel.tsx:109-183 | the whole frame over the scene; its own contract says only that the length is preserved; `FrameWritesAt` states the content node by node |
| Animation.NodeFrame | components/CharacterModel.tsx:129-182 | the frame's effect on one node; no contract of its own: `NodeFrameAtJoint`, `NodeFrameAtPelvis`, `NodeFrameAtSpine` and `NodeFrameAtOther` state it per kind of node |
| Animation.Lookup | components/CharacterModel.tsx:129-130 | `o.get(key)` with its truthiness test: present entries only; no contract of its own, it is read through `RowNode` and `SpineNode` |
| Animation.RoleStep | components/CharacterModel.tsx:129-182 | the effect of one joint row on node k; no contract of its own: `WriteRowAt` ties it to `WriteRow`, and `NodeFrameAtJoint` and `NodeFrameAtOther` state its result |
| Animation.SpineNode | components/CharacterModel.tsx:144-146 | one iteration of the spine `forEach`, skipping a segment without a baseline; no contract of its own: `SpineStepAt` and `NodeFrameAtSpine` state its result |
| Animation.SpineStep | components/CharacterModel.tsx:143-147 | the effect of the first n spine iterations on node k; no contract of its own: `SpineWritesAt`, `SpineStepAt`, `SpineStepOutside` and `SpineStepNoBaseline` state it |
| Animation.PelvisStep | components/CharacterModel.tsx:150-152 | the effect of the pelvis bob on node k; no contract of its own: `SetPelvisAt` and `NodeFrameAtPelvis` state it |
| Animation.RowOf | components/CharacterModel.tsx:129-182 | which joints get which formula: head, neck, lower arms, thighs and calves; none for the pelvis and the upper arms; no contract of its own: `NodeFrameAtOther` and `NodeFrameNoDrift` rely on it |
| Animation.WriteRowAt | components/CharacterModel.tsx:129-140 | one joint row changes node k exactly as `RoleStep` says |
| Animation.SpineWritesAt | components/CharacterModel.tsx:143-147 | the spine loop changes node k exactly as `SpineStep` says |
| Animation.SetPelvisAt | components/CharacterModel.tsx:150-152 | the bob changes node k exactly as `PelvisStep` says |
| Animation.FrameWritesAt | components/CharacterModel.tsx:109-183 | the frame over the whole scene is, node by node, `NodeFrame` of the node's value before the frame |
| Animation.SpineStepOutside | components/CharacterModel.tsx:143-147 | a node that is no spine segment is left alone by the spine loop |
| Animation.SpineStepAt | components/CharacterModel.tsx:143-147 | spine segment j receives exactly its own write |
| Animation.NodeFrameAtJoint | components/CharacterModel.tsx:129-182 | a joint with a row ends as its row applied to its baseline, or unchanged without a baseline, whatever the other rows write |
| Animation.NodeFrameAtPelvis | components/CharacterModel.tsx:150-152 | the pelvis gets only `position.y` = pelvis baseline + bodyCycle · 0.003 |
| Animation.NodeFrameAtSpine | components/CharacterModel.tsx:143-147 | spine segment j ends as its lean from its baseline, or unchanged without one |
| Animation.NodeFrameAtOther | components/CharacterModel.tsx:109-183 | a node the frame does not animate is unchanged |
| Animation.SpineStepNoBaseline | components/CharacterModel.tsx:144-145 | without baseline entries the spine loop changes nothing |
| Animation.NodeFrameNoBaseline | components/CharacterModel.tsx:129-182 | with an empty baseline a frame does nothing to a node except the pelvis bob |
| Animation.NodeFrameKeepsIdentity | components/CharacterModel.tsx:129-182 | a frame never changes a node's bone flag or name |
| Animation.SpineStepKeepsIdentity | components/CharacterModel.tsx:146 | the spine loop never changes a node's bone flag or name |
| Animation.NodeFrameNoDrift | components/CharacterModel.tsx:129-182 | a node after two frames equals the node after the second frame alone |
| Animation.JointNoDrift | components/CharacterModel.tsx:129-140 | no drift at a joint with a row |
| Animation.PelvisNoDrift | components/CharacterModel.tsx:150-152 | no drift at the pelvis |
| Animation.SpineNoDrift | components/CharacterModel.tsx:143-147 | no drift at a spine segment |
| Animation.FrameNoDrift | components/CharacterModel.tsx:109-183 | any frame followed by another leaves the scene exactly as the second frame alone: written values never build on earlier ones |
| Animation.FrameIdempotent | components/CharacterModel.tsx:109-183 | repeating a frame with the same time and pointer changes nothing |
| Animation.FrameKeepsBones | components/CharacterModel.tsx:109-183 | a frame never changes which nodes are bones or their names, so the resolved bone set stays valid |
| Animation.FrameBeforeInit | components/CharacterModel.tsx:150-152 | with an empty baseline the frame only sets the pelvis height to the stored pelvis baseline plus the bob |
| Animation.FrameAtJoint | components/CharacterModel.tsx:129-182 | in the whole frame, a joint with a row ends as its row applied to its baseline |
| Animation.RowNodeOffset | components/CharacterModel.tsx:155-182 | a limb row moves its axis from the baseline by the row's offset, whatever the previous value |
| Animation.FrameLimbOffset | components/CharacterModel.tsx:155-182 | each elbow, thigh and calf with a baseline sits at baseline + its row's offset (arm·0.03, leg·0.008, −leg·0.01) |
| Animation.FrameSymmetry | components/CharacterModel.tsx:154-182 | left and right elbows, thighs and calves get identical offsets |
| Animation.LegCounterRotation | components/CharacterModel.tsx:164-182 | on each leg the thigh's offset is −0.8 times the calf's |
| CharacterModel.Character.constructor | components/CharacterModel.tsx:27-61 | on mount the bones are `Resolution` of the scene, the scene is untouched, and all refs are empty or zero |
| CharacterModel.Character.AddRotY | components/CharacterModel.tsx:84-89 | one in-place `rotation.y += d` equals `AddY` |
| CharacterModel.Character.SaveBone | components/CharacterModel.tsx:77-79 | one `save` call equals `Save` |
| CharacterModel.Character.PoseArms | components/CharacterModel.tsx:84-89 | the four in-place arm adjustments produce `StaticPose` |
| CharacterModel.Character.SnapshotSpine | components/CharacterModel.tsx:92 | the spine `forEach` builds exactly `SpineBaseline` over all segments |
| CharacterModel.Character.SnapshotBaseline | components/CharacterModel.tsx:91-102 | the spine loop and the ten `save` calls build exactly `Baseline` of the posed scene |
| CharacterModel.SavedRolesInOrder | components/CharacterModel.tsx:91-102 | the spine entries followed by the ten `save` calls, in the order the init block makes them, are exactly `Baseline` |
| CharacterModel.Character.Init | components/CharacterModel.tsx:73-106 | the init block moves the component to `Initialize` of its previous state and keeps it valid; the pointer is untouched |
| CharacterModel.Character.OnMouseMove | components/CharacterModel.tsx:64-68 | the target becomes the normalised pointer position; nothing else changes |
| CharacterModel.Character.WriteJoint | components/CharacterModel.tsx:129-182 | one guarded joint write equals `WriteRow` |
| CharacterModel.Character.Breathe | components/CharacterModel.tsx:143-147 | the spine `forEach` equals `SpineWrites` over all segments |
| CharacterModel.Character.Bob | components/CharacterModel.tsx:150-152 | the pelvis write equals `SetPelvis` |
| CharacterModel.Character.Animate | components/CharacterModel.tsx:127-182 | the joint writes, in the source's order, produce `FrameWrites` |
| CharacterModel.Character.Frame | components/CharacterModel.tsx:109-183 | the pointer is smoothed once, the scene becomes `FrameWrites` of the previous state at `Oscillate(t, sin)`, the refs other than `mouseCurrent` are unchanged, and the component stays valid |

## Left out

- React and three.js wiring is not modelled:
  - `useGLTF` loading and preloading;
  - `useMemo` caching and re-running on a changed dependency;
  - `useRef` boxes, which are modelled as fields;
  - `useEffect` adding and removing the pointer listener;
  - `useFrame` registration;
  - the rendered JSX (scale, position, rotation of the primitive).

  The class offers the constructor, `Init`, `OnMouseMove` and `Frame` as explicit calls instead.
- The scene graph's tree shape is not modelled. The scene is an array in the order `traverse` visits it, and a bone slot is an index into that array rather than an object reference.
- `Math.sin` is an arbitrary function passed in, bounded by 1 where a lemma needs it. The clock's `elapsedTime` is the parameter `t`.
- IEEE floating point (rounding, `Infinity`, `NaN`) is not modelled. All numbers are `real`.
- Euler rotation order and the geometric meaning of a rotation are not modelled. A rotation is a triple of reals, and `rotation.clone()` is the copy that a datatype value already is.
- Baseline keys are the datatype `Key` instead of the strings `spine_${i}`, `head`, `neck`, … . The model assumes these strings are pairwise distinct, which they are.
- PointerTracker.Normalize: requires a positive extent, because a zero-width window gives `Infinity` or `NaN` in the source.
- CharacterModel.Character.OnMouseMove: requires a positive window width and height, for the same reason.
- `components/CharacterScene.tsx`, `components/KnifeModel.tsx`, `components/WallBackground.tsx`, `app/page.tsx`, `app/layout.tsx` and `next.config.js` are not part of this model. They hold scene composition, assets, page chrome and build configuration, with no animator logic.
